/**
 * `add_files_to_list`: the list of files waiting to be compressed and the
 * lines it adds to the listbox, as a function of what the user selected or
 * dropped.
 */
module PendingList {
  import opened Text
  import opened PosixPath

  /** Prefix of the line logged for a file whose extension is not accepted. */
  const UnsupportedTag: string := "[지원안함] "

  /** `f.lower().endswith(('.png', '.jpg', '.jpeg'))` */
  predicate Supported(path: string) {
    var lower := Lower(path);
    EndsWith(lower, ".png") || EndsWith(lower, ".jpg") || EndsWith(lower, ".jpeg")
  }

  /**
   * What the loop body of `add_files_to_list` works out about one incoming
   * path before it touches any state: the path with its braces stripped,
   * whether its extension is accepted, and its base name for the log.
   */
  datatype Arrival = Arrival(path: string, accepted: bool, name: string)

  function Classify(f: string): (a: Arrival)
    ensures Unbraced(a.path)
  {
    var cleaned := StripBraces(f);
    Arrival(cleaned, Supported(cleaned), Basename(cleaned))
  }

  /** The classification of every incoming path, in order. */
  function ClassifyAll(files: seq<string>): seq<Arrival> {
    seq(|files|, j requires 0 <= j < |files| => Classify(files[j]))
  }

  /** The arrival is what `Classify` makes of some path. */
  predicate Classified(a: Arrival) {
    Unbraced(a.path) && a.accepted == Supported(a.path)
  }

  lemma ClassifyIsClassified(f: string)
    ensures Classified(Classify(f))
  {
  }

  /** `file_list` and the listbox's lines. */
  datatype Pending = Pending(paths: seq<string>, log: seq<string>)

  predicate NoDuplicates(s: seq<string>) {
    forall i, j :: 0 <= i < j < |s| ==> s[i] != s[j]
  }

  /**
   * What `add_files_to_list` keeps true of `file_list`: no path twice, and
   * every path accepted and free of surrounding braces.
   */
  predicate WellFormed(paths: seq<string>) {
    NoDuplicates(paths) && forall i :: 0 <= i < |paths| ==> Supported(paths[i]) && Unbraced(paths[i])
  }

  /** One turn of the loop in `add_files_to_list`. */
  function AddOne(st: Pending, a: Arrival): Pending {
    if a.path in st.paths then st
    else if a.accepted then Pending(st.paths + [a.path], st.log + [a.name])
    else Pending(st.paths, st.log + [UnsupportedTag + a.name])
  }

  /** The whole loop: the arrivals handled in order. */
  function AddAll(st: Pending, arrivals: seq<Arrival>): Pending
    decreases |arrivals|
  {
    if arrivals == [] then st
    else AddOne(AddAll(st, arrivals[..|arrivals| - 1]), arrivals[|arrivals| - 1])
  }

  /** Handling one more arrival is one more step. */
  lemma {:induction false} AddNext(st: Pending, arrivals: seq<Arrival>, k: nat)
    requires k < |arrivals|
    ensures AddAll(st, arrivals[..k + 1]) == AddOne(AddAll(st, arrivals[..k]), arrivals[k])
  {
    assert arrivals[..k + 1][..k] == arrivals[..k];
  }

  /** One step keeps `file_list` free of duplicates, accepted and unbraced. */
  lemma AddOnePreservesWellFormed(st: Pending, a: Arrival)
    requires WellFormed(st.paths) && Classified(a)
    ensures WellFormed(AddOne(st, a).paths)
  {
    if a.path !in st.paths && a.accepted {
      var p := st.paths + [a.path];
      forall i, j | 0 <= i < j < |p| ensures p[i] != p[j] {
        if j == |p| - 1 { assert p[i] in st.paths; }
      }
    }
  }

  /** However many paths arrive, `file_list` stays free of duplicates, accepted and unbraced. */
  lemma {:induction false} AddAllPreservesWellFormed(st: Pending, arrivals: seq<Arrival>)
    requires WellFormed(st.paths)
    requires forall j :: 0 <= j < |arrivals| ==> Classified(arrivals[j])
    ensures WellFormed(AddAll(st, arrivals).paths)
    decreases |arrivals|
  {
    if arrivals != [] {
      AddAllPreservesWellFormed(st, arrivals[..|arrivals| - 1]);
      AddOnePreservesWellFormed(AddAll(st, arrivals[..|arrivals| - 1]), arrivals[|arrivals| - 1]);
    }
  }

  /** The same, for the classification of the paths as given. */
  lemma AddingFilesPreservesWellFormed(st: Pending, files: seq<string>)
    requires WellFormed(st.paths)
    ensures WellFormed(AddAll(st, ClassifyAll(files)).paths)
  {
    var arrivals := ClassifyAll(files);
    forall j | 0 <= j < |arrivals| ensures Classified(arrivals[j]) {
      ClassifyIsClassified(files[j]);
    }
    AddAllPreservesWellFormed(st, arrivals);
  }

  /**
   * Existing paths and lines stay where they were; new ones only go at the
   * end. Every stored path comes with a log line, and each incoming path adds
   * at most one line.
   */
  lemma {:induction false} AddAllExtends(st: Pending, arrivals: seq<Arrival>)
    ensures var r := AddAll(st, arrivals);
      && |st.paths| <= |r.paths| && r.paths[..|st.paths|] == st.paths
      && |st.log| <= |r.log| && r.log[..|st.log|] == st.log
      && |r.paths| - |st.paths| <= |r.log| - |st.log| <= |arrivals|
    decreases |arrivals|
  {
    if arrivals != [] {
      AddAllExtends(st, arrivals[..|arrivals| - 1]);
      var mid := AddAll(st, arrivals[..|arrivals| - 1]);
      var r := AddOne(mid, arrivals[|arrivals| - 1]);
      assert r.paths[..|mid.paths|] == mid.paths;
      assert r.log[..|mid.log|] == mid.log;
      assert r.paths[..|st.paths|] == mid.paths[..|st.paths|];
      assert r.log[..|st.log|] == mid.log[..|st.log|];
    }
  }

  /**
   * A path is in `file_list` afterwards exactly when it was there before or
   * it arrived and was accepted.
   */
  lemma {:induction false} AddAllMembership(st: Pending, arrivals: seq<Arrival>, x: string)
    ensures x in AddAll(st, arrivals).paths
        <==> x in st.paths || exists j :: 0 <= j < |arrivals| && arrivals[j].accepted && arrivals[j].path == x
    decreases |arrivals|
  {
    if arrivals != [] {
      var init := arrivals[..|arrivals| - 1];
      var last := arrivals[|arrivals| - 1];
      AddAllMembership(st, init, x);
      var mid := AddAll(st, init);
      if x in mid.paths {
        assert AddOne(mid, last).paths[..|mid.paths|] == mid.paths;
      }
      if exists j :: 0 <= j < |init| && init[j].accepted && init[j].path == x {
        var j :| 0 <= j < |init| && init[j].accepted && init[j].path == x;
        assert arrivals[j] == init[j];
      }
      if j :| 0 <= j < |arrivals| && arrivals[j].accepted && arrivals[j].path == x {
        if j < |arrivals| - 1 {
          assert init[j] == arrivals[j];
        }
      }
    }
  }

  /**
   * The same for the paths as given: a path is pending afterwards exactly
   * when it was before or it is some incoming path, braces stripped, with an
   * accepted extension.
   */
  lemma StoredPathsAreAcceptedArrivals(st: Pending, files: seq<string>, x: string)
    ensures x in AddAll(st, ClassifyAll(files)).paths
        <==> x in st.paths || exists j :: 0 <= j < |files| && StripBraces(files[j]) == x && Supported(x)
  {
    var arrivals := ClassifyAll(files);
    AddAllMembership(st, arrivals, x);
    if exists j :: 0 <= j < |arrivals| && arrivals[j].accepted && arrivals[j].path == x {
      var j :| 0 <= j < |arrivals| && arrivals[j].accepted && arrivals[j].path == x;
      assert StripBraces(files[j]) == x && Supported(x);
    }
    if exists j :: 0 <= j < |files| && StripBraces(files[j]) == x && Supported(x) {
      var j :| 0 <= j < |files| && StripBraces(files[j]) == x && Supported(x);
      assert arrivals[j].accepted && arrivals[j].path == x;
    }
  }

  /** Paths already in `file_list` change nothing: no new entry and no log line. */
  lemma {:induction false} PresentPathsIgnored(st: Pending, arrivals: seq<Arrival>)
    requires forall j :: 0 <= j < |arrivals| ==> arrivals[j].path in st.paths
    ensures AddAll(st, arrivals) == st
    decreases |arrivals|
  {
    if arrivals != [] {
      PresentPathsIgnored(st, arrivals[..|arrivals| - 1]);
    }
  }

  /** `n` copies of `x`. */
  function Repeat<T>(x: T, n: nat): (r: seq<T>)
    ensures |r| == n
    ensures forall i :: 0 <= i < n ==> r[i] == x
  {
    if n == 0 then [] else Repeat(x, n - 1) + [x]
  }

  /**
   * An accepted path that is not yet pending is stored once and logged once
   * under its base name, however often it arrives in one call.
   */
  lemma {:induction false} RepeatedSupportedAddedOnce(st: Pending, a: Arrival, n: nat)
    requires n >= 1
    requires a.accepted && a.path !in st.paths
    ensures AddAll(st, Repeat(a, n)) == Pending(st.paths + [a.path], st.log + [a.name])
  {
    var added := Pending(st.paths + [a.path], st.log + [a.name]);
    if n == 1 {
      assert Repeat(a, 1)[..0] == [];
    } else {
      assert Repeat(a, n)[..n - 1] == Repeat(a, n - 1);
      RepeatedSupportedAddedOnce(st, a, n - 1);
      assert a.path in added.paths;
    }
  }

  /**
   * A path that is not accepted is never stored, so it is logged again as
   * unsupported every time it arrives.
   */
  lemma {:induction false} RepeatedUnsupportedLoggedEachTime(st: Pending, a: Arrival, n: nat)
    requires !a.accepted && a.path !in st.paths
    ensures AddAll(st, Repeat(a, n)) == Pending(st.paths, st.log + Repeat(UnsupportedTag + a.name, n))
  {
    if n > 0 {
      assert Repeat(a, n)[..n - 1] == Repeat(a, n - 1);
      RepeatedUnsupportedLoggedEachTime(st, a, n - 1);
      var line := UnsupportedTag + a.name;
      assert st.log + Repeat(line, n - 1) + [line] == st.log + Repeat(line, n);
    }
  }

  /**
   * Only the end of a path matters for the extension test: putting it under
   * another directory, or any other prefix, does not change the answer.
   */
  lemma SupportedDependsOnlyOnEnd(head: string, tail: string)
    requires |tail| >= |".jpeg"|
    ensures Supported(head + tail) == Supported(tail)
  {
    var p := head + tail;
    assert p[|head|..] == tail;
    LowerSuffix(p, |head|);
    var lp, lt := Lower(p), Lower(tail);
    forall ext | ext in [".png", ".jpg", ".jpeg"] ensures EndsWith(lp, ext) == EndsWith(lt, ext) {
      assert lp[|lp| - |ext|..] == lp[|head|..][|lt| - |ext|..];
    }
    assert ".png" in [".png", ".jpg", ".jpeg"];
    assert ".jpg" in [".png", ".jpg", ".jpeg"];
    assert ".jpeg" in [".png", ".jpg", ".jpeg"];
  }

  /** Case does not matter for the extension test. */
  lemma SupportedIgnoresCase(path: string)
    ensures Supported(Lower(path)) == Supported(path)
  {
    LowerIdempotent(path);
  }

  /** The same path arriving `n` times is classified the same way each time. */
  lemma ClassifyRepeat(f: string, n: nat)
    ensures ClassifyAll(Repeat(f, n)) == Repeat(Classify(f), n)
  {
  }
}
