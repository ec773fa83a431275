/**
 * The three `os.path` functions the tool uses, with the POSIX meaning
 * (`posixpath`): the separator is `/` and the extension separator is `.`.
 */
module PosixPath {
  import opened Text

  const Sep: char := '/'
  const ExtSep: char := '.'

  /** `os.path.basename(p)`: everything after the last separator. */
  function Basename(p: string): (r: string)
    ensures Sep !in r
    ensures |r| <= |p| && r == p[|p| - |r|..]
    ensures Sep !in p ==> r == p
  {
    p[LastIndex(p, Sep) + 1..]
  }

  /** True when `s` holds a character other than `.` between `lo` and `hi`. */
  predicate HasNonDotBetween(s: string, lo: int, hi: int)
    requires 0 <= lo && hi <= |s|
  {
    exists k :: lo <= k < hi && s[k] != ExtSep
  }

  /**
   * `os.path.splitext(p)`: splits at the last `.` of the last path component,
   * unless everything before that dot in the component is dots (so `.bashrc`
   * has no extension).
   */
  function SplitExt(p: string): (r: (string, string))
    ensures r.0 + r.1 == p
    ensures r.1 == [] || (r.1[0] == ExtSep && Sep !in r.1 && ExtSep !in r.1[1..])
  {
    var sepIndex := LastIndex(p, Sep);
    var dotIndex := LastIndex(p, ExtSep);
    if dotIndex > sepIndex && HasNonDotBetween(p, sepIndex + 1, dotIndex) then
      assert Sep !in p[dotIndex..] by {
        forall k | 0 <= k < |p| - dotIndex ensures p[dotIndex..][k] != Sep {
          assert p[dotIndex + k] != Sep;
        }
      }
      (p[..dotIndex], p[dotIndex..])
    else
      (p, [])
  }

  /**
   * `os.path.join(a, b)`: `b` alone when it is absolute, otherwise `a` and
   * `b` with one separator between them unless `a` is empty or already ends
   * in one.
   */
  function Join(a: string, b: string): (r: string)
    ensures StartsWith(b, [Sep]) ==> r == b
    ensures !StartsWith(b, [Sep]) ==>
              && StartsWith(r, a) && EndsWith(r, b)
              && |a| + |b| <= |r| <= |a| + 1 + |b|
              && (a != [] ==> r[|r| - |b| - 1] == Sep)
              && (|r| == |a| + |b| <==> a == [] || a[|a| - 1] == Sep)
  {
    if StartsWith(b, [Sep]) then b
    else if a == [] || a[|a| - 1] == Sep then
      assert (a + b)[..|a|] == a && (a + b)[|a|..] == b;
      a + b
    else
      assert (a + [Sep] + b)[..|a|] == a && (a + [Sep] + b)[|a| + 1..] == b;
      a + [Sep] + b
  }

  /**
   * After an empty directory or one that already ends in a separator (the
   * root `/`, say), no separator is added: the name follows directly.
   */
  lemma JoinAfterSeparator(dir: string, name: string)
    requires dir == [] || dir[|dir| - 1] == Sep
    requires !StartsWith(name, [Sep])
    ensures Join(dir, name) == dir + name
  {
    var r := Join(dir, name);
    assert r[..|dir|] == dir && r[|dir|..] == name;
    assert r == r[..|dir|] + r[|dir|..];
  }

  /** Whatever directory part precedes a bare file name, the base name is that file name. */
  lemma BasenameAfterDirectory(prefix: string, name: string)
    requires prefix == [] || prefix[|prefix| - 1] == Sep
    requires Sep !in name
    ensures Basename(prefix + name) == name
  {
    var r := prefix + name;
    assert forall k :: |prefix| <= k < |r| ==> r[k] == name[k - |prefix|];
    if prefix != [] {
      assert r[|prefix| - 1] == Sep;
      assert LastIndex(r, Sep) == |prefix| - 1;
    } else {
      assert LastIndex(r, Sep) == -1;
    }
    assert r[LastIndex(r, Sep) + 1..] == name;
  }

  /** A bare file name joined to a directory lands in that directory under that name. */
  lemma JoinPlacesInDirectory(dir: string, name: string)
    requires Sep !in name
    ensures StartsWith(Join(dir, name), dir) && EndsWith(Join(dir, name), name)
    ensures Basename(Join(dir, name)) == name
  {
    assert !StartsWith(name, [Sep]) by {
      if |name| >= 1 { assert name[0] in name; assert name[..1][0] == name[0]; }
    }
    var r := Join(dir, name);
    var prefix := r[..|r| - |name|];
    assert r == prefix + name;
    BasenameAfterDirectory(prefix, name);
  }

  /**
   * A file name made of a stem that is not all dots, a dot and an extension
   * without dots splits into exactly that stem and that dotted extension.
   */
  lemma SplitExtOfStemAndExtension(stem: string, ext: string)
    requires Sep !in stem && Sep !in ext && ExtSep !in ext
    requires HasNonDotBetween(stem, 0, |stem|)
    ensures SplitExt(stem + [ExtSep] + ext) == (stem, [ExtSep] + ext)
  {
    var p := stem + [ExtSep] + ext;
    assert forall k :: 0 <= k < |stem| ==> p[k] == stem[k];
    assert forall k :: |stem| < k < |p| ==> p[k] == ext[k - |stem| - 1];
    assert p[|stem|] == ExtSep;
    assert LastIndex(p, ExtSep) == |stem|;
    assert LastIndex(p, Sep) == -1;
    var k :| 0 <= k < |stem| && stem[k] != ExtSep;
    assert p[k] != ExtSep;
    assert HasNonDotBetween(p, 0, |stem|);
    assert p[..|stem|] == stem;
    assert p[|stem|..] == [ExtSep] + ext;
  }

  /**
   * A name whose dots all come before its other characters (`.bashrc`,
   * `.png`, `..`) has no extension: it is all stem.
   */
  lemma LeadingDotsAreNoExtension(dots: string, rest: string)
    requires forall k :: 0 <= k < |dots| ==> dots[k] == ExtSep
    requires Sep !in rest && ExtSep !in rest
    ensures SplitExt(dots + rest) == (dots + rest, [])
  {
    var p := dots + rest;
    forall k | 0 <= k < |p| ensures p[k] != Sep && (k >= |dots| ==> p[k] != ExtSep) {
      if k < |dots| {
        assert p[k] == dots[k];
      } else {
        assert p[k] == rest[k - |dots|];
      }
    }
    assert Sep !in p;
    var dotIndex := LastIndex(p, ExtSep);
    if dotIndex >= 0 {
      assert dotIndex < |dots|;
      assert !HasNonDotBetween(p, 0, dotIndex) by {
        forall k | 0 <= k < dotIndex ensures p[k] == ExtSep {
          assert p[k] == dots[k];
        }
      }
    }
  }
}
