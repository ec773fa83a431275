/**
 * The handful of Python `str` operations the tool relies on:
 * `endswith`, the `in` substring test, `lower()` and `strip(chars)`.
 */
module Text {

  /** `s.endswith(suffix)` */
  predicate EndsWith(s: string, suffix: string) {
    |suffix| <= |s| && s[|s| - |suffix|..] == suffix
  }

  /** `s.startswith(prefix)` */
  predicate StartsWith(s: string, prefix: string) {
    |prefix| <= |s| && s[..|prefix|] == prefix
  }

  /** A suffix of a suffix is a suffix. */
  lemma EndsWithTransitive(s: string, t: string, u: string)
    requires EndsWith(s, t) && EndsWith(t, u)
    ensures EndsWith(s, u)
  {
    assert s[|s| - |u|..] == s[|s| - |t|..][|t| - |u|..];
  }

  /** `sub in s` for two strings */
  predicate Contains(s: string, sub: string) {
    exists i :: 0 <= i <= |s| - |sub| && OccursAt(s, sub, i)
  }

  /** `sub` occurs in `s` starting at index `i`. */
  predicate OccursAt(s: string, sub: string, i: int) {
    0 <= i <= |s| - |sub| && s[i..i + |sub|] == sub
  }

  /** A substring of a piece is a substring of anything the piece is glued into. */
  lemma ContainsInContext(a: string, s: string, b: string, sub: string)
    requires Contains(s, sub)
    ensures Contains(a + s + b, sub)
  {
    var i :| 0 <= i <= |s| - |sub| && OccursAt(s, sub, i);
    var t := a + s + b;
    assert t[|a| + i..|a| + i + |sub|] == s[i..i + |sub|];
    assert OccursAt(t, sub, |a| + i);
  }

  /** A string contains whatever its prefix contains. */
  lemma ContainsThroughPrefix(s: string, prefix: string, sub: string)
    requires StartsWith(s, prefix) && Contains(prefix, sub)
    ensures Contains(s, sub)
  {
    var rest := s[|prefix|..];
    assert [] + prefix + rest == s;
    ContainsInContext([], prefix, rest, sub);
  }

  /** `c.lower()` for one character; only ASCII letters are folded. */
  function LowerChar(c: char): char {
    if 'A' <= c <= 'Z' then (c as int - 'A' as int + 'a' as int) as char else c
  }

  /** `s.lower()`, folding ASCII letters character by character. */
  function Lower(s: string): string {
    seq(|s|, i requires 0 <= i < |s| => LowerChar(s[i]))
  }

  /** Lower-casing a second time changes nothing. */
  lemma LowerIdempotent(s: string)
    ensures Lower(Lower(s)) == Lower(s)
  {
    assert forall i :: 0 <= i < |s| ==> Lower(Lower(s))[i] == Lower(s)[i];
  }

  /** Lower-casing commutes with taking a suffix. */
  lemma LowerSuffix(s: string, k: nat)
    requires k <= |s|
    ensures Lower(s)[k..] == Lower(s[k..])
  {
  }

  /** The characters that `strip('{}')` removes. */
  predicate IsBrace(c: char) {
    c == '{' || c == '}'
  }

  predicate AllBraces(s: string) {
    forall k :: 0 <= k < |s| ==> IsBrace(s[k])
  }

  /** Neither end of `s` is a brace. */
  predicate Unbraced(s: string) {
    s == [] || (!IsBrace(s[0]) && !IsBrace(s[|s| - 1]))
  }

  /** `s` is `r` with only braces added on the left (before `i`) and on the right. */
  predicate TrimmedAt(s: string, r: string, i: int) {
    0 <= i <= |s| - |r| && s[i..i + |r|] == r && AllBraces(s[..i]) && AllBraces(s[i + |r|..])
  }

  /** `s.lstrip('{}')`: the longest suffix of `s` that does not start with a brace. */
  function StripLeft(s: string): string {
    if s != [] && IsBrace(s[0]) then StripLeft(s[1..]) else s
  }

  /** What `StripLeft` removes is a run of braces, and what it keeps does not start with one. */
  lemma {:induction false} StripLeftRemovesBraces(s: string)
    ensures var r := StripLeft(s);
      && |r| <= |s| && r == s[|s| - |r|..]
      && AllBraces(s[..|s| - |r|])
      && (r == [] || !IsBrace(r[0]))
  {
    if s != [] && IsBrace(s[0]) {
      StripLeftRemovesBraces(s[1..]);
      var r := StripLeft(s);
      assert s[..|s| - |r|] == [s[0]] + s[1..][..|s| - 1 - |r|];
    }
  }

  /** `s.rstrip('{}')`: the longest prefix of `s` that does not end with a brace. */
  function StripRight(s: string): string {
    if s != [] && IsBrace(s[|s| - 1]) then StripRight(s[..|s| - 1]) else s
  }

  /** What `StripRight` removes is a run of braces, and what it keeps does not end with one. */
  lemma {:induction false} StripRightRemovesBraces(s: string)
    ensures var r := StripRight(s);
      && |r| <= |s| && r == s[..|r|]
      && AllBraces(s[|r|..])
      && (r == [] || !IsBrace(r[|r| - 1]))
  {
    if s != [] && IsBrace(s[|s| - 1]) {
      StripRightRemovesBraces(s[..|s| - 1]);
      var r := StripRight(s);
      assert s[|r|..] == s[..|s| - 1][|r|..] + [s[|s| - 1]];
    }
  }

  /** `s.strip('{}')`: `s` with every leading and trailing brace removed. */
  function StripBraces(s: string): (r: string)
    ensures Unbraced(r)
    ensures exists i :: TrimmedAt(s, r, i)
  {
    var l := StripLeft(s);
    var r := StripRight(l);
    StripLeftRemovesBraces(s);
    StripRightRemovesBraces(l);
    var i := |s| - |l|;
    assert s[i..i + |r|] == r;
    assert s[i + |r|..] == l[|r|..];
    assert r == [] || !IsBrace(r[0]) by {
      if r != [] { assert r[0] == l[0]; }
    }
    assert TrimmedAt(s, r, i);
    r
  }

  /** A string without a brace at either end is left alone by the strip. */
  lemma StripUnbraced(s: string)
    requires Unbraced(s)
    ensures StripBraces(s) == s
  {
    assert StripLeft(s) == s;
    assert StripRight(s) == s;
  }

  /** Stripping is idempotent. */
  lemma StripBracesIdempotent(s: string)
    ensures StripBraces(StripBraces(s)) == StripBraces(s)
  {
    StripUnbraced(StripBraces(s));
  }

  /**
   * Index of the last occurrence of `c` in `s`, or -1 when there is none
   * (`s.rfind(c)`).
   */
  function LastIndex(s: string, c: char): (r: int)
    ensures -1 <= r < |s|
    ensures r >= 0 ==> s[r] == c
    ensures forall k :: r < k < |s| ==> s[k] != c
  {
    LastIndexBelow(s, c, |s|)
  }

  /** Index of the last occurrence of `c` in `s[..n]`, or -1. */
  function LastIndexBelow(s: string, c: char, n: nat): (r: int)
    requires n <= |s|
    ensures -1 <= r < n
    ensures r >= 0 ==> s[r] == c
    ensures forall k :: r < k < n ==> s[k] != c
  {
    if n == 0 then -1
    else if s[n - 1] == c then n - 1
    else LastIndexBelow(s, c, n - 1)
  }
}
