/**
  * The string operations the catalog engine relies on: lower-casing,
  * substring search and `str.strip()`.
  */
module Text {

  /** ASCII lower-casing, as SQLite's `lower()` and `LIKE` do. */
  function LowerChar(c: char): char
  {
    if 'A' <= c <= 'Z' then (c as int + 32) as char else c
  }

  function Lower(s: string): (r: string)
    ensures |r| == |s|
  {
    seq(|s|, i requires 0 <= i < |s| => LowerChar(s[i]))
  }

  predicate IsLower(s: string)
  {
    forall i :: 0 <= i < |s| ==> LowerChar(s[i]) == s[i]
  }

  lemma LowerIsLower(s: string)
    ensures IsLower(Lower(s))
  {
  }

  predicate OccursAt(s: string, sub: string, i: nat)
  {
    i + |sub| <= |s| && s[i..i + |sub|] == sub
  }

  /** `sub` occurs in `s` as a contiguous run. */
  predicate Contains(s: string, sub: string)
  {
    exists i :: 0 <= i <= |s| && OccursAt(s, sub, i)
  }

  /** The position of the last occurrence of `c` in `s`, or -1. */
  function LastIndexOf(s: string, c: char): (r: int)
    ensures -1 <= r < |s|
    ensures r >= 0 ==> s[r] == c && forall k :: r < k < |s| ==> s[k] != c
    ensures r < 0 ==> forall k :: 0 <= k < |s| ==> s[k] != c
  {
    if s == [] then -1
    else if s[|s| - 1] == c then |s| - 1
    else LastIndexOf(s[..|s| - 1], c)
  }

  /** The last occurrence is the one with no occurrence after it. */
  lemma LastIndexOfIs(s: string, c: char, i: int)
    requires 0 <= i < |s| && s[i] == c
    requires forall k :: i < k < |s| ==> s[k] != c
    ensures LastIndexOf(s, c) == i
  {
    var r := LastIndexOf(s, c);
    assert r >= i;
  }

  /** The characters Python's `str.isspace()` accepts. */
  predicate IsSpace(c: char)
  {
    || c == ' ' || '\t' <= c <= '\r' || '\U{1C}' <= c <= '\U{1F}'
    || c == '\U{85}' || c == '\U{A0}' || c == '\U{1680}' || '\U{2000}' <= c <= '\U{200A}'
    || c == '\U{2028}' || c == '\U{2029}' || c == '\U{202F}' || c == '\U{205F}' || c == '\U{3000}'
  }

  function TrimStart(s: string): (r: string)
    ensures |r| <= |s| && r == s[|s| - |r|..]
    ensures forall k :: 0 <= k < |s| - |r| ==> IsSpace(s[k])
    ensures r == [] || !IsSpace(r[0])
  {
    if s != [] && IsSpace(s[0]) then
      var r := TrimStart(s[1..]);
      assert forall k :: 1 <= k < |s| - |r| ==> s[k] == s[1..][k - 1];
      r
    else s
  }

  function TrimEnd(s: string): (r: string)
    ensures |r| <= |s| && r == s[..|r|]
    ensures forall k :: |r| <= k < |s| ==> IsSpace(s[k])
    ensures r == [] || !IsSpace(r[|r| - 1])
  {
    if s != [] && IsSpace(s[|s| - 1]) then
      var r := TrimEnd(s[..|s| - 1]);
      assert s[..|s| - 1][..|r|] == s[..|r|];
      r
    else s
  }

  /** `r` is the run of `s` at `i`, and everything around it is whitespace. */
  predicate TrimmedAt(s: string, r: string, i: int)
  {
    && 0 <= i <= |s| - |r| && r == s[i..i + |r|]
    && (forall k :: 0 <= k < i ==> IsSpace(s[k]))
    && (forall k :: i + |r| <= k < |s| ==> IsSpace(s[k]))
  }

  /**
    * `str.strip()`: `s` without the whitespace at either end; the result
    * neither starts nor ends with whitespace.
    */
  function Strip(s: string): (r: string)
    ensures r == [] || (!IsSpace(r[0]) && !IsSpace(r[|r| - 1]))
  {
    TrimEnd(TrimStart(s))
  }

  /** Trimming the run found in a trimmed run finds a run of the whole. */
  lemma TrimmedWithin(s: string, t: string, r: string, i: int, j: int)
    requires TrimmedAt(s, t, i) && TrimmedAt(t, r, j)
    ensures TrimmedAt(s, r, i + j)
  {
    forall k | 0 <= k < |r| ensures r[k] == s[i + j + k] {
      assert r[k] == t[j + k] == s[i + j + k];
    }
    assert r == s[i + j..i + j + |r|];
    forall k | 0 <= k < i + j ensures IsSpace(s[k]) {
      if k >= i {
        assert s[k] == t[k - i];
      }
    }
    forall k | i + j + |r| <= k < |s| ensures IsSpace(s[k]) {
      if k < i + |t| {
        assert s[k] == t[k - i];
      }
    }
  }

  lemma TrimStartTrimmed(s: string)
    ensures TrimmedAt(s, TrimStart(s), |s| - |TrimStart(s)|)
  {
  }

  lemma TrimEndTrimmed(t: string)
    ensures TrimmedAt(t, TrimEnd(t), 0)
  {
  }

  /** What `Strip` removes is whitespace only: the result is the run of `s` between the removed ends. */
  lemma StripRemovesOnlySpace(s: string)
    ensures exists i :: TrimmedAt(s, Strip(s), i)
  {
    var t := TrimStart(s);
    TrimStartTrimmed(s);
    TrimEndTrimmed(t);
    TrimmedWithin(s, t, TrimEnd(t), |s| - |t|, 0);
    assert Strip(s) == TrimEnd(t);
    assert TrimmedAt(s, Strip(s), |s| - |t|);
  }

  /** Stripping twice strips nothing more. */
  lemma StripIdempotent(s: string)
    ensures Strip(Strip(s)) == Strip(s)
  {
    var r := Strip(s);
    assert TrimStart(r) == r;
    assert TrimEnd(r) == r;
  }
}
