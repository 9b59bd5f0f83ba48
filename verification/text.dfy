/** The string primitives of Go's `strings` package that the directory uses:
    TrimSpace, ToLower, EqualFold and Contains.

    Case folding is ONE function, `Lower`, and it folds ASCII letters only.
    It stands for both `strings.EqualFold` (as `Lower(a) == Lower(b)`) and the
    `strings.ToLower` calls made before `strings.Contains`; Go's full Unicode
    folding is not modelled. */
module Text {

  /** The characters `strings.TrimSpace` removes: Go's `unicode.IsSpace`,
      that is the ASCII white space plus the other code points with the
      Unicode White_Space property. */
  predicate IsSpace(c: char) {
    || c == ' ' || c == '\t' || c == '\n' || c == '\r'
    || c == '\U{000B}' || c == '\U{000C}' || c == '\U{0085}' || c == '\U{00A0}'
    || c == '\U{1680}' || ('\U{2000}' <= c <= '\U{200A}')
    || c == '\U{2028}' || c == '\U{2029}' || c == '\U{202F}' || c == '\U{205F}'
    || c == '\U{3000}'
  }

  /** Drops the leading white space: the result is a suffix of `s`, what was
      dropped is all white space, and the result does not start with any. */
  function TrimLeft(s: string): (r: string)
    ensures |r| <= |s| && r == s[|s| - |r|..]
    ensures forall k :: 0 <= k < |s| - |r| ==> IsSpace(s[k])
    ensures r == [] || !IsSpace(r[0])
  {
    if |s| > 0 && IsSpace(s[0]) then TrimLeft(s[1..]) else s
  }

  /** Drops the trailing white space: the result is a prefix of `s`, what was
      dropped is all white space, and the result does not end with any. */
  function TrimRight(s: string): (r: string)
    ensures |r| <= |s| && r == s[..|r|]
    ensures forall k :: |r| <= k < |s| ==> IsSpace(s[k])
    ensures r == [] || !IsSpace(r[|r| - 1])
  {
    if |s| > 0 && IsSpace(s[|s| - 1]) then TrimRight(s[..|s| - 1]) else s
  }

  /** `s` is `r` surrounded by white space only, with `r` starting at offset `i`. */
  predicate TrimsTo(s: string, i: int, r: string) {
    && 0 <= i && i + |r| <= |s| && s[i..i + |r|] == r
    && (forall k :: 0 <= k < i ==> IsSpace(s[k]))
    && (forall k :: i + |r| <= k < |s| ==> IsSpace(s[k]))
  }

  /** `strings.TrimSpace`: `s` without its leading and trailing white space
      (what that means is TrimSpaceTrims, proved below). */
  function TrimSpace(s: string): (r: string)
    ensures |r| <= |s|
  {
    TrimRight(TrimLeft(s))
  }

  /** TrimSpace removes white space only, and only around the text: `s` is
      the result surrounded by white space, and the result neither starts
      nor ends with white space. */
  lemma TrimSpaceTrims(s: string)
    ensures exists i :: TrimsTo(s, i, TrimSpace(s))
    ensures var r := TrimSpace(s); r == [] || (!IsSpace(r[0]) && !IsSpace(r[|r| - 1]))
  {
    var t := TrimLeft(s);
    var r := TrimRight(t);
    assert r == TrimSpace(s);
    var i := |s| - |t|;
    assert s[i..i + |r|] == r by {
      assert s[i..i + |r|] == t[..|r|];
    }
    forall k | i + |r| <= k < |s| ensures IsSpace(s[k]) {
      assert s[k] == t[k - i];
    }
    assert TrimsTo(s, i, r);
  }

  /** The contract of TrimSpace determines its result: any `r` that `s`
      trims to and that neither starts nor ends with white space is it. */
  lemma TrimSpaceUnique(s: string, i: int, r: string)
    requires TrimsTo(s, i, r)
    requires r == [] || (!IsSpace(r[0]) && !IsSpace(r[|r| - 1]))
    ensures r == TrimSpace(s)
  {
    TrimSpaceTrims(s);
    var t := TrimSpace(s);
    var j :| TrimsTo(s, j, t);
    if r != [] && t != [] {
      // Both start at the first character of s that is not white space ...
      assert s[i + 0] == r[0] && s[j + 0] == t[0];
      assert i == j;
      // ... and both end at the last one.
      assert s[i + (|r| - 1)] == r[|r| - 1] && s[j + (|t| - 1)] == t[|t| - 1];
      assert |r| == |t|;
    }
  }

  /** A string with no white space at either end is its own trimming. */
  lemma TrimmedStaysTrimmed(s: string)
    requires s == [] || (!IsSpace(s[0]) && !IsSpace(s[|s| - 1]))
    ensures TrimSpace(s) == s
  {
    assert TrimsTo(s, 0, s);
    TrimSpaceUnique(s, 0, s);
  }

  /** A string of white space only trims to the empty string, which the
      directory then stores as it is. */
  lemma TrimSpaceOfBlank(s: string)
    requires forall k :: 0 <= k < |s| ==> IsSpace(s[k])
    ensures TrimSpace(s) == []
  {
    assert TrimsTo(s, 0, []);
    TrimSpaceUnique(s, 0, []);
  }

  /** Trimming twice is trimming once. */
  lemma TrimSpaceIdempotent(s: string)
    ensures TrimSpace(TrimSpace(s)) == TrimSpace(s)
  {
    TrimmedStaysTrimmed(TrimSpace(s));
  }

  /** The ASCII lower-case mapping of one character. */
  function LowerChar(c: char): char {
    if 'A' <= c <= 'Z' then (c as int + 32) as char else c
  }

  /** `strings.ToLower`, restricted to ASCII letters. */
  function Lower(s: string): (r: string)
    ensures |r| == |s|
    ensures forall k :: 0 <= k < |s| ==> r[k] == LowerChar(s[k])
  {
    if s == [] then [] else [LowerChar(s[0])] + Lower(s[1..])
  }

  /** `strings.EqualFold` under the same (ASCII) folding as Lower. */
  predicate EqualFold(a: string, b: string)
    ensures EqualFold(a, b) ==> |a| == |b|
  {
    Lower(a) == Lower(b)
  }

  /** EqualFold compares character by character, ignoring ASCII case. */
  lemma EqualFoldPointwise(a: string, b: string)
    ensures EqualFold(a, b) <==> |a| == |b| && forall k :: 0 <= k < |a| ==> LowerChar(a[k]) == LowerChar(b[k])
  {
    if |a| == |b| && forall k :: 0 <= k < |a| ==> LowerChar(a[k]) == LowerChar(b[k]) {
      assert forall k :: 0 <= k < |a| ==> Lower(a)[k] == Lower(b)[k];
    }
  }

  predicate HasPrefix(s: string, p: string) {
    |p| <= |s| && s[..|p|] == p
  }

  /** `strings.Contains(s, sub)`: `sub` is a prefix of some suffix of `s`. */
  predicate Contains(s: string, sub: string)
    ensures Contains(s, sub) ==> |sub| <= |s|
    decreases |s|
  {
    HasPrefix(s, sub) || (|s| > 0 && Contains(s[1..], sub))
  }

  /** `sub` occurs in `s` starting at offset `i`. */
  predicate OccursAt(s: string, sub: string, i: int) {
    0 <= i && i + |sub| <= |s| && s[i..i + |sub|] == sub
  }

  /** Contains agrees with the direct definition of a substring occurrence. */
  lemma {:induction false} ContainsIffOccurs(s: string, sub: string)
    ensures Contains(s, sub) <==> exists i :: OccursAt(s, sub, i)
    decreases |s|
  {
    if HasPrefix(s, sub) {
      assert OccursAt(s, sub, 0);
    } else if |s| > 0 {
      ContainsIffOccurs(s[1..], sub);
      if Contains(s[1..], sub) {
        var i :| OccursAt(s[1..], sub, i);
        assert s[1..][i..i + |sub|] == s[i + 1..i + 1 + |sub|];
        assert OccursAt(s, sub, i + 1);
      }
      if i :| OccursAt(s, sub, i) {
        assert i != 0;
        assert s[1..][i - 1..i - 1 + |sub|] == s[i..i + |sub|];
        assert OccursAt(s[1..], sub, i - 1);
      }
    }
  }

  /** Every string contains the empty string. */
  lemma ContainsEmpty(s: string)
    ensures Contains(s, [])
  {
  }
}
