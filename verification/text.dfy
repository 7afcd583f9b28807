/** The few string operations of Python the scripts rely on: `lower()`, `in` on strings and `rfind`. */
module Text {

  predicate IsUpper(c: char) {
    'A' <= c <= 'Z'
  }

  function LowerChar(c: char): char {
    if IsUpper(c) then (c as int + 32) as char else c
  }

  /** Python's `str.lower()`, restricted to ASCII letters. */
  function Lower(s: string): (r: string)
    ensures |r| == |s|
    ensures forall i :: 0 <= i < |s| && !IsUpper(s[i]) ==> r[i] == s[i]
    ensures forall i :: 0 <= i < |s| && IsUpper(s[i]) ==> r[i] == (s[i] as int + 32) as char
    ensures forall i :: 0 <= i < |r| ==> !IsUpper(r[i])
  {
    seq(|s|, i requires 0 <= i < |s| => LowerChar(s[i]))
  }

  /** `sub` starts at index `i` of `s`. */
  predicate OccursAt(s: string, sub: string, i: int) {
    0 <= i && i + |sub| <= |s| && s[i..i + |sub|] == sub
  }

  /** Python's `sub in s` on strings. */
  predicate Contains(s: string, sub: string) {
    exists i :: 0 <= i <= |s| - |sub| && OccursAt(s, sub, i)
  }

  /** Python's `s.rfind(sub)`: the highest index where `sub` starts, or -1. */
  function RFind(s: string, sub: string): (r: int)
    ensures r == -1 || 0 <= r <= |s| - |sub|
    ensures r >= 0 ==> OccursAt(s, sub, r)
    ensures forall j :: r < j <= |s| - |sub| ==> !OccursAt(s, sub, j)
    decreases |s|
  {
    if |s| < |sub| then -1
    else if s[|s| - |sub|..] == sub then |s| - |sub|
    else
      var r := RFind(s[..|s| - 1], sub);
      assert !OccursAt(s, sub, |s| - |sub|);
      assert forall j :: j + |sub| <= |s| - 1 ==> (OccursAt(s[..|s| - 1], sub, j) <==> OccursAt(s, sub, j));
      r
  }

  /** `rfind` finds `sub` exactly when `sub in s`. */
  lemma RFindFound(s: string, sub: string)
    ensures RFind(s, sub) >= 0 <==> Contains(s, sub)
  {
  }

  /** `rfind` is pinned down by an occurrence that has none after it. */
  lemma RFindIs(s: string, sub: string, k: int)
    requires OccursAt(s, sub, k)
    requires forall j :: k < j <= |s| - |sub| ==> !OccursAt(s, sub, j)
    ensures RFind(s, sub) == k
  {
  }

  /** A one-character pattern occurs where that character stands. */
  lemma OccursAtChar(s: string, c: char, i: int)
    ensures OccursAt(s, [c], i) <==> 0 <= i < |s| && s[i] == c
  {
    if 0 <= i < |s| {
      assert s[i..i + 1] == [s[i]];
    }
  }

  /** `s.rfind(c)` for a one-character pattern: the last index holding `c`, or -1. */
  function RFindChar(s: string, c: char): (r: int)
    ensures -1 <= r < |s|
    ensures r >= 0 ==> s[r] == c
    ensures forall j :: r < j < |s| ==> s[j] != c
  {
    if |s| == 0 then -1
    else if s[|s| - 1] == c then |s| - 1
    else RFindChar(s[..|s| - 1], c)
  }

  /** The character search agrees with the general `rfind` on the one-character string. */
  lemma RFindCharAgrees(s: string, c: char)
    ensures RFindChar(s, c) == RFind(s, [c])
  {
    var r := RFindChar(s, c);
    if r >= 0 {
      OccursAtChar(s, c, r);
    }
    forall j | r < j <= |s| - 1
      ensures !OccursAt(s, [c], j)
    {
      OccursAtChar(s, c, j);
    }
    if r < 0 {
      var k := RFind(s, [c]);
      if k >= 0 {
        OccursAtChar(s, c, k);
      }
    } else {
      RFindIs(s, [c], r);
    }
  }
}
