/** Python's `in` operator on two strings. */
module Strings {

  /** `p` occurs in `s` starting at offset `i`. */
  predicate OccursAt(p: string, s: string, i: int) {
    0 <= i && i + |p| <= |s| && s[i..i + |p|] == p
  }

  /** `p in s` for Python strings: test each start offset of `s` in turn. */
  predicate IsSubstring(p: string, s: string)
    decreases |s|
  {
    if p <= s then true
    else if |s| == 0 then false
    else IsSubstring(p, s[1..])
  }

  /** The scan agrees with the offset definition, in both directions. */
  lemma {:induction false} IsSubstringCorrect(p: string, s: string)
    ensures IsSubstring(p, s) <==> exists i :: OccursAt(p, s, i)
    decreases |s|
  {
    if p <= s {
      assert OccursAt(p, s, 0);
    } else if |s| == 0 {
    } else {
      IsSubstringCorrect(p, s[1..]);
      if exists j :: OccursAt(p, s[1..], j) {
        var j :| OccursAt(p, s[1..], j);
        assert s[j + 1..j + 1 + |p|] == s[1..][j..j + |p|];
        assert OccursAt(p, s, j + 1);
      }
      if exists i :: OccursAt(p, s, i) {
        var i :| OccursAt(p, s, i);
        assert s[1..][i - 1..i - 1 + |p|] == s[i..i + |p|];
        assert OccursAt(p, s[1..], i - 1);
      }
    }
  }

  /** A string occurs in every string that contains it at some offset. */
  lemma IsSubstringAt(p: string, s: string, i: int)
    requires OccursAt(p, s, i)
    ensures IsSubstring(p, s)
  {
    IsSubstringCorrect(p, s);
  }

  /** Nothing longer than `s` occurs in `s`. */
  lemma LongerIsNotSubstring(p: string, s: string)
    requires |p| > |s|
    ensures !IsSubstring(p, s)
  {
    IsSubstringCorrect(p, s);
  }
}
