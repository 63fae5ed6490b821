/** The "rare letters" both generators count to judge how interesting a puzzle is. */
module RareLetters {

  const RARE: string := "PGBVHFQYXJKWZ"

  predicate IsRare(c: char)
  {
    c in RARE
  }

  /** Number of elements of `s` that lie in `RARE` (a `filter(...).length`). */
  function CountRare(s: string): (r: nat)
    ensures r <= |s|
  {
    if s == [] then 0 else (if IsRare(s[0]) then 1 else 0) + CountRare(s[1..])
  }

  /** The count is additive over concatenation. */
  lemma {:induction false} CountRareAppend(a: string, b: string)
    ensures CountRare(a + b) == CountRare(a) + CountRare(b)
  {
    if a == [] {
      assert a + b == b;
    } else {
      assert (a + b)[1..] == a[1..] + b;
      CountRareAppend(a[1..], b);
    }
  }

  /** The count is zero exactly when no element is rare, and it is the length exactly
      when every element is rare. */
  lemma {:induction false} CountRareExtremes(s: string)
    ensures CountRare(s) == 0 <==> forall i :: 0 <= i < |s| ==> !IsRare(s[i])
    ensures CountRare(s) == |s| <==> forall i :: 0 <= i < |s| ==> IsRare(s[i])
  {
    if s != [] {
      CountRareExtremes(s[1..]);
      assert forall i :: 1 <= i < |s| ==> s[i] == s[1..][i - 1];
    }
  }
}
