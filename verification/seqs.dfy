/** Small facts about sequences shared by the rest of the model. */
module Seqs {

  /** No element occurs twice. */
  predicate NoDup<T(==)>(s: seq<T>) {
    forall i, j :: 0 <= i < j < |s| ==> s[i] != s[j]
  }

  /** Position of the first occurrence of `x` in `s`. */
  function IndexOf<T(==)>(s: seq<T>, x: T): (i: nat)
    requires x in s
    ensures i < |s| && s[i] == x
    ensures x !in s[..i]
  {
    if s[0] == x then 0
    else
      var k := IndexOf(s[1..], x);
      assert s[1..][..k] == s[1..k + 1];
      1 + k
  }

  /** The first occurrence is the only position that holds `x` with no earlier copy. */
  lemma IndexOfUnique<T>(s: seq<T>, x: T, k: nat)
    requires k < |s| && s[k] == x && x !in s[..k]
    ensures IndexOf(s, x) == k
  {
  }

  /** Appending to a sequence does not move the first occurrence of what it already holds. */
  lemma IndexOfAppend<T>(s: seq<T>, t: T, x: T)
    requires x in s
    ensures IndexOf(s + [t], x) == IndexOf(s, x)
  {
    var k := IndexOf(s, x);
    assert (s + [t])[..k] == s[..k];
    IndexOfUnique(s + [t], x, k);
  }

  /** In a sequence without duplicates, an element's position is its index. */
  lemma IndexOfNoDup<T>(s: seq<T>, c: nat)
    requires NoDup(s) && c < |s|
    ensures IndexOf(s, s[c]) == c
  {
    IndexOfUnique(s, s[c], c);
  }
}
