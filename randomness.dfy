/** The random number generator used by the exercises, modelled as
    nondeterminism: a shuffle may leave the list in ANY order that keeps its
    elements. */
module Randomness {

  /** random.shuffle(a): rearranges the list in place into an arbitrary
      permutation of its elements. */
  method Shuffle<T(==)>(a: array<T>)
    modifies a
    ensures multiset(a[..]) == old(multiset(a[..]))
  {
    ghost var before := a[..];
    assert |before| == a.Length && multiset(before) == multiset(a[..]);
    var order :| |order| == a.Length && multiset(order) == multiset(a[..]);
    var i := 0;
    while i < a.Length
      invariant 0 <= i <= a.Length
      invariant a[..i] == order[..i]
      invariant a[i..] == before[i..]
    {
      a[i] := order[i];
      i := i + 1;
    }
    assert a[..] == order;
  }
}
