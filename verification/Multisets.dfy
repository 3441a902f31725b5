/**
  Moving elements between multisets whose sum is conserved.
 */
module Multisets {

  lemma AddBoth<T>(x: multiset<T>, y: multiset<T>, p: multiset<T>, q: multiset<T>, z: multiset<T>)
    requires x + p == y + q
    ensures (x + z) + p == (y + z) + q
  {
    forall e
      ensures ((x + z) + p)[e] == ((y + z) + q)[e]
    {
      assert (x + p)[e] == (y + q)[e];
    }
  }

  lemma Cancel<T>(before: multiset<T>, after: multiset<T>, big: multiset<T>, small: multiset<T>, x: multiset<T>)
    requires after + big == before + small && big == small + x
    ensures before == after + x
  {
    forall e
      ensures before[e] == (after + x)[e]
    {
      assert (after + big)[e] == (before + small)[e] && big[e] == (small + x)[e];
    }
  }

  /** Replacing the part `o` of `h` by `o'`, while the rest changes by the opposite. */
  lemma Exchange<T>(h: multiset<T>, h': multiset<T>, o: multiset<T>, o': multiset<T>, rest: multiset<T>, rest': multiset<T>)
    requires h' + o == h + o' && o + rest == o' + rest'
    ensures h + rest == h' + rest'
  {
    forall e
      ensures (h + rest)[e] == (h' + rest')[e]
    {
      assert (h' + o)[e] == (h + o')[e] && (o + rest)[e] == (o' + rest')[e];
    }
  }
}
