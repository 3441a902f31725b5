/**
  Circular buffers seen through absolute positions.

  A driver ring of `n` slots is described by a log that only grows: entry `i` of the log
  is stored in slot `At(i, n)`.  `Window` says that a suffix of the log is still intact in
  the ring, and `WindowPush` is the one overwrite argument every ring of the driver needs.
 */
module Circular {

  /** The slot that holds absolute position `i`. */
  function At(i: nat, n: nat): (slot: nat)
    requires n > 0
    ensures slot < n
  {
    i % n
  }

  /** `get_next_index`: the successor of a slot, by comparison rather than by remainder. */
  function Next(index: nat, length: nat): nat {
    if index + 1 == length then 0 else index + 1
  }

  lemma NextIsSuccessor(i: nat, n: nat)
    requires n > 0
    ensures Next(At(i, n), n) == At(i + 1, n)
  {
    DivModStep(i, n);
  }

  // ----- quotients and remainders by a variable divisor -----

  lemma OnlyZeroMultiple(d: int, n: int, r: int)
    requires d * n == r && -n < r < n
    ensures d == 0
  {}

  lemma NotAMultiple(d: int, n: nat, r: int)
    requires 0 < r < n
    ensures d * n != r
  {}

  lemma DivModIs(x: nat, n: nat, q: int, r: nat)
    requires n > 0 && x == q * n + r && r < n
    ensures x / n == q && x % n == r
  {
    OnlyZeroMultiple(x / n - q, n, r - x % n);
  }

  lemma DivModStep(x: nat, n: nat)
    requires n > 0
    ensures x % n == n - 1 ==> (x + 1) % n == 0 && (x + 1) / n == x / n + 1
    ensures x % n != n - 1 ==> (x + 1) % n == x % n + 1 && (x + 1) / n == x / n
  {
    DivModSucc(x, n, x / n, x % n);
  }

  lemma DivModSucc(x: nat, n: nat, q: nat, r: nat)
    requires n > 0 && x == q * n + r && r < n
    ensures r == n - 1 ==> (x + 1) % n == 0 && (x + 1) / n == q + 1
    ensures r != n - 1 ==> (x + 1) % n == r + 1 && (x + 1) / n == q
  {
    if r == n - 1 {
      DivModIs(x + 1, n, q + 1, 0);
    } else {
      DivModIs(x + 1, n, q, r + 1);
    }
  }

  lemma AtPlus(i: nat, k: nat, n: nat)
    requires n > 0
    ensures (At(i, n) + k) % n == At(i + k, n)
  {
    SumRemainder(i, i / n, At(i, n), k, n, (At(i, n) + k) / n, (At(i, n) + k) % n);
  }

  lemma SumRemainder(i: nat, q: nat, r: nat, k: nat, n: nat, q': nat, r': nat)
    requires n > 0 && i == q * n + r && r + k == q' * n + r' && r' < n
    ensures (i + k) % n == r'
  {
    assert i + k == (q + q') * n + r';
    DivModIs(i + k, n, q + q', r');
  }

  /** Two positions less than one turn apart never share a slot. */
  lemma NoCollision(i: nat, j: nat, n: nat)
    requires n > 0 && i < j < i + n
    ensures At(i, n) != At(j, n)
  {
    if At(i, n) == At(j, n) { NotAMultiple(j / n - i / n, n, j - i); }
  }

  lemma SameSlotNextTurn(i: nat, n: nat)
    requires n > 0
    ensures At(i + n, n) == At(i, n)
  {
    DivModIs(i + n, n, i / n + 1, i % n);
  }

  /** Consequently the slot of a position determines it within one turn. */
  lemma SameSlotSamePosition(i: nat, j: nat, n: nat)
    requires n > 0 && i <= j < i + n && At(i, n) == At(j, n)
    ensures i == j
  {
    if i < j { NoCollision(i, j, n); }
  }

  /** The forward distance between two slots, as the room tests compute it. */
  lemma SlotDistance(i: nat, j: nat, n: nat)
    requires n > 0 && i <= j < i + n
    ensures j - i == if At(i, n) <= At(j, n) then At(j, n) - At(i, n) else At(j, n) - At(i, n) + n
  {
    var k := if At(i, n) <= At(j, n) then At(j, n) - At(i, n) else At(j, n) - At(i, n) + n;
    var q := i / n;
    assert i == q * n + At(i, n);
    if At(i, n) <= At(j, n) {
      DivModIs(i + k, n, q, At(j, n));
    } else {
      assert i + k == (q + 1) * n + At(j, n);
      DivModIs(i + k, n, q + 1, At(j, n));
    }
    if i + k < j { NoCollision(i + k, j, n); }
    if j < i + k { NoCollision(j, i + k, n); }
  }

  /** Entries `from` onwards of `log` are intact in `ring`. */
  ghost predicate Window<A>(ring: seq<A>, log: seq<A>, from: nat) {
    && |ring| > 0
    && from <= |log| <= from + |ring|
    && forall i | from <= i < |log| :: ring[At(i, |ring|)] == log[i]
  }

  /** Writing the next entry destroys none of the intact ones while a slot is spare. */
  lemma WindowPush<A>(ring: seq<A>, log: seq<A>, from: nat, x: A)
    requires Window(ring, log, from) && |log| - from < |ring|
    ensures Window(ring[At(|log|, |ring|) := x], log + [x], from)
  {
    var n := |ring|;
    var ring' := ring[At(|log|, n) := x];
    forall i | from <= i < |log| + 1
      ensures ring'[At(i, n)] == (log + [x])[i]
    {
      if i < |log| { NoCollision(i, |log|, n); }
    }
  }
}
