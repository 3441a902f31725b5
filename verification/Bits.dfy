/**
  Bitwise and of unsigned values, and what a power-of-two mask does.
 */
module Bits {

  /** C's `x & y`. */
  function BitAnd(x: nat, y: nat): (r: nat)
    ensures r <= y
  {
    if x == 0 || y == 0 then 0 else 2 * BitAnd(x / 2, y / 2) + (if x % 2 == 1 && y % 2 == 1 then 1 else 0)
  }

  predicate IsPow2(n: nat) { n == 1 || (n > 1 && n % 2 == 0 && IsPow2(n / 2)) }

  /** Masking with one less than a power of two is taking the remainder. */
  lemma {:induction false} MaskIsRemainder(x: nat, n: nat)
    requires IsPow2(n)
    ensures BitAnd(x, n - 1) == x % n
  {
    if n > 1 {
      MaskIsRemainder(x / 2, n / 2);
      assert (n - 1) / 2 == n / 2 - 1;
      HalfRemainder(x, n / 2);
    }
  }

  lemma HalfRemainder(x: nat, h: nat)
    requires h > 0
    ensures x % (2 * h) == 2 * (x / 2 % h) + x % 2
  {
    var y := x / 2;
    var q, r := y / h, y % h;
    assert x == 2 * y + x % 2 && y == q * h + r;
    assert 2 * (q * h) == q * (2 * h);
    RemainderIs(x, 2 * h, q, 2 * r + x % 2);
  }

  lemma RemainderIs(x: nat, n: nat, q: nat, r: nat)
    requires n > 0 && x == q * n + r && r < n
    ensures x % n == r
  {
    ZeroMultiple(x / n - q, n, r - x % n);
  }

  lemma ZeroMultiple(d: int, n: int, r: int)
    requires d * n == r && -n < r < n
    ensures d == 0
  {}

  /** `(producer - 1) & (size - 1)` in 32-bit arithmetic. */
  function MaskedPredecessor(producer: nat, size: nat): nat
    requires size > 0
  {
    BitAnd((producer + 0xffff_ffff) % 0x1_0000_0000, size - 1)
  }

  /**
    The mask names the slot before the producer, for every producer, exactly when the ring
    size is a power of two.
   */
  lemma PredecessorExactlyForPow2(size: nat)
    requires 0 < size <= 0x8000_0000
    ensures (forall p | 0 <= p < size :: MaskedPredecessor(p, size) == if p == 0 then size - 1 else p - 1)
            <==> IsPow2(size)
  {
    if IsPow2(size) {
      forall p | 0 <= p < size ensures MaskedPredecessor(p, size) == if p == 0 then size - 1 else p - 1 {
        PredecessorForPow2(p, size);
      }
    } else if forall p | 0 <= p < size :: MaskedPredecessor(p, size) == if p == 0 then size - 1 else p - 1 {
      forall x | 0 <= x <= size - 2 ensures SubMask(x, size) {
        assert MaskedPredecessor(x + 1, size) == x;
      }
      SubMasksMeanPow2(size);
    }
  }

  predicate SubMask(x: nat, n: nat)
    requires n > 0
  {
    BitAnd(x, n - 1) == x
  }

  lemma PredecessorForPow2(p: nat, size: nat)
    requires 0 < size <= 0x8000_0000 && IsPow2(size) && p < size
    ensures MaskedPredecessor(p, size) == if p == 0 then size - 1 else p - 1
  {
    hide BitAnd, IsPow2, Power;
    if p == 0 {
      MaskIsRemainder(0xffff_ffff, size);
      Power32();
      AllOnes(size, 32, 0x1_0000_0000);
    } else {
      MaskIsRemainder(p - 1, size);
      RemainderIs(p - 1, size, 0, p - 1);
    }
  }

  /** The all-ones word leaves remainder `n - 1`. */
  lemma {:induction false} AllOnes(n: nat, bits: nat, top: nat)
    requires IsPow2(n) && n <= top && top == Power(bits)
    ensures (top - 1) % n == n - 1
  {
    if n > 1 {
      assert bits > 0 && top == 2 * Power(bits - 1);
      AllOnes(n / 2, bits - 1, top / 2);
      HalfRemainder(top - 1, n / 2);
      assert (top - 1) / 2 == top / 2 - 1;
    }
  }

  function Power(bits: nat): nat { if bits == 0 then 1 else 2 * Power(bits - 1) }

  lemma Power32()
    ensures Power(32) == 0x1_0000_0000
  {
    Power8(0);
    Power8(8);
    Power8(16);
    Power8(24);
  }

  lemma Power8(k: nat)
    ensures Power(k + 8) == 0x100 * Power(k)
  {
    assert Power(k + 2) == 4 * Power(k);
    assert Power(k + 4) == 4 * Power(k + 2);
    assert Power(k + 6) == 4 * Power(k + 4);
  }

  lemma {:induction false} SubMasksMeanPow2(n: nat)
    requires n > 0 && forall x | 0 <= x <= n - 2 :: SubMask(x, n)
    ensures IsPow2(n)
  {
    hide SubMask;
    if n > 1 {
      assert n >= 3 ==> SubMask(1, n);
      if n % 2 == 1 { OddSizeMisses(n); }
      forall y | 0 <= y <= n / 2 - 2 ensures SubMask(y, n / 2) {
        assert SubMask(2 * y, n);
        HalfSubMask(y, n);
      }
      SubMasksMeanPow2(n / 2);
    }
  }

  lemma OddSizeMisses(n: nat)
    requires n >= 3 && n % 2 == 1
    ensures !SubMask(1, n)
  {}

  lemma HalfSubMask(y: nat, n: nat)
    requires n > 1 && n % 2 == 0 && SubMask(2 * y, n)
    ensures SubMask(y, n / 2)
  {
    assert (n - 1) / 2 == n / 2 - 1;
  }
}
