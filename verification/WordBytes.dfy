/**
  64-bit words and their eight little-endian bytes.

  The memory-agent code shifts words by whole bytes only; each lemma says what one word
  operation does to byte `i` of its result.  The fixed-position facts (`...Bytes`) are
  bit-vector identities; everything else follows from them without bit-vector reasoning.
 */
module WordBytes {

  type byte = b: bv64 | b <= 0xff

  const ONES: bv64 := 0xffff_ffff_ffff_ffff

  /** Byte `i` of a word, the least significant first. */
  function Byte(w: bv64, i: nat): byte {
    match i
    case 0 => w & 0xff
    case 1 => (w >> 8) & 0xff
    case 2 => (w >> 16) & 0xff
    case 3 => (w >> 24) & 0xff
    case 4 => (w >> 32) & 0xff
    case 5 => (w >> 40) & 0xff
    case 6 => (w >> 48) & 0xff
    case 7 => (w >> 56) & 0xff
    case _ => 0
  }

  function And(x: bv64, y: bv64): bv64 { x & y }

  function Or(x: bv64, y: bv64): bv64 { x | y }

  function Not(x: bv64): bv64 { !x }

  function Flip(b: byte): byte { 0xff ^ b }

  function Left(x: bv64): bv64 { x << 8 }

  function Right(x: bv64): bv64 { x >> 8 }

  /** `x << 8k` and `x >> 8k`; a shift by the full width gives zero. */
  function Shl(x: bv64, k: nat): bv64
    decreases k
  {
    if k == 0 then x else Shl(Left(x), k - 1)
  }

  function Shr(x: bv64, k: nat): bv64
    decreases k
  {
    if k == 0 then x else Shr(Right(x), k - 1)
  }

  /** A little-endian load, zero-extended. */
  function LoadLE(d: seq<byte>): bv64 {
    if d == [] then 0 else Or(d[0], Left(LoadLE(d[1..])))
  }

  /** The low `n` bytes of a word, as stored to memory. */
  function StoreLE(w: bv64, n: nat): seq<byte> {
    seq(n, i requires 0 <= i < n => Byte(w, i))
  }

  // ----- fixed positions -----

  lemma BitwiseFirst(x: bv64, y: bv64)
    ensures Byte(Or(x, y), 0) == Or(Byte(x, 0), Byte(y, 0))
    ensures Byte(And(x, y), 0) == And(Byte(x, 0), Byte(y, 0))
  {
    OrLow(x, y);
    AndLow(x, y);
  }

  lemma OrLow(x: bv64, y: bv64)
    ensures (x | y) & 0xff == (x & 0xff) | (y & 0xff)
  {}

  lemma AndLow(x: bv64, y: bv64)
    ensures x & y & 0xff == (x & 0xff) & (y & 0xff)
  {}

  lemma OrRight(x: bv64, y: bv64)
    ensures Right(Or(x, y)) == Or(Right(x), Right(y))
  {}

  lemma AndRight(x: bv64, y: bv64)
    ensures Right(And(x, y)) == And(Right(x), Right(y))
  {}

  lemma {:induction false} BitwiseByte(x: bv64, y: bv64, i: nat)
    requires i < 8
    ensures Byte(Or(x, y), i) == Or(Byte(x, i), Byte(y, i))
    ensures Byte(And(x, y), i) == And(Byte(x, i), Byte(y, i))
    decreases i
  {
    hide *;
    BitwiseFirst(x, y);
    OrRight(x, y);
    AndRight(x, y);
    if i > 0 {
      RightByte(x, i - 1);
      RightByte(y, i - 1);
      RightByte(Or(x, y), i - 1);
      RightByte(And(x, y), i - 1);
      BitwiseByte(Right(x), Right(y), i - 1);
    }
  }

  lemma NotBytes(x: bv64)
    ensures Byte(Not(x), 0) == Flip(Byte(x, 0))
    ensures Byte(Not(x), 1) == Flip(Byte(x, 1))
    ensures Byte(Not(x), 2) == Flip(Byte(x, 2))
    ensures Byte(Not(x), 3) == Flip(Byte(x, 3))
    ensures Byte(Not(x), 4) == Flip(Byte(x, 4))
    ensures Byte(Not(x), 5) == Flip(Byte(x, 5))
    ensures Byte(Not(x), 6) == Flip(Byte(x, 6))
    ensures Byte(Not(x), 7) == Flip(Byte(x, 7))
  {}

  lemma NotByte(x: bv64, i: nat)
    requires i < 8
    ensures Byte(Not(x), i) == Flip(Byte(x, i))
  {
    hide *;
    NotBytes(x);
    if i == 0 {} else if i == 1 {} else if i == 2 {} else if i == 3 {}
    else if i == 4 {} else if i == 5 {} else if i == 6 {} else {}
  }

  lemma LeftBytes(x: bv64)
    ensures Byte(Left(x), 0) == 0
    ensures Byte(Left(x), 1) == Byte(x, 0)
    ensures Byte(Left(x), 2) == Byte(x, 1)
    ensures Byte(Left(x), 3) == Byte(x, 2)
    ensures Byte(Left(x), 4) == Byte(x, 3)
    ensures Byte(Left(x), 5) == Byte(x, 4)
    ensures Byte(Left(x), 6) == Byte(x, 5)
    ensures Byte(Left(x), 7) == Byte(x, 6)
  {}

  lemma LeftByte(x: bv64, i: nat)
    requires i < 8
    ensures Byte(Left(x), i) == if i == 0 then 0 else Byte(x, i - 1)
  {
    hide *;
    LeftBytes(x);
    if i == 0 {} else if i == 1 {} else if i == 2 {} else if i == 3 {}
    else if i == 4 {} else if i == 5 {} else if i == 6 {} else {}
  }

  lemma RightBytes(x: bv64)
    ensures Byte(Right(x), 0) == Byte(x, 1)
    ensures Byte(Right(x), 1) == Byte(x, 2)
    ensures Byte(Right(x), 2) == Byte(x, 3)
    ensures Byte(Right(x), 3) == Byte(x, 4)
    ensures Byte(Right(x), 4) == Byte(x, 5)
    ensures Byte(Right(x), 5) == Byte(x, 6)
    ensures Byte(Right(x), 6) == Byte(x, 7)
    ensures Byte(Right(x), 7) == Byte(x, 8)
  {}

  lemma RightByte(x: bv64, i: nat)
    requires i < 8
    ensures Byte(Right(x), i) == Byte(x, i + 1)
  {
    hide *;
    RightBytes(x);
    if i == 0 {} else if i == 1 {} else if i == 2 {} else if i == 3 {}
    else if i == 4 {} else if i == 5 {} else if i == 6 {} else {}
  }

  lemma ByteAlgebra(b: byte)
    ensures Or(b, 0) == b && Or(0, b) == b && And(b, 0) == 0 && And(b, 0xff) == b
    ensures Flip(0) == 0xff && Flip(0xff) == 0
  {}

  lemma ConstByte(i: nat)
    requires i < 8
    ensures Byte(0, i) == 0 && Byte(ONES, i) == 0xff
  {}

  lemma LowByte(b: byte, i: nat)
    requires i < 8
    ensures Byte(b, i) == if i == 0 then b else 0
  {}

  lemma NoByte(x: bv64, i: nat)
    requires i >= 8
    ensures Byte(x, i) == 0
  {}

  /** A word is its bytes. */
  lemma SameBytesSameWord(x: bv64, y: bv64)
    requires forall i | 0 <= i < 8 :: Byte(x, i) == Byte(y, i)
    ensures x == y
  {
    SameFixedBytes(x, y);
  }

  lemma SameFixedBytes(x: bv64, y: bv64)
    ensures
      && Byte(x, 0) == Byte(y, 0) && Byte(x, 1) == Byte(y, 1) && Byte(x, 2) == Byte(y, 2) && Byte(x, 3) == Byte(y, 3)
      && Byte(x, 4) == Byte(y, 4) && Byte(x, 5) == Byte(y, 5) && Byte(x, 6) == Byte(y, 6) && Byte(x, 7) == Byte(y, 7)
      ==> x == y
  {}

  // ----- any position -----

  lemma {:induction false} ShlByte(x: bv64, k: nat, i: nat)
    requires i < 8
    ensures Byte(Shl(x, k), i) == if i < k then 0 else Byte(x, i - k)
    decreases k
  {
    hide Byte, Left;
    if k > 0 {
      ShlByte(Left(x), k - 1, i);
      if i >= k - 1 { LeftByte(x, i - (k - 1)); }
    }
  }

  lemma {:induction false} ShrByte(x: bv64, k: nat, i: nat)
    requires i < 8
    ensures Byte(Shr(x, k), i) == Byte(x, i + k)
    decreases k
  {
    hide Byte, Right;
    if k > 0 {
      ShrByte(Right(x), k - 1, i);
      if i + k - 1 < 8 {
        RightByte(x, i + k - 1);
      } else {
        NoByte(Right(x), i + k - 1);
        NoByte(x, i + k);
      }
    }
  }

  lemma {:induction false} LoadByte(d: seq<byte>, i: nat)
    requires |d| <= 8 && i < 8
    ensures Byte(LoadLE(d), i) == if i < |d| then d[i] else 0
  {
    hide Byte, Or, Left;
    if d == [] {
      ConstByte(i);
    } else {
      ConsByte(d[0], LoadLE(d[1..]), i);
      if i > 0 {
        LoadByte(d[1..], i - 1);
      }
    }
  }

  lemma ConsByte(b: byte, rest: bv64, i: nat)
    requires i < 8
    ensures Byte(Or(b, Left(rest)), i) == if i == 0 then b else Byte(rest, i - 1)
  {
    hide *;
    BitwiseByte(b, Left(rest), i);
    LeftByte(rest, i);
    LowByte(b, i);
    ByteAlgebra(b);
    if i > 0 { ByteAlgebra(Byte(rest, i - 1)); }
  }

  /** `s` bytes of ones. */
  function LowMask(s: nat): bv64 {
    Not(Shl(ONES, s))
  }

  lemma LowMaskByte(s: nat, i: nat)
    requires i < 8
    ensures Byte(LowMask(s), i) == if i < s then 0xff else 0
  {
    hide Byte, Shl, Not, Flip;
    NotByte(Shl(ONES, s), i);
    ShlByte(ONES, s, i);
    ByteAlgebra(0);
    if i >= s { ConstByte(i - s); }
  }
}
