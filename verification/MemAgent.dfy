/**
  Reading and writing card memory at byte granularity through the MIU test agent, which only
  moves aligned 64-bit words (unm_nic_hw.c).  Offsets are below 2^32, so masking the offset
  with 0xfffffff8 clears its low three bits.
 */
module MemAgent {
  import opened WordBytes

  /** Card memory as a program sees it: the words' bytes, one after another. */
  ghost function Bytes(words: seq<bv64>): (m: seq<byte>)
    ensures |m| == 8 * |words|
  {
    seq(8 * |words|, a requires 0 <= a < 8 * |words| => Byte(words[a / 8], a % 8))
  }

  /** Plain byte memory: the specification of a write. */
  ghost function Poke(m: seq<byte>, off: nat, data: seq<byte>): (m': seq<byte>)
    requires off + |data| <= |m|
    ensures |m'| == |m|
  {
    m[..off] + data + m[off + |data|..]
  }

  /** The 32-bit halves the agent's data registers carry. */
  function Low(w: bv64): bv32 { (w & 0xffff_ffff) as bv32 }

  function High(w: bv64): bv32 { ((w >> 32) & 0xffff_ffff) as bv32 }

  /** `w | half << 32k`. */
  function OrHalf(w: bv64, half: bv32, k: nat): bv64 { Or(w, Shl(half as bv64, 4 * k)) }

  function Join(lo: bv32, hi: bv32): bv64 { OrHalf(OrHalf(0, lo, 0), hi, 1) }

  // ----- the word arithmetic of the two routines -----

  function AndOr(w: bv64, mask: bv64, v: bv64): bv64 { Or(And(w, mask), v) }

  /** First word of a write: `size0` bytes from `off0` cleared, then the data or-ed in. */
  function Merge0(w: bv64, v: bv64, off0: nat, size0: nat): bv64 {
    AndOr(w, Not(Shl(LowMask(size0), off0)), Shl(v, off0))
  }

  /** Second word of a write.  The mask here keeps the low bytes and clears the others. */
  function Merge1(w: bv64, v: bv64, size0: nat, size1: nat): bv64 {
    AndOr(w, LowMask(size1), Shr(v, size0))
  }

  /** Value of a read: `size0` bytes from `off0` of the first word, then `size1` of the second. */
  function Extract(w0: bv64, w1: bv64, off0: nat, size0: nat, size1: nat): bv64 {
    if size0 == 8 then w0
    else AndOr(Shr(w0, off0), LowMask(size0), Shl(AndOr(w1, LowMask(size1), 0), size0))
  }

  lemma AndOrByte(w: bv64, mask: bv64, v: bv64, i: nat)
    requires i < 8
    ensures Byte(mask, i) == 0xff && Byte(v, i) == 0 ==> Byte(AndOr(w, mask, v), i) == Byte(w, i)
    ensures Byte(mask, i) == 0xff ==> Byte(AndOr(w, mask, v), i) == Or(Byte(w, i), Byte(v, i))
    ensures Byte(mask, i) == 0 ==> Byte(AndOr(w, mask, v), i) == Byte(v, i)
  {
    hide Byte, Or, And;
    BitwiseByte(And(w, mask), v, i);
    BitwiseByte(w, mask, i);
    ByteAlgebra(Byte(w, i));
    ByteAlgebra(Byte(v, i));
  }

  lemma HoleByte(size0: nat, off0: nat, i: nat)
    requires off0 + size0 <= 8 && i < 8
    ensures Byte(Not(Shl(LowMask(size0), off0)), i) == if off0 <= i < off0 + size0 then 0 else 0xff
  {
    hide Byte, Shl, LowMask, Not, Flip;
    ByteAlgebra(0);
    NotByte(Shl(LowMask(size0), off0), i);
    ShlByte(LowMask(size0), off0, i);
    if off0 <= i { LowMaskByte(size0, i - off0); }
  }

  lemma Merge0Byte(w: bv64, data: seq<byte>, off0: nat, size0: nat, i: nat)
    requires off0 + size0 <= 8 && i < 8 && size0 <= |data| <= 8
    requires size0 < |data| ==> off0 + size0 == 8
    ensures Byte(Merge0(w, LoadLE(data), off0, size0), i) ==
            if off0 <= i < off0 + size0 then data[i - off0] else Byte(w, i)
  {
    hide Byte, Shl, LowMask, LoadLE, AndOr, Not;
    var v := Shl(LoadLE(data), off0);
    HoleByte(size0, off0, i);
    ShlByte(LoadLE(data), off0, i);
    if off0 <= i { LoadByte(data, i - off0); }
    AndOrByte(w, Not(Shl(LowMask(size0), off0)), v, i);
  }

  lemma Merge1Byte(w: bv64, data: seq<byte>, size0: nat, size1: nat, i: nat)
    requires size0 + size1 == |data| <= 8 && i < 8
    ensures Byte(Merge1(w, LoadLE(data), size0, size1), i) ==
            if i < size1 then Or(Byte(w, i), data[size0 + i]) else 0
  {
    hide Byte, Shr, LowMask, LoadLE, AndOr, Or;
    var v := Shr(LoadLE(data), size0);
    LowMaskByte(size1, i);
    ShrByte(LoadLE(data), size0, i);
    if size0 + i < 8 { LoadByte(data, size0 + i); } else { NoByte(LoadLE(data), size0 + i); }
    AndOrByte(w, LowMask(size1), v, i);
  }

  lemma ExtractByte(w0: bv64, w1: bv64, off0: nat, size0: nat, size1: nat, i: nat)
    requires off0 + size0 <= 8 && size0 + size1 <= 8 && i < size0 + size1
    ensures Byte(Extract(w0, w1, off0, size0, size1), i) ==
            if i < size0 then Byte(w0, off0 + i) else Byte(w1, i - size0)
  {
    hide Byte, Shl, Shr, LowMask, AndOr;
    if size0 < 8 {
      var tail := AndOr(w1, LowMask(size1), 0);
      LowMaskByte(size0, i);
      ShrByte(w0, off0, i);
      ShlByte(tail, size0, i);
      AndOrByte(Shr(w0, off0), LowMask(size0), Shl(tail, size0), i);
      if i >= size0 {
        LowMaskByte(size1, i - size0);
        ConstByte(i - size0);
        AndOrByte(w1, LowMask(size1), 0, i - size0);
      }
    }
  }

  lemma OrHalfByte(w: bv64, half: bv32, k: nat, i: nat)
    requires k <= 1 && i < 8
    ensures 4 * k <= i < 4 * k + 4 && Byte(w, i) == 0 ==> Byte(OrHalf(w, half, k), i) == Byte(half as bv64, i - 4 * k)
    ensures !(4 * k <= i < 4 * k + 4) ==> Byte(OrHalf(w, half, k), i) == Byte(w, i)
  {
    hide Byte, Or, Shl;
    BitwiseByte(w, Shl(half as bv64, 4 * k), i);
    ShlByte(half as bv64, 4 * k, i);
    ByteAlgebra(Byte(w, i));
    HalfIsShort(half);
    if i >= 4 * k { ByteAlgebra(Byte(half as bv64, i - 4 * k)); }
  }

  lemma HalfIsShort(half: bv32)
    ensures var h := half as bv64; Byte(h, 4) == 0 && Byte(h, 5) == 0 && Byte(h, 6) == 0 && Byte(h, 7) == 0
  {}

  lemma JoinByte(lo: bv32, hi: bv32, i: nat)
    requires i < 8
    ensures Byte(Join(lo, hi), i) == if i < 4 then Byte(lo as bv64, i) else Byte(hi as bv64, i - 4)
  {
    hide Byte, OrHalf;
    ConstByte(i);
    OrHalfByte(0, lo, 0, i);
    OrHalfByte(OrHalf(0, lo, 0), hi, 1, i);
  }

  lemma JoinHalves(w: bv64)
    ensures Join(Low(w), High(w)) == w
  {}

  // ----- what the routines do to byte memory -----

  function InFirst(off: nat, size: nat): nat { if size < 8 - off % 8 then size else 8 - off % 8 }

  predicate Spans(off: nat, size: nat) { off % 8 + size > 8 }

  /**
    The write routine's effect, byte by byte.  Within one word it is a plain write.  When it
    reaches into a second word, the bytes there are or-ed with the old ones and the rest of
    that word is cleared.
   */
  ghost function AgentPoke(m: seq<byte>, off: nat, data: seq<byte>): (m': seq<byte>)
    requires off + |data| <= |m| && |m| % 8 == 0 && |data| <= 8
    ensures |m'| == |m|
  {
    seq(|m|, a requires 0 <= a < |m| => PokedByte(m, off, data, a))
  }

  ghost function PokedByte(m: seq<byte>, off: nat, data: seq<byte>, a: nat): byte
    requires off + |data| <= |m| && a < |m|
  {
    var second := off - off % 8 + 8;
    if off <= a < off + |data| && a < second then data[a - off]
    else if !Spans(off, |data|) || a < second || a >= second + 8 then m[a]
    else if a < off + |data| then OrBytes(m[a], data[a - off])
    else 0
  }

  function OrBytes(x: byte, y: byte): byte { Or(x, y) }

  /**
    When the write is a plain write: exactly if it stays within one word, or the old second
    word already has nothing to clear above the data and nothing to keep below it.
   */
  lemma PlainWriteExactlyWhen(m: seq<byte>, off: nat, data: seq<byte>)
    requires off + |data| <= |m| && |m| % 8 == 0 && |data| <= 8
    ensures AgentPoke(m, off, data) == Poke(m, off, data) <==>
            !Spans(off, |data|) ||
            (var second := off - off % 8 + 8;
             && (forall a | second <= a < off + |data| :: OrBytes(m[a], data[a - off]) == data[a - off])
             && (forall a | off + |data| <= a < second + 8 :: m[a] == 0))
  {
    hide Or;
    var second := off - off % 8 + 8;
    var p, q := AgentPoke(m, off, data), Poke(m, off, data);
    if p == q && Spans(off, |data|) {
      forall a | second <= a < off + |data| ensures OrBytes(m[a], data[a - off]) == data[a - off] {
        assert p[a] == q[a];
      }
      forall a | off + |data| <= a < second + 8 ensures m[a] == 0 {
        assert p[a] == q[a];
      }
    }
  }

  /**
    For given offset and size the write is a plain write on every memory and data exactly
    when it does not span two words.
   */
  lemma PlainWriteGuard(off: nat, size: nat, words: nat)
    requires off + size <= 8 * words && size <= 8
    ensures (forall m: seq<byte>, data: seq<byte> | |m| == 8 * words && |data| == size ::
               AgentPoke(m, off, data) == Poke(m, off, data))
            <==> !Spans(off, size)
  {
    if Spans(off, size) {
      SpanningWriteDamages(seq(8 * words, _ => 1), off, seq(size, _ => 1));
    } else {
      forall m: seq<byte>, data: seq<byte> | |m| == 8 * words && |data| == size
        ensures AgentPoke(m, off, data) == Poke(m, off, data)
      {
        PlainWriteExactlyWhen(m, off, data);
      }
    }
  }

  /** The counterexample: a non-zero byte just behind a spanning write is lost. */
  lemma SpanningWriteDamages(m: seq<byte>, off: nat, data: seq<byte>)
    requires off + |data| <= |m| && |m| % 8 == 0 && |data| <= 8 && Spans(off, |data|)
    requires m[off + |data|] != 0
    ensures AgentPoke(m, off, data) != Poke(m, off, data)
    ensures AgentPoke(m, off, data)[off + |data|] == 0 != Poke(m, off, data)[off + |data|]
  {
  }

  /** Reading back what was written, and elsewhere what was there. */
  lemma ReadAfterWrite(m: seq<byte>, off: nat, data: seq<byte>, off': nat, size': nat)
    requires off + |data| <= |m| && |m| % 8 == 0 && |data| <= 8 && !Spans(off, |data|) && off' + size' <= |m|
    ensures AgentPoke(m, off, data)[off..off + |data|] == data
    ensures off' + size' <= off || off + |data| <= off' ==>
            AgentPoke(m, off, data)[off'..off' + size'] == m[off'..off' + size']
  {
    PlainWriteExactlyWhen(m, off, data);
  }

  // ----- the routines -----

  /** The wanted bytes of `w` have been fetched into `v`. */
  ghost predicate Fetched(v: bv64, w: bv64, from: nat, size: nat) {
    forall b | from <= b < from + size && b < 8 :: Byte(v, b) == Byte(w, b)
  }

  lemma ByteAt(mem: seq<bv64>, at: nat, b: nat)
    requires at < |mem| && b < 8
    ensures Bytes(mem)[8 * at + b] == Byte(mem[at], b)
  {}

  lemma ReadValue(mem: seq<bv64>, off: nat, size: nat, w0: bv64, w1: bv64)
    requires off + size <= 8 * |mem| && 0 < size <= 8
    requires Fetched(w0, mem[off / 8], off % 8, InFirst(off, size))
    requires Spans(off, size) ==> Fetched(w1, mem[off / 8 + 1], 0, size - InFirst(off, size))
    ensures StoreLE(Extract(w0, w1, off % 8, InFirst(off, size), size - InFirst(off, size)), size)
            == Bytes(mem)[off..off + size]
  {
    hide Byte, Extract, Bytes;
    var s0 := InFirst(off, size);
    var v := Extract(w0, w1, off % 8, s0, size - s0);
    forall b | 0 <= b < size
      ensures Byte(v, b) == Bytes(mem)[off + b]
    {
      ExtractByte(w0, w1, off % 8, s0, size - s0, b);
      assert off == 8 * (off / 8) + off % 8;
      if b < s0 {
        ByteAt(mem, off / 8, off % 8 + b);
      } else {
        ByteAt(mem, off / 8 + 1, b - s0);
      }
    }
  }

  predicate LegalSize(size: nat) { size == 1 || size == 2 || size == 4 || size == 8 }

  /** The adapter's view of the agent: its registers, and the memory behind it. */
  class MemoryAgent {
    /** Card memory in aligned words. */
    var words: array<bv64>
    /** MIU_TEST_AGT_ADDR_LO, WRDATA_LO/HI and RDDATA(0)/RDDATA(1). */
    var addrLo: nat
    var wrLo: bv32
    var wrHi: bv32
    var rdLo: bv32
    var rdHi: bv32
    /** Whether the agent always leaves BUSY within MAX_CTL_CHECK polls. */
    const responsive: bool

    ghost predicate InRange(off: nat, size: nat)
      reads this
    {
      LegalSize(size) && off + size <= 8 * words.Length
    }

    constructor (memory: array<bv64>, responsive: bool)
      ensures words == memory && this.responsive == responsive
    {
      words, this.responsive := memory, responsive;
      addrLo, wrLo, wrHi, rdLo, rdHi := 0, 0, 0, 0, 0;
    }

    /**
      Write CTRL with START and poll.  False when the poll limit is hit; the agent may or may
      not have carried out the command then.
     */
    method Start(write: bool) returns (idle: bool)
      requires addrLo % 8 == 0 && addrLo / 8 < words.Length
      modifies this`rdLo, this`rdHi, words
      ensures responsive ==> idle
      ensures !write ==> words[..] == old(words[..])
      ensures !write && idle ==> rdLo == Low(words[addrLo / 8]) && rdHi == High(words[addrLo / 8])
      ensures write ==>
        words[..] == old(words[..])[addrLo / 8 := Join(wrLo, wrHi)] || (!idle && words[..] == old(words[..]))
    {
      hide Low, High, Join;
      idle := *;
      var done: bool := *;
      idle := idle || responsive;
      if idle || done {
        if write {
          words[addrLo / 8] := Join(wrLo, wrHi);
        } else {
          rdLo, rdHi := Low(words[addrLo / 8]), High(words[addrLo / 8]);
        }
      }
    }

    /** unm_nic_pci_mem_read_2M: 0 and the bytes, or -1 when the agent hangs. */
    method Read(off: nat, size: nat) returns (rv: int, data: seq<byte>)
      requires InRange(off, size)
      modifies this`addrLo, this`rdLo, this`rdHi, words
      ensures words[..] == old(words[..])
      ensures rv == 0 || rv == -1
      ensures responsive ==> rv == 0
      ensures rv == 0 ==> data == Bytes(words[..])[off..off + size]
    {
      hide Byte, Low, High, Join, Extract, Bytes, StoreLE;
      var off8 := off - off % 8;
      var off0 := [off % 8, 0];
      var sz := [InFirst(off, size), size - InFirst(off, size)];
      var loop := (off % 8 + size - 1) / 8 + 1;
      var word := [0, 0];
      ghost var mem := words[..];
      var i := 0;
      while i < loop
        invariant 0 <= i <= loop <= 2 && |word| == 2
        invariant words[..] == mem
        invariant i > 0 ==> Fetched(word[0], mem[off / 8], off0[0], sz[0])
        invariant i > 1 ==> Fetched(word[1], mem[off / 8 + 1], off0[1], sz[1])
        modifies this`addrLo, this`rdLo, this`rdHi, words
      {
        addrLo := off8 + 8 * i;
        var idle := Start(false);
        if !idle {
          return -1, [];
        }
        assert addrLo / 8 == off / 8 + i;
        JoinHalves(mem[off / 8 + i]);
        var fetched := Fetch(off0[i] / 4, (off0[i] + sz[i] - 1) / 4);
        assert Fetched(fetched, mem[off / 8 + i], off0[i], sz[i]);
        word := word[i := fetched];
        i := i + 1;
      }
      ReadValue(mem, off, size, word[0], word[1]);
      return 0, StoreLE(Extract(word[0], word[1], off0[0], sz[0], sz[1]), size);
    }

    /** The inner loop of the read: only the needed 32-bit halves are fetched. */
    method Fetch(start: nat, end: nat) returns (w: bv64)
      requires start <= end <= 1
      ensures forall b | 4 * start <= b < 4 * end + 4 :: Byte(w, b) == Byte(Join(rdLo, rdHi), b)
    {
      hide Byte, Join;
      w := 0;
      var k := start;
      forall b | 0 <= b < 8 ensures Byte(w, b) == 0 { ConstByte(b); }
      while k <= end
        invariant start <= k <= end + 1
        invariant forall b | 4 * start <= b < 4 * k :: Byte(w, b) == Byte(Join(rdLo, rdHi), b)
        invariant forall b | 4 * k <= b < 8 :: Byte(w, b) == 0
      {
        var half := if k == 0 then rdLo else rdHi;
        forall b | 0 <= b < 8
          ensures 4 * k <= b < 4 * k + 4 ==> Byte(OrHalf(w, half, k), b) == Byte(Join(rdLo, rdHi), b)
          ensures !(4 * k <= b < 4 * k + 4) ==> Byte(OrHalf(w, half, k), b) == Byte(w, b)
        {
          OrHalfByte(w, half, k, b);
          JoinByte(rdLo, rdHi, b);
        }
        w := OrHalf(w, half, k);
        k := k + 1;
      }
    }

    /** The read-back of the words a write only changes in part. */
    method ReadWords(off8: nat, loop: nat) returns (rv: int, word: seq<bv64>)
      requires off8 % 8 == 0 && 1 <= loop <= 2 && off8 / 8 + loop <= words.Length
      modifies this`addrLo, this`rdLo, this`rdHi, words
      ensures words[..] == old(words[..]) && |word| == 2
      ensures rv == 0 || rv == -1
      ensures responsive ==> rv == 0
      ensures rv == 0 ==> word[0] == words[off8 / 8] && (loop == 2 ==> word[1] == words[off8 / 8 + 1])
    {
      hide Byte, Bytes;
      word := [0, 0];
      ghost var mem := words[..];
      var i := 0;
      while i < loop
        invariant 0 <= i <= loop && |word| == 2
        invariant words[..] == mem
        invariant forall j | 0 <= j < i :: word[j] == mem[off8 / 8 + j]
        modifies this`addrLo, this`rdLo, this`rdHi, words
      {
        var rv0, d := Read(off8 + 8 * i, 8);
        if rv0 != 0 {
          return -1, word;
        }
        WholeWord(mem, off8 / 8 + i, d);
        word := word[i := LoadLE(d)];
        i := i + 1;
      }
      rv := 0;
    }

    /**
      unm_nic_pci_mem_write_2M: 0, and the memory is `AgentPoke` of what it was; or -1 when
      the agent hangs, and every byte is either as it was or as the write would leave it.
     */
    method Write(off: nat, data: seq<byte>) returns (rv: int)
      requires InRange(off, |data|)
      modifies this, words
      ensures words == old(words)
      ensures rv == 0 || rv == -1
      ensures responsive ==> rv == 0
      ensures rv == 0 ==> Bytes(words[..]) == AgentPoke(Bytes(old(words[..])), off, data)
      ensures rv == -1 ==> forall a | 0 <= a < 8 * words.Length ::
        || Bytes(words[..])[a] == Bytes(old(words[..]))[a]
        || Bytes(words[..])[a] == AgentPoke(Bytes(old(words[..])), off, data)[a]
    {
      hide Byte, Low, High, Join, Merge0, Merge1, Bytes, AgentPoke;
      var size := |data|;
      var off8, off0 := off - off % 8, off % 8;
      var sz0 := InFirst(off, size);
      var sz1 := size - sz0;
      var loop := (off0 + size - 1) / 8 + 1;
      var word := [0, 0];
      ghost var mem := words[..];
      if size != 8 || off0 != 0 {
        var rv0;
        rv0, word := ReadWords(off8, loop);
        if rv0 != 0 {
          return -1;
        }
      }
      var tmpw := LoadLE(data);
      MergeFirst(mem, off, data, word[0]);
      word := word[0 := Merge0(word[0], tmpw, off0, sz0)];
      if loop == 2 {
        MergeSecond(mem, off, data);
        word := word[1 := Merge1(word[1], tmpw, sz0, sz1)];
      }
      ghost var stored;
      rv, stored := StoreWords(off8, word, loop);
      StoredBytes(mem, off, data, word, stored);
    }

    /** The last loop of the write: hand the merged words to the agent, one after the other. */
    method StoreWords(off8: nat, word: seq<bv64>, loop: nat) returns (rv: int, ghost stored: nat)
      requires off8 % 8 == 0 && 1 <= loop <= 2 == |word| && off8 / 8 + loop <= words.Length
      modifies this`addrLo, this`wrLo, this`wrHi, this`rdLo, this`rdHi, words
      ensures (rv == 0 && stored == loop) || (rv == -1 && stored <= loop)
      ensures responsive ==> rv == 0
      ensures words[..] == Stored(old(words[..]), off8 / 8, word, stored)
    {
      hide Low, High, Join;
      stored := 0;
      var i := 0;
      while i < loop
        invariant 0 <= i <= loop && stored == i
        invariant words[..] == Stored(old(words[..]), off8 / 8, word, i)
        modifies this`addrLo, this`wrLo, this`wrHi, this`rdLo, this`rdHi, words
      {
        addrLo := off8 + 8 * i;
        wrLo, wrHi := Low(word[i]), High(word[i]);
        JoinHalves(word[i]);
        assert addrLo / 8 == off8 / 8 + i;
        var idle := Start(true);
        if !idle {
          stored := if words[..] == Stored(old(words[..]), off8 / 8, word, i) then i else i + 1;
          return -1, stored;
        }
        i := i + 1;
        stored := i;
      }
      rv := 0;
    }
  }

  /** `w` carries the bytes the memory `m` has from address `at`. */
  ghost predicate Carries(w: bv64, m: seq<byte>, at: nat)
    requires at + 8 <= |m|
  {
    forall b | 0 <= b < 8 :: Byte(w, b) == m[at + b]
  }

  /** The words to be stored carry the bytes of the intended result. */
  ghost predicate Merged(word: seq<bv64>, mem: seq<bv64>, off: nat, data: seq<byte>)
    requires off + |data| <= 8 * |mem| && 0 < |data| <= 8 && |word| == 2
  {
    && Carries(word[0], AgentPoke(Bytes(mem), off, data), 8 * (off / 8))
    && (Spans(off, |data|) ==> Carries(word[1], AgentPoke(Bytes(mem), off, data), 8 * (off / 8) + 8))
  }

  lemma MergeFirst(mem: seq<bv64>, off: nat, data: seq<byte>, w: bv64)
    requires off + |data| <= 8 * |mem| && 0 < |data| <= 8
    requires |data| < 8 || off % 8 != 0 ==> w == mem[off / 8]
    ensures Carries(Merge0(w, LoadLE(data), off % 8, InFirst(off, |data|)),
                    AgentPoke(Bytes(mem), off, data), 8 * (off / 8))
  {
    hide Byte, Merge0, LoadLE, AgentPoke, Bytes;
    var m0 := Merge0(w, LoadLE(data), off % 8, InFirst(off, |data|));
    forall b | 0 <= b < 8
      ensures Byte(m0, b) == AgentPoke(Bytes(mem), off, data)[8 * (off / 8) + b]
    {
      Merge0Byte(w, data, off % 8, InFirst(off, |data|), b);
      PokedFirst(mem, off, data, b);
    }
  }

  lemma MergeSecond(mem: seq<bv64>, off: nat, data: seq<byte>)
    requires off + |data| <= 8 * |mem| && |data| <= 8 && Spans(off, |data|)
    ensures var s0 := InFirst(off, |data|);
      Carries(Merge1(mem[off / 8 + 1], LoadLE(data), s0, |data| - s0),
              AgentPoke(Bytes(mem), off, data), 8 * (off / 8) + 8)
  {
    hide Byte, Merge1, LoadLE, AgentPoke, Bytes, Or;
    var s0 := InFirst(off, |data|);
    var m1 := Merge1(mem[off / 8 + 1], LoadLE(data), s0, |data| - s0);
    forall b | 0 <= b < 8
      ensures Byte(m1, b) == AgentPoke(Bytes(mem), off, data)[8 * (off / 8) + 8 + b]
    {
      Merge1Byte(mem[off / 8 + 1], data, s0, |data| - s0, b);
      PokedSecond(mem, off, data, b);
    }
  }

  lemma PokedFirst(mem: seq<bv64>, off: nat, data: seq<byte>, b: nat)
    requires off + |data| <= 8 * |mem| && 0 < |data| <= 8 && b < 8
    ensures AgentPoke(Bytes(mem), off, data)[8 * (off / 8) + b] ==
            if off % 8 <= b < off % 8 + InFirst(off, |data|) then data[b - off % 8] else Byte(mem[off / 8], b)
  {
    hide Byte, Or;
  }

  lemma PokedSecond(mem: seq<bv64>, off: nat, data: seq<byte>, b: nat)
    requires off + |data| <= 8 * |mem| && |data| <= 8 && Spans(off, |data|) && b < 8
    ensures var s0 := InFirst(off, |data|);
      AgentPoke(Bytes(mem), off, data)[8 * (off / 8) + 8 + b] ==
      if b < |data| - s0 then Or(Byte(mem[off / 8 + 1], b), data[s0 + b]) else 0
  {
    hide Byte, Or;
    assert (8 * (off / 8) + 8 + b) / 8 == off / 8 + 1;
  }

  /** Memory after the first `n` of the (one or two) words have been stored. */
  ghost function Stored(mem: seq<bv64>, at: nat, word: seq<bv64>, n: nat): (r: seq<bv64>)
    requires at + n <= |mem| && n <= 2 == |word|
    ensures |r| == |mem|
  {
    if n == 0 then mem
    else if n == 1 then mem[at := word[0]]
    else mem[at := word[0]][at + 1 := word[1]]
  }

  lemma UpdatedBytes(mem: seq<bv64>, at: nat, w: bv64, a: nat)
    requires at < |mem| && a < 8 * |mem|
    ensures Bytes(mem[at := w])[a] == if a / 8 == at then Byte(w, a % 8) else Bytes(mem)[a]
  {}

  lemma StoredBytes(mem: seq<bv64>, off: nat, data: seq<byte>, word: seq<bv64>, n: nat)
    requires off + |data| <= 8 * |mem| && 0 < |data| <= 8 && |word| == 2
    requires Merged(word, mem, off, data) && n <= (if Spans(off, |data|) then 2 else 1)
    ensures var r := Bytes(Stored(mem, off / 8, word, n));
      && (forall a | 0 <= a < |r| :: r[a] == Bytes(mem)[a] || r[a] == AgentPoke(Bytes(mem), off, data)[a])
      && (n == (if Spans(off, |data|) then 2 else 1) ==> r == AgentPoke(Bytes(mem), off, data))
  {
    hide Byte, Or, Bytes, AgentPoke;
    var p, m, r := AgentPoke(Bytes(mem), off, data), Bytes(mem), Bytes(Stored(mem, off / 8, word, n));
    forall a | 0 <= a < |r|
      ensures r[a] == if off / 8 <= a / 8 < off / 8 + n then p[a] else m[a]
      ensures a / 8 != off / 8 && !(Spans(off, |data|) && a / 8 == off / 8 + 1) ==> p[a] == m[a]
    {
      assert a == 8 * (a / 8) + a % 8;
      PokedElsewhere(mem, off, data, a);
      if n >= 1 { UpdatedBytes(mem, off / 8, word[0], a); }
      if n == 2 { UpdatedBytes(mem[off / 8 := word[0]], off / 8 + 1, word[1], a); }
    }
  }

  lemma PokedElsewhere(mem: seq<bv64>, off: nat, data: seq<byte>, a: nat)
    requires off + |data| <= 8 * |mem| && 0 < |data| <= 8 && a < 8 * |mem|
    ensures a / 8 != off / 8 && !(Spans(off, |data|) && a / 8 == off / 8 + 1) ==>
            AgentPoke(Bytes(mem), off, data)[a] == Bytes(mem)[a]
  {
    hide Byte, Or;
  }

  lemma WholeWord(mem: seq<bv64>, at: nat, d: seq<byte>)
    requires at < |mem| && d == Bytes(mem)[8 * at..8 * at + 8]
    ensures LoadLE(d) == mem[at]
  {
    hide Byte, LoadLE;
    forall b | 0 <= b < 8
      ensures Byte(LoadLE(d), b) == Byte(mem[at], b)
    {
      LoadByte(d, b);
      assert d[b] == Bytes(mem)[8 * at + b];
    }
    SameBytesSameWord(LoadLE(d), mem[at]);
  }
}
