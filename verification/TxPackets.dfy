/**
  How a packet occupies transmit descriptors: four buffers to a descriptor, then up to two
  descriptors with copied headers for segmentation offload.
 */
module TxPackets {
  import opened Options

  datatype Buf = Buf(dma: nat, length: nat)

  /** The four buffer fields of a descriptor. */
  datatype Slots = Slots(b0: Option<Buf>, b1: Option<Buf>, b2: Option<Buf>, b3: Option<Buf>) {
    function Get(k: nat): Option<Buf>
      requires k < 4
    {
      if k == 0 then b0 else if k == 1 then b1 else if k == 2 then b2 else b3
    }

    function Set(k: nat, b: Buf): Slots
      requires k < 4
    {
      if k == 0 then this.(b0 := Some(b)) else if k == 1 then this.(b1 := Some(b))
      else if k == 2 then this.(b2 := Some(b)) else this.(b3 := Some(b))
    }
  }

  const EMPTY := Slots(None, None, None, None)

  /** A command descriptor: a firmware command, a packet's first or further one, or headers. */
  datatype Desc =
    | Firmware(cmd: nat)
    | Head(skb: nat, numOfBuffers: nat, slots: Slots)
    | More(slots: Slots)
    | Headers(skb: nat, part: nat)

  /** `(fragCount + 3) >> 2`. */
  function DescCount(frags: nat): nat { (frags + 3) / 4 }

  function SlotsAt(bufs: seq<Buf>, j: nat): Slots {
    Slots(BufAt(bufs, 4 * j), BufAt(bufs, 4 * j + 1), BufAt(bufs, 4 * j + 2), BufAt(bufs, 4 * j + 3))
  }

  function BufAt(bufs: seq<Buf>, i: nat): Option<Buf> { if i < |bufs| then Some(bufs[i]) else None }

  /** The buffer descriptors of a packet of `frags` buffers, once `bufs` have been filled in. */
  function PacketDescs(skb: nat, frags: nat, bufs: seq<Buf>): (r: seq<Desc>)
    ensures |r| == DescCount(|bufs|)
  {
    seq(DescCount(|bufs|), j requires 0 <= j =>
      if j == 0 then Head(skb, frags, SlotsAt(bufs, j)) else More(SlotsAt(bufs, j)))
  }

  function HeaderDescs(skb: nat, n: nat): (r: seq<Desc>)
    ensures |r| == n
  {
    seq(n, i requires 0 <= i => Headers(skb, i))
  }

  /**
    Buffer `i` is in slot `i mod 4` of descriptor `i div 4`, and nothing else is in any slot.  The
    first descriptor, and no other, names the packet and its number of buffers.
   */
  lemma BufferPositions(skb: nat, bufs: seq<Buf>, i: nat)
    requires i < 4 * DescCount(|bufs|)
    ensures var ds := PacketDescs(skb, |bufs|, bufs);
      && i / 4 < |ds| && (ds[i / 4].Head? || ds[i / 4].More?)
      && ds[i / 4].slots.Get(i % 4) == (if i < |bufs| then Some(bufs[i]) else None)
      && (ds[i / 4].Head? <==> i < 4) && (i < 4 ==> ds[i / 4].skb == skb && ds[i / 4].numOfBuffers == |bufs|)
  {
    var j := i / 4;
    assert i == 4 * j + i % 4;
  }

  /** The header descriptors are the parts of the headers, in order. */
  lemma HeaderPositions(skb: nat, n: nat, i: nat)
    requires i < n
    ensures HeaderDescs(skb, n)[i] == Headers(skb, i)
  {}

  /** A packet of f buffers takes exactly ceil(f / 4) descriptors. */
  lemma DescCountIsCeiling(f: nat)
    ensures 4 * DescCount(f) >= f && (f > 0 ==> 4 * (DescCount(f) - 1) < f)
  {}

  /** Filling in buffer `i`: a new descriptor every fourth buffer, else a slot of the last one. */
  lemma NextBuffer(skb: nat, frags: nat, bufs: seq<Buf>, i: nat)
    requires 0 < i < |bufs|
    ensures var before, after := PacketDescs(skb, frags, bufs[..i]), PacketDescs(skb, frags, bufs[..i + 1]);
      var last := |before| - 1;
      && last >= 0 && (before[last].Head? || before[last].More?)
      && after == if i % 4 == 0 then before + [More(EMPTY.Set(0, bufs[i]))]
                  else before[last := before[last].(slots := before[last].slots.Set(i % 4, bufs[i]))]
  {
    var before, after := PacketDescs(skb, frags, bufs[..i]), PacketDescs(skb, frags, bufs[..i + 1]);
    var last := |before| - 1;
    var expected := if i % 4 == 0 then before + [More(EMPTY.Set(0, bufs[i]))]
                    else before[last := before[last].(slots := before[last].slots.Set(i % 4, bufs[i]))];
    assert i == 4 * (i / 4) + i % 4;
    assert |after| == |expected|;
    forall j | 0 <= j < |after| ensures after[j] == expected[j] {
      SameSlots(bufs, i, j);
    }
  }

  lemma SameSlots(bufs: seq<Buf>, i: nat, j: nat)
    requires i < |bufs|
    ensures j < i / 4 ==> SlotsAt(bufs[..i + 1], j) == SlotsAt(bufs[..i], j)
    ensures j == i / 4 ==> SlotsAt(bufs[..i + 1], j) == SlotsAt(bufs[..i], j).Set(i % 4, bufs[i])
    ensures j == i / 4 && i % 4 == 0 ==> SlotsAt(bufs[..i], j) == EMPTY
  {
    assert i == 4 * (i / 4) + i % 4;
  }

  lemma FirstBuffer(skb: nat, frags: nat, bufs: seq<Buf>)
    requires bufs != []
    ensures PacketDescs(skb, frags, bufs[..1]) == [Head(skb, frags, EMPTY.Set(0, bufs[0]))]
  {}
}
