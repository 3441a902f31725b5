/**
  Flow keys, their comparator (nx_cmp_ip_key) and the LRO hash (lro_ipv4_hash).
 */
module LroKeys {
  import opened Bits
  import opened HashTable
  import opened Options

  /** An address union: four words for IPv6, the first of them for IPv4. */
  datatype IpAddr = IpAddr(w0: bv32, w1: bv32, w2: bv32, w3: bv32)

  datatype HostKey = HostKey(ipVersion: nat, daddr: IpAddr, saddr: IpAddr, sport: nat, dport: nat)

  const NX_IP_VERSION_V4 := 4
  const NX_NUM_LRO_ENTRIES: bv32 := 32

  /** The 32-bit difference as a C int. */
  function Diff(x: bv32, y: bv32): (d: int)
    ensures d == 0 <==> x == y
  {
    var r := x - y;
    ZeroDifference(x, y);
    if r < 0x8000_0000 then r as int else r as int - 0x1_0000_0000
  }

  lemma ZeroDifference(x: bv32, y: bv32)
    ensures x - y == 0 <==> x == y
  {}

  /** The first non-zero difference, as the chain of early returns gives it. */
  function FirstNonZero(ds: seq<int>): (d: int)
    ensures d == 0 <==> forall i | 0 <= i < |ds| :: ds[i] == 0
  {
    if ds == [] then 0 else if ds[0] != 0 then ds[0] else FirstNonZero(ds[1..])
  }

  function CmpIpKey(a: HostKey, b: HostKey): int {
    if a.ipVersion != b.ipVersion then a.ipVersion - b.ipVersion
    else if a.ipVersion == NX_IP_VERSION_V4 then
      FirstNonZero([Diff(a.daddr.w0, b.daddr.w0), a.sport - b.sport, a.dport - b.dport])
    else
      FirstNonZero([Diff(a.daddr.w0, b.daddr.w0), Diff(a.saddr.w0, b.saddr.w0),
                    Diff(a.daddr.w1, b.daddr.w1), Diff(a.saddr.w1, b.saddr.w1),
                    Diff(a.daddr.w2, b.daddr.w2), Diff(a.saddr.w2, b.saddr.w2),
                    Diff(a.daddr.w3, b.daddr.w3), Diff(a.saddr.w3, b.saddr.w3),
                    a.sport - b.sport, a.dport - b.dport])
  }

  /** What "equal" means to the comparator: for IPv4 the source address does not matter. */
  predicate SameFlow(a: HostKey, b: HostKey) {
    && a.ipVersion == b.ipVersion && a.sport == b.sport && a.dport == b.dport
    && if a.ipVersion == NX_IP_VERSION_V4 then a.daddr.w0 == b.daddr.w0 else a.daddr == b.daddr && a.saddr == b.saddr
  }

  lemma CmpZeroIsSameFlow(a: HostKey, b: HostKey)
    ensures CmpIpKey(a, b) == 0 <==> SameFlow(a, b)
  {
    hide Diff, FirstNonZero;
    var v4 := [Diff(a.daddr.w0, b.daddr.w0), a.sport - b.sport, a.dport - b.dport];
    assert v4[0] == Diff(a.daddr.w0, b.daddr.w0) && v4[1] == a.sport - b.sport && v4[2] == a.dport - b.dport;
    var v6 := [Diff(a.daddr.w0, b.daddr.w0), Diff(a.saddr.w0, b.saddr.w0),
               Diff(a.daddr.w1, b.daddr.w1), Diff(a.saddr.w1, b.saddr.w1),
               Diff(a.daddr.w2, b.daddr.w2), Diff(a.saddr.w2, b.saddr.w2),
               Diff(a.daddr.w3, b.daddr.w3), Diff(a.saddr.w3, b.saddr.w3),
               a.sport - b.sport, a.dport - b.dport];
    assert v6[0] == Diff(a.daddr.w0, b.daddr.w0) && v6[1] == Diff(a.saddr.w0, b.saddr.w0);
    assert v6[2] == Diff(a.daddr.w1, b.daddr.w1) && v6[3] == Diff(a.saddr.w1, b.saddr.w1);
    assert v6[4] == Diff(a.daddr.w2, b.daddr.w2) && v6[5] == Diff(a.saddr.w2, b.saddr.w2);
    assert v6[6] == Diff(a.daddr.w3, b.daddr.w3) && v6[7] == Diff(a.saddr.w3, b.saddr.w3);
    assert v6[8] == a.sport - b.sport && v6[9] == a.dport - b.dport;
  }

  /** Equal IPv4 keys are those that differ in unread fields only; equal IPv6 keys are the same key. */
  lemma EqualKeys(a: HostKey, b: HostKey)
    ensures a.ipVersion == 4 ==>
      (CmpIpKey(a, b) == 0 <==>
       b == a.(saddr := b.saddr, daddr := a.daddr.(w1 := b.daddr.w1, w2 := b.daddr.w2, w3 := b.daddr.w3)))
    ensures a.ipVersion != 4 ==> (CmpIpKey(a, b) == 0 <==> a == b)
  {
    hide CmpIpKey;
    CmpZeroIsSameFlow(a, b);
  }

  /** lro_ipv4_hash on the four fields it reads, ports zero-extended: mix, then fold. */
  function FoldHash(daddr: bv32, saddr: bv32, sport: bv32, dport: bv32): bv32 {
    Fold(Mix(daddr, saddr, sport, dport))
  }

  function Mix(daddr: bv32, saddr: bv32, sport: bv32, dport: bv32): bv32 {
    Xor(Xor(Base(daddr, dport), saddr), sport)
  }

  function Base(daddr: bv32, dport: bv32): bv32 {
    Xor(((daddr & 0xF0F0_F0F0) >> 4) | ((daddr & 0x0F0F_0F0F) << 4), dport << 16)
  }

  function Fold(h: bv32): bv32 {
    var h' := Xor(h, Shr16(h));
    LowBits(Xor(h', Shr8(h')))
  }

  function Xor(x: bv32, y: bv32): bv32 { x ^ y }

  function Shr16(x: bv32): bv32 { x >> 16 }

  function Shr8(x: bv32): bv32 { x >> 8 }

  function LowBits(x: bv32): bv32 { x & (NX_NUM_LRO_ENTRIES - 1) }

  function Port(p: nat): bv32 { (p % 0x1_0000) as bv16 as bv32 }

  function LroIpv4Hash(key: HostKey): nat {
    FoldHash(key.daddr.w0, key.saddr.w0, Port(key.sport), Port(key.dport)) as nat
  }

  const LroOps: Ops<HostKey> := Ops(k => LroIpv4Hash(k), (a, b) => CmpIpKey(a, b))

  lemma LroComparatorIsEquivalence()
    ensures Equivalence(LroOps)
  {
    hide CmpIpKey;
    forall a: HostKey, b: HostKey ensures CmpIpKey(a, b) == 0 <==> SameFlow(a, b) {
      CmpZeroIsSameFlow(a, b);
    }
  }

  /** Two keys the comparator calls equal and the LRO table puts into different buckets. */
  lemma LroHashDoesNotRespectComparator()
    ensures !Respects(LroOps, 32)
  {
    hide FoldHash, Port, BitAnd, CmpIpKey;
    var zero := IpAddr(0, 0, 0, 0);
    var a := HostKey(NX_IP_VERSION_V4, zero, zero, 0, 0);
    var b := a.(saddr := IpAddr(1, 0, 0, 0));
    CmpZeroIsSameFlow(a, b);
    HashOfSources();
    BucketOfZeroAndOne();
    assert Bucket(LroOps, 32, a) == 0 && Bucket(LroOps, 32, b) == 1;
  }

  lemma HashOfSources()
    ensures Port(0) == 0 && FoldHash(0, 0, 0, 0) == 0 && FoldHash(0, 1, 0, 0) == 1 && FoldHash(0, 32, 0, 0) == 0
  {}

  lemma BucketOfZeroAndOne()
    ensures BitAnd(0, 31) == 0 && BitAnd(1, 31) == 1
  {
    assert BitAnd(0, 15) == 0;
  }

  // ----- which bucket a flow is in -----

  /** The exclusive or of a word's four bytes. */
  function ByteSum(x: bv32): bv32 {
    Xor(Xor(ByteOf(x, 0), ByteOf(x, 1)), Xor(ByteOf(x, 2), ByteOf(x, 3)))
  }

  function ByteOf(x: bv32, k: nat): bv32 {
    match k case 0 => x & 0xff case 1 => (x >> 8) & 0xff case 2 => (x >> 16) & 0xff case _ => (x >> 24) & 0xff
  }

  /** A byte with its two halves exchanged. */
  function SwapHalves(b: bv32): bv32 { ((b >> 4) & 0xf) | ((b & 0xf) << 4) }

  /** What the hash makes of a flow: every byte of its four fields counts once. */
  function FlowSum(daddr: bv32, saddr: bv32, sport: bv32, dport: bv32): bv32 {
    Xor(Xor(SwapHalves(ByteSum(daddr)), ByteSum(saddr)), Xor(ByteSum(sport), ByteSum(dport)))
  }

  lemma FoldIsByteSum(h: bv32)
    ensures Fold(h) == LowBits(ByteSum(h))
  {}

  lemma SumOfXor(x: bv32, y: bv32)
    ensures ByteSum(Xor(x, y)) == Xor(ByteSum(x), ByteSum(y))
  {
    hide Xor, ByteOf;
    Byte0OfXor(x, y);
    Byte1OfXor(x, y);
    Byte2OfXor(x, y);
    Byte3OfXor(x, y);
    var x0, x1, x2, x3 := ByteOf(x, 0), ByteOf(x, 1), ByteOf(x, 2), ByteOf(x, 3);
    var y0, y1, y2, y3 := ByteOf(y, 0), ByteOf(y, 1), ByteOf(y, 2), ByteOf(y, 3);
    XorMiddle(x0, y0, x1, y1);
    XorMiddle(x2, y2, x3, y3);
    XorMiddle(Xor(x0, x1), Xor(y0, y1), Xor(x2, x3), Xor(y2, y3));
  }

  lemma Byte0OfXor(x: bv32, y: bv32)
    ensures ByteOf(Xor(x, y), 0) == Xor(ByteOf(x, 0), ByteOf(y, 0))
  {}

  lemma Byte1OfXor(x: bv32, y: bv32)
    ensures ByteOf(Xor(x, y), 1) == Xor(ByteOf(x, 1), ByteOf(y, 1))
  {}

  lemma Byte2OfXor(x: bv32, y: bv32)
    ensures ByteOf(Xor(x, y), 2) == Xor(ByteOf(x, 2), ByteOf(y, 2))
  {}

  lemma Byte3OfXor(x: bv32, y: bv32)
    ensures ByteOf(Xor(x, y), 3) == Xor(ByteOf(x, 3), ByteOf(y, 3))
  {}

  lemma SumOfNibbles(x: bv32)
    ensures ByteSum(((x & 0xF0F0_F0F0) >> 4) | ((x & 0x0F0F_0F0F) << 4)) == SwapHalves(ByteSum(x))
  {
    hide Xor, ByteOf, SwapHalves;
    var x0, x1, x2, x3 := ByteOf(x, 0), ByteOf(x, 1), ByteOf(x, 2), ByteOf(x, 3);
    Byte0Swapped(x);
    Byte1Swapped(x);
    Byte2Swapped(x);
    Byte3Swapped(x);
    SwapOfXor(x0, x1);
    SwapOfXor(x2, x3);
    SwapOfXor(Xor(x0, x1), Xor(x2, x3));
  }

  lemma Byte0Swapped(x: bv32)
    ensures ByteOf(((x & 0xF0F0_F0F0) >> 4) | ((x & 0x0F0F_0F0F) << 4), 0) == SwapHalves(ByteOf(x, 0))
  {}

  lemma Byte1Swapped(x: bv32)
    ensures ByteOf(((x & 0xF0F0_F0F0) >> 4) | ((x & 0x0F0F_0F0F) << 4), 1) == SwapHalves(ByteOf(x, 1))
  {}

  lemma Byte2Swapped(x: bv32)
    ensures ByteOf(((x & 0xF0F0_F0F0) >> 4) | ((x & 0x0F0F_0F0F) << 4), 2) == SwapHalves(ByteOf(x, 2))
  {}

  lemma Byte3Swapped(x: bv32)
    ensures ByteOf(((x & 0xF0F0_F0F0) >> 4) | ((x & 0x0F0F_0F0F) << 4), 3) == SwapHalves(ByteOf(x, 3))
  {}

  lemma SumOfShifted(p: bv32)
    requires p <= 0xffff
    ensures ByteSum(p << 16) == ByteSum(p)
  {}

  lemma HashIsFlowSum(daddr: bv32, saddr: bv32, sport: bv32, dport: bv32)
    requires sport <= 0xffff && dport <= 0xffff
    ensures FoldHash(daddr, saddr, sport, dport) == LowBits(FlowSum(daddr, saddr, sport, dport))
  {
    hide Fold, Xor, LowBits, ByteSum, SwapHalves;
    var mixed := ((daddr & 0xF0F0_F0F0) >> 4) | ((daddr & 0x0F0F_0F0F) << 4);
    FoldIsByteSum(Mix(daddr, saddr, sport, dport));
    SumOfXor(Xor(Base(daddr, dport), saddr), sport);
    SumOfXor(Base(daddr, dport), saddr);
    SumOfXor(mixed, dport << 16);
    SumOfNibbles(daddr);
    SumOfShifted(dport);
    Reorder(ByteSum(mixed), ByteSum(dport), ByteSum(saddr), ByteSum(sport));
  }

  lemma Reorder(a: bv32, b: bv32, c: bv32, d: bv32)
    ensures Xor(Xor(Xor(a, b), c), d) == Xor(Xor(a, c), Xor(d, b))
  {}

  lemma PortIsShort(p: nat)
    ensures Port(p) <= 0xffff
  {}

  function FlowSumOf(key: HostKey): bv32 {
    FlowSum(key.daddr.w0, key.saddr.w0, Port(key.sport), Port(key.dport))
  }

  /** Two IPv4 flows share a bucket exactly when their sums agree in the low five bits. */
  lemma ShareBucketExactlyWhen(a: HostKey, b: HostKey, cnt: nat)
    requires IsPow2(cnt) && cnt >= 32
    ensures Bucket(LroOps, cnt, a) == Bucket(LroOps, cnt, b) <==>
            LowBits(FlowSumOf(a)) == LowBits(FlowSumOf(b))
  {
    hide Fold, Mix, Xor, CmpIpKey, BitAnd, IsPow2, Port, FlowSum, LowBits;
    var x := Mix(a.daddr.w0, a.saddr.w0, Port(a.sport), Port(a.dport));
    var y := Mix(b.daddr.w0, b.saddr.w0, Port(b.sport), Port(b.dport));
    PortIsShort(a.sport);
    PortIsShort(a.dport);
    PortIsShort(b.sport);
    PortIsShort(b.dport);
    HashIsFlowSum(a.daddr.w0, a.saddr.w0, Port(a.sport), Port(a.dport));
    HashIsFlowSum(b.daddr.w0, b.saddr.w0, Port(b.sport), Port(b.dport));
    FoldIsSmall(x);
    FoldIsSmall(y);
    BucketIsHash(a, x, cnt);
    BucketIsHash(b, y, cnt);
    SameNumber(Fold(x), Fold(y));
  }

  /** Flows that differ in their destination address only, or in one port only. */
  lemma OneFieldDiffers(a: HostKey, b: HostKey, cnt: nat)
    requires IsPow2(cnt) && cnt >= 32
    ensures a.saddr == b.saddr && a.sport == b.sport && a.dport == b.dport ==>
      (Bucket(LroOps, cnt, a) == Bucket(LroOps, cnt, b) <==> LowBits(SwapHalves(ByteSum(Xor(a.daddr.w0, b.daddr.w0)))) == 0)
    ensures a.saddr == b.saddr && a.sport == b.sport && a.daddr == b.daddr ==>
      (Bucket(LroOps, cnt, a) == Bucket(LroOps, cnt, b) <==> LowBits(ByteSum(Xor(Port(a.dport), Port(b.dport)))) == 0)
    ensures a.saddr == b.saddr && a.dport == b.dport && a.daddr == b.daddr ==>
      (Bucket(LroOps, cnt, a) == Bucket(LroOps, cnt, b) <==> LowBits(ByteSum(Xor(Port(a.sport), Port(b.sport)))) == 0)
  {
    hide CmpIpKey, BitAnd, IsPow2, Port, Bucket, FlowSum, ByteSum, SwapHalves, Xor, LowBits;
    ShareBucketExactlyWhen(a, b, cnt);
    DifferentAddress(a.daddr.w0, b.daddr.w0, a.saddr.w0, Port(a.sport), Port(a.dport));
    DifferentPort(a.daddr.w0, a.saddr.w0, Port(a.sport), Port(a.dport), Port(b.dport));
    DifferentPort(a.daddr.w0, a.saddr.w0, Port(a.dport), Port(a.sport), Port(b.sport));
    PortsCommute(a.daddr.w0, a.saddr.w0, Port(a.sport), Port(a.dport));
    PortsCommute(a.daddr.w0, a.saddr.w0, Port(b.sport), Port(a.dport));
  }

  lemma DifferentAddress(d: bv32, d': bv32, s: bv32, sport: bv32, dport: bv32)
    ensures LowBits(FlowSum(d, s, sport, dport)) == LowBits(FlowSum(d', s, sport, dport)) <==>
            LowBits(SwapHalves(ByteSum(Xor(d, d')))) == 0
  {
    hide ByteSum, SwapHalves, Xor, LowBits;
    SumOfXor(d, d');
    SwapOfXor(ByteSum(d), ByteSum(d'));
    var x, y, p, q := SwapHalves(ByteSum(d)), SwapHalves(ByteSum(d')), ByteSum(s), Xor(ByteSum(sport), ByteSum(dport));
    XorLaws(x, p, q);
    XorLaws(y, p, q);
    CommonPart(x, y, Xor(p, q));
  }

  lemma SwapOfXor(x: bv32, y: bv32)
    ensures SwapHalves(Xor(x, y)) == Xor(SwapHalves(x), SwapHalves(y))
  {}

  lemma CommonPart(x: bv32, y: bv32, p: bv32)
    ensures LowBits(Xor(x, p)) == LowBits(Xor(y, p)) <==> LowBits(Xor(x, y)) == 0
  {}

  lemma DifferentPort(d: bv32, s: bv32, sport: bv32, dport: bv32, dport': bv32)
    ensures LowBits(FlowSum(d, s, sport, dport)) == LowBits(FlowSum(d, s, sport, dport')) <==>
            LowBits(ByteSum(Xor(dport, dport'))) == 0
  {
    hide ByteSum, SwapHalves, Xor, LowBits;
    SumOfXor(dport, dport');
    var p, q, x, y := Xor(SwapHalves(ByteSum(d)), ByteSum(s)), ByteSum(sport), ByteSum(dport), ByteSum(dport');
    XorLaws(p, q, x);
    XorLaws(p, q, y);
    XorLaws(0, Xor(p, q), x);
    XorLaws(0, Xor(p, q), y);
    CommonPart(x, y, Xor(p, q));
  }

  /** The shift of the destination port does not tell the two ports apart. */
  lemma PortsCommute(d: bv32, s: bv32, sport: bv32, dport: bv32)
    ensures FlowSum(d, s, sport, dport) == FlowSum(d, s, dport, sport)
  {
    hide ByteSum, SwapHalves, Xor, LowBits;
    XorLaws(0, ByteSum(sport), ByteSum(dport));
  }

  /** A flow and the one with its two ports exchanged share a bucket. */
  lemma ExchangedPortsShareBucket(a: HostKey, cnt: nat)
    requires IsPow2(cnt) && cnt >= 32
    ensures Bucket(LroOps, cnt, a) == Bucket(LroOps, cnt, a.(sport := a.dport, dport := a.sport))
  {
    hide CmpIpKey, BitAnd, IsPow2, Port, Bucket, FlowSum, LowBits;
    ShareBucketExactlyWhen(a, a.(sport := a.dport, dport := a.sport), cnt);
    PortsCommute(a.daddr.w0, a.saddr.w0, Port(a.sport), Port(a.dport));
  }

  /** Every one of the 32 buckets is used: sources 0 to 31 of one flow are in buckets 0 to 31. */
  lemma SmallSourceIsBucket(source: bv32, cnt: nat)
    requires source <= 31 && IsPow2(cnt) && cnt >= 32
    ensures var zero := IpAddr(0, 0, 0, 0);
      Bucket(LroOps, cnt, HostKey(NX_IP_VERSION_V4, zero, zero.(w0 := source), 0, 0)) == source as nat
  {
    hide CmpIpKey, BitAnd, IsPow2, Port, FoldHash;
    var zero := IpAddr(0, 0, 0, 0);
    HashOfSources();
    SmallSourceHash(source);
    MaskIsRemainder(LroIpv4Hash(HostKey(NX_IP_VERSION_V4, zero, zero.(w0 := source), 0, 0)), cnt);
    SmallRemainder(source as nat, cnt);
  }

  lemma SmallSourceHash(source: bv32)
    requires source <= 31
    ensures FoldHash(0, source, 0, 0) == source && source as nat < 32
  {}

  // ----- flows that differ in their source address only -----

  lemma XorMiddle(a: bv32, b: bv32, c: bv32, d: bv32)
    ensures Xor(Xor(a, b), Xor(c, d)) == Xor(Xor(a, c), Xor(b, d))
  {
    hide Xor;
    XorLaws(Xor(a, b), c, d);
    XorLaws(a, b, c);
    XorLaws(a, c, b);
    XorLaws(Xor(a, c), b, d);
  }

  lemma XorLaws(a: bv32, b: bv32, c: bv32)
    ensures Xor(Xor(a, b), c) == Xor(a, Xor(b, c)) && Xor(b, c) == Xor(c, b)
  {}

  lemma XorSelf(x: bv32)
    ensures Xor(x, x) == 0 && Xor(0, x) == x == Xor(x, 0)
  {}

  lemma Shr16Difference(x: bv32, y: bv32)
    ensures Shr16(Xor(x, y)) == Xor(Shr16(x), Shr16(y))
  {}

  lemma Shr8Difference(x: bv32, y: bv32)
    ensures Shr8(Xor(x, y)) == Xor(Shr8(x), Shr8(y))
  {}

  lemma LowDifference(x: bv32, y: bv32)
    ensures LowBits(x) == LowBits(y) <==> LowBits(Xor(x, y)) == 0
  {}

  lemma MixDifference(daddr: bv32, s: bv32, s': bv32, sport: bv32, dport: bv32)
    ensures Xor(Mix(daddr, s, sport, dport), Mix(daddr, s', sport, dport)) == Xor(s, s')
  {
    hide Xor, Base;
    var base := Base(daddr, dport);
    XorMiddle(Xor(base, s), sport, Xor(base, s'), sport);
    XorMiddle(base, s, base, s');
    XorSelf(base);
    XorSelf(sport);
    XorSelf(Xor(s, s'));
  }

  lemma FoldDifference(x: bv32, y: bv32)
    ensures Fold(x) == Fold(y) <==> Fold(Xor(x, y)) == 0
  {
    hide Xor, Shr16, Shr8, LowBits;
    var x', y' := Xor(x, Shr16(x)), Xor(y, Shr16(y));
    Shr16Difference(x, y);
    XorMiddle(x, Shr16(x), y, Shr16(y));
    Shr8Difference(x', y');
    XorMiddle(x', Shr8(x'), y', Shr8(y'));
    LowDifference(Xor(x', Shr8(x')), Xor(y', Shr8(y')));
  }

  lemma FoldIsSmall(x: bv32)
    ensures Fold(x) <= 31 && Fold(x) as nat < 32
  {
    hide Xor, Shr16, Shr8;
    var h := Xor(x, Shr16(x));
    assert LowBits(Xor(h, Shr8(h))) <= 31;
  }

  /** Two sources of one flow share a bucket exactly when their addresses fold alike. */
  lemma SameBucketExactlyWhen(a: HostKey, b: HostKey, cnt: nat)
    requires a.ipVersion == NX_IP_VERSION_V4 && SameFlow(a, b) && IsPow2(cnt) && cnt >= 32
    ensures Bucket(LroOps, cnt, a) == Bucket(LroOps, cnt, b) <==> Fold(Xor(a.saddr.w0, b.saddr.w0)) == 0
  {
    hide Fold, Mix, Xor, CmpIpKey, BitAnd, IsPow2, Port;
    var x := Mix(a.daddr.w0, a.saddr.w0, Port(a.sport), Port(a.dport));
    var y := Mix(a.daddr.w0, b.saddr.w0, Port(a.sport), Port(a.dport));
    MixDifference(a.daddr.w0, a.saddr.w0, b.saddr.w0, Port(a.sport), Port(a.dport));
    FoldIsSmall(x);
    FoldIsSmall(y);
    FoldDifference(x, y);
    BucketIsHash(a, x, cnt);
    BucketIsHash(b, y, cnt);
    SameNumber(Fold(x), Fold(y));
  }

  lemma BucketIsHash(a: HostKey, x: bv32, cnt: nat)
    requires x == Mix(a.daddr.w0, a.saddr.w0, Port(a.sport), Port(a.dport)) && IsPow2(cnt) && cnt >= 32
    ensures Bucket(LroOps, cnt, a) == Fold(x) as nat
  {
    hide Fold, Mix, CmpIpKey, BitAnd, IsPow2, Port;
    FoldIsSmall(x);
    MaskIsRemainder(LroIpv4Hash(a), cnt);
    SmallRemainder(Fold(x) as nat, cnt);
  }

  lemma SmallRemainder(x: nat, n: nat)
    requires x < n
    ensures x % n == x
  {}

  lemma SameNumber(x: bv32, y: bv32)
    requires x <= 31 && y <= 31
    ensures x as nat == y as nat <==> x == y
  {}

  /**
    Which entry a card response for `key` frees: the stored flow `n` that the comparator calls
    equal, exactly when the two share a bucket.  With the shipped hash and a table of a power
    of two of at least 32 buckets, whether they do depends on the source addresses alone.
   */
  lemma FreedExactlyWhen(buckets: seq<seq<Node<HostKey>>>, cnt: nat, n: Node<HostKey>, key: HostKey)
    requires WellFormed(LroOps, buckets, cnt) && n in Nodes(buckets) && SameFlow(key, n.key)
    ensures Lookup(LroOps, buckets, cnt, key) == Some(n) <==> Bucket(LroOps, cnt, key) == Bucket(LroOps, cnt, n.key)
    ensures IsPow2(cnt) && cnt >= 32 && key.ipVersion == NX_IP_VERSION_V4 ==>
      (Lookup(LroOps, buckets, cnt, key) == Some(n) <==> Fold(Xor(key.saddr.w0, n.key.saddr.w0)) == 0)
  {
    hide Bucket, CmpIpKey, Nodes, Equivalence, Find, Fold;
    CmpZeroIsSameFlow(key, n.key);
    LroComparatorIsEquivalence();
    NodeHasBucket(buckets, n);
    var i :| 0 <= i < |buckets| && n in buckets[i];
    var j :| 0 <= j < |buckets[i]| && buckets[i][j] == n;
    assert BucketOk(LroOps, buckets[i], i, cnt);
    if Bucket(LroOps, cnt, key) == i {
      FindOnly(LroOps, buckets[i], i, cnt, key, j);
    } else {
      var b := Bucket(LroOps, cnt, key);
      assert BucketOk(LroOps, buckets[b], b, cnt);
    }
    if IsPow2(cnt) && cnt >= 32 && key.ipVersion == NX_IP_VERSION_V4 { SameBucketExactlyWhen(key, n.key, cnt); }
  }

  /** A response frees an entry of another source exactly when the key's bucket holds one. */
  lemma OtherSourceFreedExactlyWhen(buckets: seq<seq<Node<HostKey>>>, cnt: nat, key: HostKey)
    requires WellFormed(LroOps, buckets, cnt)
    ensures (match Lookup(LroOps, buckets, cnt, key) case None => false case Some(n) => n.key.saddr.w0 != key.saddr.w0) <==>
            exists n :: n in buckets[Bucket(LroOps, cnt, key)] && SameFlow(key, n.key) && n.key.saddr.w0 != key.saddr.w0
  {
    hide Bucket, CmpIpKey, Equivalence;
    LroComparatorIsEquivalence();
    var i := Bucket(LroOps, cnt, key);
    assert BucketOk(LroOps, buckets[i], i, cnt);
    forall n | n in buckets[i] && SameFlow(key, n.key) ensures Lookup(LroOps, buckets, cnt, key) == Some(n) {
      CmpZeroIsSameFlow(key, n.key);
      var j :| 0 <= j < |buckets[i]| && buckets[i][j] == n;
      FindOnly(LroOps, buckets[i], i, cnt, key, j);
    }
    match Lookup(LroOps, buckets, cnt, key) {
      case None =>
      case Some(n) => CmpZeroIsSameFlow(key, n.key);
    }
  }

  /** Sources 0 and 32 share bucket 0: the response for one frees the entry of the other. */
  lemma OtherSourceIsFreed()
    ensures var zero := IpAddr(0, 0, 0, 0);
      var key := HostKey(NX_IP_VERSION_V4, zero, zero, 0, 0);
      var n := Node(0, key.(saddr := IpAddr(32, 0, 0, 0)));
      exists buckets :: WellFormed(LroOps, buckets, 32) && Lookup(LroOps, buckets, 32, key) == Some(n)
  {
    hide FoldHash, Port, BitAnd, CmpIpKey, Nodes, Find;
    var zero := IpAddr(0, 0, 0, 0);
    var key := HostKey(NX_IP_VERSION_V4, zero, zero, 0, 0);
    var n := Node(0, key.(saddr := IpAddr(32, 0, 0, 0)));
    HashOfSources();
    BucketOfZeroAndOne();
    var buckets := seq(32, j => if j == 0 then [n] else []);
    assert Bucket(LroOps, 32, key) == 0 && Bucket(LroOps, 32, n.key) == 0;
    assert WellFormed(LroOps, buckets, 32);
    NodeHasBucket(buckets, n);
    assert n in buckets[0];
    FreedExactlyWhen(buckets, 32, n, key);
  }

  /** In wrapping arithmetic the comparator does not even order the keys. */
  lemma LroComparatorIsNoOrder()
    ensures !Ordering(LroOps)
  {
    var zero := IpAddr(0, 0, 0, 0);
    var a := HostKey(NX_IP_VERSION_V4, zero, zero, 0, 0);
    var b := a.(daddr := IpAddr(0x8000_0000, 0, 0, 0));
    assert LroOps.compare(a, b) < 0 && LroOps.compare(b, a) < 0 by { HalfTheRange(); }
  }

  lemma HalfTheRange()
    ensures Diff(0, 0x8000_0000) == Diff(0x8000_0000, 0) == -0x8000_0000
  {}
}
