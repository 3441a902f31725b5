/**
  The receive status ring parser (unm_process_rcv_ring).  The card writes status descriptors
  and gives them to the host by the owner bits; a message takes one or several descriptors,
  and every descriptor passed over is handed back.

  Environment: the card writes in order, only into descriptors it owns, and the descriptor
  counts of messages are legal (`LegalHead`).  It may write at any time, also while the parser
  runs (`CardMayWrite`).  Whether it also stays within a turn of the consumer register is a
  parameter of the ring (`respectful`): the handler of chained LRO messages needs it.
 */
module StatusRing {
  import opened Bits
  import opened Circular

  /** The dispatch of the parser on the opcode. */
  datatype Kind = Receive | LroContiguous | LroChained | Other

  /** A descriptor without its owner bits: opcode class, descCnt and the two body words. */
  datatype Info = Info(kind: Kind, cnt: nat, body0: bv64, body1: bv64)

  datatype Desc = Desc(host: bool, info: Info)

  /** What a handler is called with. */
  datatype Msg =
    | Received(desc: Info)
    | Contiguous(desc: Info)
    | Chained(desc: Info, rest: seq<Info>)
    | Queue(hdr: bv64, values: seq<bv64>)

  // ----- the messages of a descriptor stream -----

  function MsgLen(d: Info): (n: nat)
    ensures n >= 1
  {
    if (d.kind.LroChained? || d.kind.Other?) && d.cnt > 1 then d.cnt else 1
  }

  /** The counts the parser's fixed buffers allow: five LRO descriptors, seven message words. */
  predicate LegalHead(d: Info) {
    && (d.kind.LroChained? ==> 2 <= d.cnt <= 7)
    && (d.kind.Other? ==> d.cnt <= 5)
  }

  function Words(ds: seq<Info>): seq<bv64> {
    if ds == [] then [] else Words(ds[..|ds| - 1]) + [ds[|ds| - 1].body0, ds[|ds| - 1].body1]
  }

  /** Two words a descriptor, in order. */
  lemma {:induction false} WordsInOrder(ds: seq<Info>)
    ensures |Words(ds)| == 2 * |ds|
    ensures forall i | 0 <= i < |ds| :: Words(ds)[2 * i] == ds[i].body0 && Words(ds)[2 * i + 1] == ds[i].body1
  {
    if ds != [] { WordsInOrder(ds[..|ds| - 1]); }
  }

  lemma WordsOneMore(ds: seq<Info>, d: Info)
    ensures Words([]) == [] && Words(ds + [d]) == Words(ds) + [d.body0, d.body1]
  {
    assert (ds + [d])[..|ds|] == ds;
  }

  /** The message made of the descriptors `ds`; the last of several carries no data. */
  function MsgOf(ds: seq<Info>): Msg
    requires ds != [] && |ds| == MsgLen(ds[0])
  {
    var d := ds[0];
    match d.kind
    case Receive => Received(d)
    case LroContiguous => Contiguous(d)
    case LroChained => Chained(d, if |ds| > 1 then ds[1..|ds| - 1] else [])
    case Other =>
      if d.cnt > 1 then Queue(d.body0, [d.body1] + Words(ds[1..|ds| - 1]))
      else Queue(d.body0, [d.body0, d.body1])
  }

  /**
    The words of a queue message: its first descriptor gives the header and the first value, each
    further one but the last two values, in order.
   */
  lemma QueueMessageWords(ds: seq<Info>)
    requires ds != [] && |ds| == MsgLen(ds[0]) && ds[0].kind.Other? && ds[0].cnt > 1
    ensures var m := MsgOf(ds);
      && m.Queue? && m.hdr == ds[0].body0 && |m.values| == 2 * |ds| - 3 && m.values[0] == ds[0].body1
      && forall i | 1 <= i < |ds| - 1 :: m.values[2 * i - 1] == ds[i].body0 && m.values[2 * i] == ds[i].body1
  {
    WordsInOrder(ds[1..|ds| - 1]);
    forall i | 1 <= i < |ds| - 1
      ensures MsgOf(ds).values[2 * i - 1] == ds[i].body0 && MsgOf(ds).values[2 * i] == ds[i].body1
    {
      assert ds[1..|ds| - 1][i - 1] == ds[i];
    }
  }

  /** The messages of one descriptor, and of a chain: each descriptor but the last is in it, in order. */
  lemma OtherMessages(ds: seq<Info>)
    requires ds != [] && |ds| == MsgLen(ds[0])
    ensures ds[0].kind.Receive? ==> MsgOf(ds) == Received(ds[0]) && |ds| == 1
    ensures ds[0].kind.LroContiguous? ==> MsgOf(ds) == Contiguous(ds[0]) && |ds| == 1
    ensures ds[0].kind.Other? && ds[0].cnt <= 1 ==>
      |ds| == 1 && MsgOf(ds) == Queue(ds[0].body0, [ds[0].body0, ds[0].body1])
    ensures ds[0].kind.LroChained? && ds[0].cnt > 1 ==>
      && |ds| == ds[0].cnt && MsgOf(ds).Chained? && MsgOf(ds).desc == ds[0] && |MsgOf(ds).rest| == |ds| - 2
      && forall i | 0 <= i < |ds| - 2 :: MsgOf(ds).rest[i] == ds[i + 1]
  {}

  predicate Complete(stream: seq<Info>) { stream != [] && MsgLen(stream[0]) <= |stream| }

  /** The complete messages at the front of `stream`, at most `max` of them. */
  function Parse(stream: seq<Info>, max: nat): seq<Msg> {
    if max == 0 || !Complete(stream) then []
    else
      var n := MsgLen(stream[0]);
      [MsgOf(stream[..n])] + Parse(stream[n..], max - 1)
  }

  /** How many descriptors those messages take. */
  function Parsed(stream: seq<Info>, max: nat): (n: nat)
    ensures n <= |stream|
  {
    if max == 0 || !Complete(stream) then 0
    else MsgLen(stream[0]) + Parsed(stream[MsgLen(stream[0])..], max - 1)
  }

  /** Every message that starts in `stream` has a legal head. */
  predicate Legal(stream: seq<Info>) {
    stream == [] || (LegalHead(stream[0]) && (Complete(stream) ==> Legal(stream[MsgLen(stream[0])..])))
  }

  lemma ParseNone(stream: seq<Info>)
    ensures Parse(stream, 0) == [] && Parsed(stream, 0) == 0
  {}

  /** One message off the front. */
  lemma ParseHead(stream: seq<Info>, m: nat)
    requires m > 0 && Complete(stream)
    ensures var n := MsgLen(stream[0]);
      && n <= |stream| && Parse(stream, m) == [MsgOf(stream[..n])] + Parse(stream[n..], m - 1)
      && Parsed(stream, m) == n + Parsed(stream[n..], m - 1)
  {}

  lemma ParseEmpty(stream: seq<Info>, m: nat)
    requires !Complete(stream)
    ensures Parse(stream, m) == [] && Parsed(stream, m) == 0
  {}

  /** Parsing in two goes is parsing in one: boundaries are independent of the call pattern. */
  lemma {:induction false} ParseInTwo(stream: seq<Info>, m: nat, k: nat)
    requires |Parse(stream, m)| == m
    ensures var p := Parsed(stream, m);
      && Parse(stream, m + k) == Parse(stream, m) + Parse(stream[p..], k)
      && Parsed(stream, m + k) == p + Parsed(stream[p..], k)
  {
    hide Parse, Parsed, MsgOf, MsgLen;
    if m == 0 {
      ParseNone(stream);
      assert stream[0..] == stream;
    } else if !Complete(stream) {
      ParseEmpty(stream, m);
    } else {
      var n, p := MsgLen(stream[0]), Parsed(stream, m);
      ParseHead(stream, m);
      ParseHead(stream, m + k);
      var tail := stream[n..];
      ParseInTwo(tail, m - 1, k);
      assert m + k - 1 == m - 1 + k && tail[p - n..] == stream[p..];
      var first := [MsgOf(stream[..n])];
      assert first + (Parse(tail, m - 1) + Parse(stream[p..], k)) == first + Parse(tail, m - 1) + Parse(stream[p..], k);
    }
  }

  /** Later descriptors do not change the messages already complete. */
  lemma {:induction false} ParseOfLonger(stream: seq<Info>, more: seq<Info>, m: nat)
    requires |Parse(stream, m)| == m
    ensures Parse(stream + more, m) == Parse(stream, m) && Parsed(stream + more, m) == Parsed(stream, m)
  {
    hide MsgOf, MsgLen;
    if m > 0 {
      var n := MsgLen(stream[0]);
      ParseOfLonger(stream[n..], more, m - 1);
      assert (stream + more)[..n] == stream[..n] && (stream + more)[n..] == stream[n..] + more;
    }
  }

  /** A message by its own descriptors: chained and long queue messages say how many, others are one. */
  predicate WholeMessage(ds: seq<Info>) {
    ds != [] && |ds| == if ds[0].cnt > 1 && (ds[0].kind.LroChained? || ds[0].kind.Other?) then ds[0].cnt else 1
  }

  /** The beginning of a chained or long queue message, or nothing. */
  predicate Unfinished(ds: seq<Info>) {
    ds != [] ==> |ds| < ds[0].cnt && (ds[0].kind.LroChained? || ds[0].kind.Other?)
  }

  function Concat(ms: seq<seq<Info>>): seq<Info> {
    if ms == [] then [] else ms[0] + Concat(ms[1..])
  }

  predicate AllWhole(ms: seq<seq<Info>>) { ms == [] || (WholeMessage(ms[0]) && AllWhole(ms[1..])) }

  function MsgsOf(ms: seq<seq<Info>>): (r: seq<Msg>)
    requires AllWhole(ms)
    ensures |r| == |ms|
  {
    if ms == [] then [] else [MsgOf(ms[0])] + MsgsOf(ms[1..])
  }

  /**
    Parsing inverts concatenation: of whole messages one after the other, and perhaps the
    beginning of a further one, exactly those messages are found.
   */
  lemma {:induction false} ParseInvertsConcat(ms: seq<seq<Info>>, part: seq<Info>, max: nat)
    requires AllWhole(ms) && Unfinished(part) && |ms| <= max
    ensures Parse(Concat(ms) + part, max) == MsgsOf(ms)
    ensures Parsed(Concat(ms) + part, max) == |Concat(ms)|
  {
    hide MsgOf, MsgLen;
    if ms == [] {
      assert Concat([]) + part == part;
      PartIsIncomplete(part);
    } else {
      FirstWhole(ms, part);
      hide Parse, Parsed, Complete, Concat, WholeMessage;
      ParseInvertsConcat(ms[1..], part, max - 1);
      ParseHead(Concat(ms) + part, max);
    }
  }

  /** With a smaller limit exactly the first messages are found. */
  lemma {:induction false} ParseStopsAtLimit(ms: seq<seq<Info>>, part: seq<Info>, max: nat)
    requires AllWhole(ms) && max <= |ms|
    ensures Parse(Concat(ms) + part, max) == MsgsOf(ms)[..max]
  {
    hide MsgOf, MsgLen;
    if max > 0 {
      FirstWhole(ms, part);
      ParseStopsAtLimit(ms[1..], part, max - 1);
      hide Parse, Complete, Concat, WholeMessage;
      ParseHead(Concat(ms) + part, max);
    }
  }

  lemma FirstWhole(ms: seq<seq<Info>>, part: seq<Info>)
    requires AllWhole(ms) && ms != []
    ensures var stream, n := Concat(ms) + part, |ms[0]|;
      && Complete(stream) && n == MsgLen(stream[0]) && |Concat(ms)| == n + |Concat(ms[1..])|
      && stream[..n] == ms[0] && stream[n..] == Concat(ms[1..]) + part
  {
    hide MsgLen;
    WholeIsMsgLen(ms[0]);
    Joined(ms[0], Concat(ms[1..]), part);
  }

  lemma Joined(a: seq<Info>, b: seq<Info>, c: seq<Info>)
    requires a != []
    ensures var s := a + b + c; s[0] == a[0] && s[..|a|] == a && s[|a|..] == b + c
  {}

  lemma WholeIsMsgLen(ds: seq<Info>)
    ensures WholeMessage(ds) <==> ds != [] && |ds| == MsgLen(ds[0])
  {}

  lemma PartIsIncomplete(part: seq<Info>)
    requires Unfinished(part)
    ensures !Complete(part)
  {}

  function Positions(n: nat): (r: seq<nat>)
    ensures |r| == n
  {
    seq(n, i requires 0 <= i => i)
  }

  /** One more complete message. */
  lemma ParseNext(s: seq<Info>, k: nat)
    requires |Parse(s, k)| == k && Complete(s[Parsed(s, k)..])
    ensures var p := Parsed(s, k); var n := MsgLen(s[p]);
      && p + n <= |s|
      && Parse(s, k + 1) == Parse(s, k) + [MsgOf(s[p..p + n])] && Parsed(s, k + 1) == p + n
      && (Legal(s[p..]) ==> LegalHead(s[p]) && Legal(s[p + n..]))
  {
    hide MsgOf, MsgLen, Parse, Parsed;
    var p := Parsed(s, k);
    var rest, n := s[p..], MsgLen(s[p]);
    ParseInTwo(s, k, 1);
    assert rest[0] == s[p] && rest[..n] == s[p..p + n] && rest[n..] == s[p + n..];
    ParseHead(rest, 1);
    ParseNone(rest[n..]);
  }

  /** No complete message left: asking for more gives no more. */
  lemma ParseStop(s: seq<Info>, k: nat, max: nat)
    requires |Parse(s, k)| == k <= max && (k == max || !Complete(s[Parsed(s, k)..]))
    ensures Parse(s, max) == Parse(s, k) && Parsed(s, max) == Parsed(s, k)
  {
    hide Parse, Parsed, Complete;
    ParseInTwo(s, k, max - k);
    if k == max { ParseNone(s[Parsed(s, k)..]); } else { ParseEmpty(s[Parsed(s, k)..], max - k); }
  }

  // ----- the ring -----

  /** The index masks of the parser. */
  function Masked(consumer: nat, k: nat, size: nat): nat
    requires size > 0
  {
    BitAnd(consumer + k, size - 1)
  }

  lemma MaskedIsAt(i: nat, k: nat, n: nat)
    requires IsPow2(n)
    ensures Masked(At(i, n), k, n) == At(i + k, n)
  {
    MaskIsRemainder(At(i, n) + k, n);
    AtPlus(i, k, n);
  }

  /** The owner bits tell how far the card has written. */
  lemma HostMeansWritten(ring: seq<Desc>, stream: seq<Info>, pos: nat, k: nat)
    requires View(ring, stream, pos) && k < |ring|
    ensures ring[At(pos + k, |ring|)].host <==> pos + k < |stream|
    ensures pos + k < |stream| ==> ring[At(pos + k, |ring|)] == Desc(true, stream[pos + k])
  {}

  /**
    From position `pos` on, the ring holds the stream, host-owned; every other descriptor
    belongs to the card.
   */
  ghost predicate View(ring: seq<Desc>, stream: seq<Info>, pos: nat) {
    && |ring| > 0 && pos <= |stream| <= pos + |ring|
    && (forall i | pos <= i < |stream| :: ring[At(i, |ring|)] == Desc(true, stream[i]))
    && (forall i | |stream| <= i < pos + |ring| :: !ring[At(i, |ring|)].host)
  }

  /** Handing back the descriptor at `pos`. */
  lemma PassOne(ring: seq<Desc>, stream: seq<Info>, pos: nat)
    requires View(ring, stream, pos) && pos < |stream|
    ensures View(ring[At(pos, |ring|) := Desc(false, stream[pos])], stream, pos + 1)
  {
    hide At;
    var n := |ring|;
    var ring' := ring[At(pos, n) := Desc(false, stream[pos])];
    forall i | pos + 1 <= i < pos + n ensures At(i, n) != At(pos, n) { NoCollision(pos, i, n); }
    SameSlotNextTurn(pos, n);
  }

  /** The card's write at the end of the stream. */
  lemma CardWrites(ring: seq<Desc>, stream: seq<Info>, pos: nat, d: Info)
    requires View(ring, stream, pos) && !ring[At(|stream|, |ring|)].host
    ensures View(ring[At(|stream|, |ring|) := Desc(true, d)], stream + [d], pos)
  {
    hide At;
    var n := |ring|;
    SameSlotNextTurn(pos, n);
    assert |stream| > pos ==> ring[At(pos, n)].host;
    forall i | pos <= i < pos + n && i != |stream| ensures At(i, n) != At(|stream|, n) {
      if i < |stream| { NoCollision(i, |stream|, n); } else { NoCollision(|stream|, i, n); }
    }
  }

  // ----- a descriptor that is read after it has been handed back -----

  /** What the slot of position `p` holds, within two turns: the position itself or the next turn's. */
  function Current(stream: seq<Info>, p: nat, n: nat): Info
    requires p < |stream|
  {
    if p + n < |stream| then stream[p + n] else stream[p]
  }

  ghost predicate Kept(ring: seq<Desc>, stream: seq<Info>, p: nat) {
    |ring| > 0 && p < |stream| && ring[At(p, |ring|)].info == Current(stream, p, |ring|)
  }

  lemma KeptByCard(ring: seq<Desc>, stream: seq<Info>, p: nat, d: Info)
    requires Kept(ring, stream, p) && |stream| < p + 2 * |ring|
    ensures Kept(ring[At(|stream|, |ring|) := Desc(true, d)], stream + [d], p)
  {
    hide At;
    var n := |ring|;
    SameSlotNextTurn(p, n);
    if |stream| < p + n { NoCollision(p, |stream|, n); }
    if p + n < |stream| { NoCollision(p + n, |stream|, n); }
  }

  /** Handing back another descriptor, or this one, leaves its words. */
  lemma KeptByHandBack(ring: seq<Desc>, stream: seq<Info>, p: nat, i: nat)
    requires Kept(ring, stream, p) && p <= i < p + |ring| && i < |stream| && ring[At(i, |ring|)].info == stream[i]
    ensures Kept(ring[At(i, |ring|) := Desc(false, stream[i])], stream, p)
  {
    hide At;
    if p < i { NoCollision(p, i, |ring|); }
  }

  lemma KeptAtFirst(ring: seq<Desc>, stream: seq<Info>, p: nat)
    requires View(ring, stream, p) && p < |stream|
    ensures Kept(ring, stream, p)
  {}

  /** A read of word 0, which has opcode and count, and later of word 1. */
  function HeadRead(stream: seq<Info>, p: nat, n: nat, n0: nat, n1: nat): Info
    requires p < n0 <= n1 <= |stream|
  {
    var x, y := Current(stream[..n0], p, n), Current(stream[..n1], p, n);
    Info(x.kind, x.cnt, x.body0, y.body1)
  }

  /** Whatever follows, the head is read right as long as the card has not come round to it. */
  lemma HeadIsRight(stream: seq<Info>, p: nat, n: nat, n0: nat, n1: nat)
    requires p < n0 <= n1 <= |stream| && n1 <= p + n
    ensures HeadRead(stream, p, n, n0, n1) == stream[p]
  {}

  /**
    The exact limit.  Of a descriptor handed back at `p`, every legal continuation up to `limit`
    descriptors in all leaves the right words in its slot exactly when `limit` is within one turn.
   */
  lemma RightWithinLimitExactlyWhen(stream: seq<Info>, from: nat, p: nat, n: nat, limit: nat)
    requires from <= p < |stream| <= p + n && |stream| <= limit && Legal(stream[from..])
    ensures (forall more: seq<Info> | |stream + more| <= limit && Legal((stream + more)[from..]) ::
               Current(stream + more, p, n) == stream[p])
            <==> limit <= p + n
  {
    if limit > p + n {
      var d := Info(Receive, 1, if stream[p].body0 == 0 then 1 else 0, 0);
      var more := seq(p + n + 1 - |stream|, _ => d);
      LegalAppend(stream[from..], more);
      assert (stream + more)[from..] == stream[from..] + more;
      assert |stream + more| <= limit && Current(stream + more, p, n) == d;
    }
  }

  lemma {:induction false} LegalAppend(s: seq<Info>, more: seq<Info>)
    requires Legal(s) && forall i | 0 <= i < |more| :: more[i].kind.Receive?
    ensures Legal(s + more)
    decreases |s| + |more|
  {
    if s == [] {
      assert s + more == more;
      if more != [] { LegalAppend([], more[1..]); assert [] + more[1..] == more[1..]; }
    } else {
      var n := MsgLen(s[0]);
      if Complete(s) {
        LegalAppend(s[n..], more);
        assert (s + more)[n..] == s[n..] + more;
      } else if Complete(s + more) {
        LegalAppend([], more[n - |s|..]);
        assert [] + more[n - |s|..] == more[n - |s|..] == (s + more)[n..];
      }
    }
  }

  /**
    The front message of the ring is a complete chained one, whose first descriptor is handed
    back; the card writes `d` into that slot, and the handler reads the wrong message.
   */
  ghost predicate HeadOverwritten(ring: seq<Desc>, stream: seq<Info>, d: Info) {
    && View(ring, stream, 0) && Legal(stream + [d])
    && Complete(stream) && stream[0].kind.LroChained?
    && (var n := |ring|; var after := ring[At(0, n) := Desc(false, stream[0])];
        && View(after, stream, 1) && !after[At(|stream|, n)].host
        && View(after[At(|stream|, n) := Desc(true, d)], stream + [d], 1))
    && HeadRead(stream + [d], 0, |ring|, |stream| + 1, |stream| + 1) != stream[0]
  }

  /** It happens on every full ring, for every next descriptor that differs. */
  lemma FullRingOverwrites(ring: seq<Desc>, stream: seq<Info>, d: Info)
    requires View(ring, stream, 0) && |stream| == |ring| && Legal(stream + [d])
    requires Complete(stream) && stream[0].kind.LroChained? && d != stream[0]
    ensures HeadOverwritten(ring, stream, d)
  {
    hide At, Legal, Complete, View, HeadRead;
    ViewInBounds(ring, stream, 0);
    ReadOfNextTurn(stream, d);
    PassOne(ring, stream, 0);
    SameSlotNextTurn(0, |ring|);
    CardWrites(ring[At(0, |ring|) := Desc(false, stream[0])], stream, 1, d);
  }

  lemma ReadOfNextTurn(stream: seq<Info>, d: Info)
    requires stream != []
    ensures HeadRead(stream + [d], 0, |stream|, |stream| + 1, |stream| + 1) == d
  {
    assert (stream + [d])[..|stream| + 1] == stream + [d];
  }

  /** A ring of eight with a chained message of three descriptors in front. */
  lemma ChainedHeadIsOverwritten()
    ensures exists ring, stream, d :: |ring| == 8 && HeadOverwritten(ring, stream, d)
  {
    hide HeadOverwritten, View;
    var c, r := Info(LroChained, 3, 0, 0), Info(Receive, 1, 0, 0);
    var stream := [c, r, r, r, r, r, r, r];
    var ring := seq(8, i requires 0 <= i < 8 => Desc(true, stream[i]));
    FullView(ring, stream);
    ThreeThenReceives(c, r);
    assert stream + [r] == [c, r, r] + [r, r, r, r, r, r];
    FullRingOverwrites(ring, stream, r);
  }

  lemma FullView(ring: seq<Desc>, stream: seq<Info>)
    requires 0 < |ring| == |stream| && forall i | 0 <= i < |ring| :: ring[i] == Desc(true, stream[i])
    ensures View(ring, stream, 0)
  {
    forall i: nat | i < |ring| ensures At(i, |ring|) == i { DivModIs(i, |ring|, 0, i); }
  }

  lemma ThreeThenReceives(c: Info, r: Info)
    requires c.kind.LroChained? && c.cnt == 3 && r.kind.Receive?
    ensures Legal([c, r, r] + [r, r, r, r, r, r])
  {
    assert [c, r, r][3..] == [];
    LegalAppend([c, r, r], [r, r, r, r, r, r]);
  }

  // ----- the messages handed to the handlers -----

  /** Equal, or chained messages that differ in their first descriptor at most. */
  predicate Agree(m: Msg, m': Msg) { m == m' || (m.Chained? && m'.Chained? && m.rest == m'.rest) }

  predicate AllAgree(ms: seq<Msg>, ms': seq<Msg>) {
    |ms| == |ms'| && forall i | 0 <= i < |ms| :: Agree(ms[i], ms'[i])
  }

  lemma AgreeAppend(a: seq<Msg>, b: seq<Msg>, a': seq<Msg>, b': seq<Msg>)
    requires AllAgree(a, a') && AllAgree(b, b')
    ensures AllAgree(a + b, a' + b')
  {}

  /** What the handler gets of the message `ds`, if its head is read as `head`. */
  function WithHead(ds: seq<Info>, head: Info): Msg
    requires ds != [] && |ds| == MsgLen(ds[0])
  {
    match MsgOf(ds) case Chained(_, rest) => Chained(head, rest) case m => m
  }

  /** State of the parser loop: `k` messages done, `at` descriptors passed, consumer `cons`. */
  ghost predicate Progress(ring: seq<Desc>, stream: seq<Info>, s: seq<Info>, pos0: nat, k: nat, at: nat, cons: nat) {
    Done(stream, s, pos0, k, at) && View(ring, stream, at) && cons == At(at, |ring|)
  }

  ghost predicate Done(stream: seq<Info>, s: seq<Info>, pos0: nat, k: nat, at: nat) {
    && pos0 <= at <= |stream| && s == stream[pos0..]
    && |Parse(s, k)| == k && at == pos0 + Parsed(s, k)
    && Legal(stream[at..])
  }

  lemma DoneNothing(stream: seq<Info>, pos: nat)
    requires pos <= |stream| && Legal(stream[pos..])
    ensures Done(stream, stream[pos..], pos, 0, pos) && Parse(stream[pos..], 0) == []
  {}

  lemma DoneNext(stream: seq<Info>, s: seq<Info>, pos0: nat, k: nat, at: nat)
    requires Done(stream, s, pos0, k, at) && Complete(stream[at..])
    ensures var n := MsgLen(stream[at]);
      && at + n <= |stream| && Done(stream, s, pos0, k + 1, at + n)
      && Parse(s, k + 1) == Parse(s, k) + [MsgOf(stream[at..at + n])]
  {
    hide Parse, Parsed, Legal, MsgOf, MsgLen;
    var p, n := Parsed(s, k), MsgLen(stream[at]);
    assert s[p..] == stream[at..];
    ParseNext(s, k);
    assert s[p] == stream[at] && s[p..p + n] == stream[at..at + n] && s[p + n..] == stream[at + n..];
  }

  /** What has been handled does not depend on what the card writes afterwards. */
  lemma DoneGrows(stream: seq<Info>, longer: seq<Info>, pos0: nat, k: nat, at: nat)
    requires stream <= longer && pos0 <= |stream| && Legal(longer[pos0..])
    requires Done(stream, stream[pos0..], pos0, k, at)
    ensures Done(longer, longer[pos0..], pos0, k, at) && Parse(longer[pos0..], k) == Parse(stream[pos0..], k)
  {
    hide Parse, Parsed, Legal;
    assert longer[pos0..] == stream[pos0..] + longer[|stream|..];
    ParseOfLonger(stream[pos0..], longer[|stream|..], k);
    LegalAfter(longer[pos0..], k);
    assert longer[pos0..][at - pos0..] == longer[at..];
  }

  lemma {:induction false} LegalAfter(s: seq<Info>, k: nat)
    requires Legal(s) && |Parse(s, k)| == k
    ensures Legal(s[Parsed(s, k)..])
  {
    hide MsgOf, MsgLen;
    if k == 0 {
      assert s[0..] == s;
    } else {
      var n := MsgLen(s[0]);
      LegalAfter(s[n..], k - 1);
      assert s[n..][Parsed(s[n..], k - 1)..] == s[Parsed(s, k)..];
    }
  }

  lemma StillComplete(stream: seq<Info>, longer: seq<Info>, at: nat)
    requires stream <= longer && at < |stream| && Complete(stream[at..])
    ensures Complete(longer[at..]) && longer[at] == stream[at] && at + MsgLen(stream[at]) <= |stream|
    ensures longer[at..at + MsgLen(stream[at])] == stream[at..at + MsgLen(stream[at])]
  {
    hide MsgLen;
  }

  lemma HeadIsLegal(s: seq<Info>)
    requires Legal(s)
    ensures s != [] ==> LegalHead(s[0])
  {}

  lemma ParseOfPrefix(stream: seq<Info>, longer: seq<Info>, m: nat)
    requires stream <= longer && |Parse(stream, m)| == m
    ensures Parse(longer, m) == Parse(stream, m) && Parsed(longer, m) == Parsed(stream, m)
  {
    hide Parse, Parsed;
    assert longer == stream + longer[|stream|..];
    ParseOfLonger(stream, longer[|stream|..], m);
  }

  lemma WholeRun(stream: seq<Info>, longer: seq<Info>, pos0: nat, k: nat, at: nat, b: nat)
    requires stream <= longer && pos0 <= |longer| && Done(longer, longer[pos0..], pos0, k, at)
    requires |Parse(stream, b)| == b && pos0 == Parsed(stream, b)
    ensures Parse(longer, b + k) == Parse(stream, b) + Parse(longer[pos0..], k)
    ensures at == Parsed(longer, b + k)
  {
    hide *;
    ParseOfPrefix(stream, longer, b);
    DoneInAll(longer, pos0, k, at, b);
  }

  lemma DoneMeans(stream: seq<Info>, s: seq<Info>, pos0: nat, k: nat, at: nat)
    requires Done(stream, s, pos0, k, at)
    ensures at <= |stream| && Legal(stream[at..]) && |Parse(s, k)| == k
    ensures at == pos0 + Parsed(s, k) && s[Parsed(s, k)..] == stream[at..]
  {}

  lemma ViewInBounds(ring: seq<Desc>, stream: seq<Info>, pos: nat)
    requires View(ring, stream, pos)
    ensures 0 < |ring| && pos <= |stream| <= pos + |ring|
  {}

  /** The message counts and positions of the whole run, after `k` more messages. */
  lemma DoneInAll(stream: seq<Info>, pos0: nat, k: nat, at: nat, b: nat)
    requires pos0 <= |stream| && Done(stream, stream[pos0..], pos0, k, at)
    requires |Parse(stream, b)| == b && pos0 == Parsed(stream, b)
    ensures Parse(stream, b + k) == Parse(stream, b) + Parse(stream[pos0..], k)
    ensures at == Parsed(stream, b + k)
  {
    hide *;
    DoneMeans(stream, stream[pos0..], pos0, k, at);
    ParseInTwo(stream, b, k);
  }

  lemma MsgShape(ds: seq<Info>, d: Info)
    requires ds != [] && ds[0] == d && |ds| == MsgLen(d) && LegalHead(d)
    ensures MsgOf(ds) ==
      match d.kind
      case Receive => Received(d)
      case LroContiguous => Contiguous(d)
      case LroChained => Chained(d, ds[1..|ds| - 1])
      case Other =>
        if d.cnt > 1 then Queue(d.body0, [d.body1] + Words(ds[1..|ds| - 1])) else Queue(d.body0, [d.body0, d.body1])
  {}

  lemma RightUnlessOvertaken(stream: seq<Info>, at: nat, n: nat, n0: nat, n1: nat)
    requires at < n0 <= n1 <= |stream| && at + MsgLen(stream[at]) <= |stream|
    ensures var ds := stream[at..at + MsgLen(stream[at])];
      var msg := WithHead(ds, HeadRead(stream, at, n, n0, n1));
      Agree(msg, MsgOf(ds)) && (!stream[at].kind.LroChained? || n1 <= at + n ==> msg == MsgOf(ds))
  {
    hide MsgOf, MsgLen, HeadRead, WithHead, Agree;
    HeadShape(stream[at..at + MsgLen(stream[at])]);
    if n1 <= at + n { HeadIsRight(stream, at, n, n0, n1); }
  }

  /** The messages handled are the right ones, in all parts unless one was overtaken. */
  ghost predicate Told(hs: seq<Msg>, ps: seq<Msg>, overtaken: bool) {
    AllAgree(hs, ps) && (!overtaken ==> hs == ps)
  }

  lemma ToldNothing(overtaken: bool)
    ensures Told([], [], overtaken)
  {}

  lemma ToldStays(hs: seq<Msg>, ps: seq<Msg>, before: bool, overtaken: bool)
    requires Told(hs, ps, before) && (before ==> overtaken)
    ensures Told(hs, ps, overtaken)
  {}

  lemma ToldOneMore(hs: seq<Msg>, ps: seq<Msg>, before: bool, m: Msg, m': Msg, overtaken: bool)
    requires Told(hs, ps, before) && Agree(m, m') && (!overtaken ==> m == m') && (before ==> overtaken)
    ensures Told(hs + [m], ps + [m'], overtaken)
  {
    AgreeAppend(hs, [m], ps, [m']);
  }

  lemma AllAgreeLength(ms: seq<Msg>, ms': seq<Msg>)
    requires AllAgree(ms, ms')
    ensures |ms| == |ms'|
  {}

  /** All messages handled so far, after a call that handled `k` more. */
  lemma AgreeWholeRun(stream: seq<Info>, longer: seq<Info>, pos0: nat, k: nat, at: nat, hs: seq<Msg>, hs': seq<Msg>)
    requires stream <= longer && pos0 <= |longer| && Done(longer, longer[pos0..], pos0, k, at)
    requires AllAgree(hs, Parse(stream, |hs|)) && pos0 == Parsed(stream, |hs|)
    requires hs <= hs' && AllAgree(hs'[|hs|..], Parse(longer[pos0..], k))
    ensures |hs'| == |hs| + k && AllAgree(hs', Parse(longer, |hs'|)) && at == Parsed(longer, |hs'|)
    ensures Parse(longer, |hs'|) == Parse(stream, |hs|) + Parse(longer[pos0..], k)
  {
    hide *;
    AllAgreeLength(hs, Parse(stream, |hs|));
    AllAgreeLength(hs'[|hs|..], Parse(longer[pos0..], k));
    DoneMeans(longer, longer[pos0..], pos0, k, at);
    WholeRun(stream, longer, pos0, k, at, |hs|);
    assert hs' == hs + hs'[|hs|..];
    AgreeAppend(hs, hs'[|hs|..], Parse(stream, |hs|), Parse(longer[pos0..], k));
  }

  lemma WithHeadShape(ds: seq<Info>, d: Info, head: Info)
    requires ds != [] && ds[0] == d && |ds| == MsgLen(d) && LegalHead(d)
    ensures WithHead(ds, head) == if d.kind.LroChained? then Chained(head, ds[1..|ds| - 1]) else MsgOf(ds)
  {}

  lemma HeadShape(ds: seq<Info>)
    requires ds != [] && |ds| == MsgLen(ds[0])
    ensures Agree(WithHead(ds, ds[0]), MsgOf(ds)) && WithHead(ds, ds[0]) == MsgOf(ds)
    ensures forall head :: Agree(WithHead(ds, head), MsgOf(ds))
    ensures !ds[0].kind.LroChained? ==> forall head :: WithHead(ds, head) == MsgOf(ds)
  {}

  // ----- the parser -----

  class StatusRing {
    const ring: array<Desc>
    /** host_sds_ring->consumer, and the card's consumer register. */
    var consumer: nat
    var consumerReg: nat
    /** Whether the card never writes a whole turn beyond the consumer register. */
    const respectful: bool
    /** The handler calls made so far. */
    var handled: seq<Msg>
    /** Everything the card has written; the message boundary the last call stopped at. */
    var stream: seq<Info>
    var pos: nat
    /** The positions handed back to the card, in order. */
    ghost var returned: seq<nat>
    /** A handler has read a descriptor the card had come round to. */
    ghost var overtaken: bool

    ghost predicate Valid()
      reads this, ring
    {
      && IsPow2(ring.Length) && 7 <= ring.Length
      && View(ring[..], stream, pos)
      && consumer == consumerReg == At(pos, ring.Length)
      && CardOk()
      // messages are handled whole, in order, and the consumer is at a message boundary
      && AllAgree(handled, Parse(stream, |handled|)) && pos == Parsed(stream, |handled|)
      && (!overtaken ==> handled == Parse(stream, |handled|))
      // every descriptor passed over has been returned once
      && returned == Positions(pos)
    }

    /** What the card keeps to, wherever the parser is. */
    ghost predicate CardOk()
      reads this
    {
      && pos <= |stream| && Legal(stream[pos..])
      && (respectful ==> |stream| <= pos + ring.Length && !overtaken)
    }

    constructor (size: nat, blank: Info, respectful: bool)
      requires IsPow2(size) && 7 <= size
      ensures Valid() && fresh(ring) && stream == [] && handled == [] && this.respectful == respectful
    {
      this.respectful, overtaken := respectful, false;
      ring := new Desc[size](_ => Desc(false, blank));
      consumer, consumerReg, handled := 0, 0, [];
      stream, pos, returned := [], 0, [];
      new;
      DivModIs(0, size, 0, 0);
    }

    /** The card appends a descriptor to the slot it owns, keeping the stream legal. */
    method CardWrite(slot: nat, d: Info)
      requires Valid() && slot == At(|stream|, ring.Length)
      requires !ring[slot].host && Legal((stream + [d])[pos..])
      modifies ring, this`stream
      ensures Valid() && stream == old(stream) + [d] && ring[..] == old(ring[..])[slot := Desc(true, d)]
    {
      hide Parse, Parsed, Legal, At, IsPow2;
      CardWrites(ring[..], stream, pos, d);
      ParseOfLonger(stream, [d], |handled|);
      ring[slot] := Desc(true, d);
      stream := stream + [d];
    }

    /**
      Any number of writes of the card, at any moment; `at` descriptors have been passed over.  The
      words of one passed before, `p`, stay until the card comes round to it.
     */
    method CardMayWrite(ghost at: nat, ghost p: nat)
      requires View(ring[..], stream, at) && CardOk()
      modifies ring, this`stream
      ensures View(ring[..], stream, at) && old(stream) <= stream && CardOk()
      ensures p <= at < p + ring.Length && Kept(old(ring[..]), old(stream), p) ==> Kept(ring[..], stream, p)
    {
      hide Legal, View, At, Kept;
      ViewInBounds(ring[..], stream, at);
      ghost var kept := p <= at < p + ring.Length && Kept(ring[..], stream, p);
      var writes: nat := *;
      while writes > 0
        invariant View(ring[..], stream, at) && old(stream) <= stream && CardOk()
        invariant kept ==> Kept(ring[..], stream, p)
      {
        var d: Info := *;
        var slot := At(|stream|, ring.Length);
        if !ring[slot].host && Legal((stream + [d])[pos..]) && (!respectful || |stream| < pos + ring.Length) {
          ViewInBounds(ring[..], stream, at);
          CardWrites(ring[..], stream, at, d);
          if kept { KeptByCard(ring[..], stream, p, d); }
          ring[slot] := Desc(true, d);
          stream := stream + [d];
        }
        writes := writes - 1;
      }
    }

    /**
      Reading on over `n` more descriptors of a message, handing each back: the descriptors, for a
      chained message, and their words, for a queue message.
     */
    method TakeMiddle(cons: nat, n: nat, ghost at: nat) returns (cons': nat, infos: seq<Info>, words: seq<bv64>)
      requires IsPow2(ring.Length) && cons == At(at, ring.Length)
      requires View(ring[..], stream, at + 1) && at + 1 + n <= |stream| && returned == Positions(at + 1)
      requires CardOk() && n + 1 < ring.Length && Kept(ring[..], stream, at)
      modifies ring, this`returned, this`stream
      ensures old(stream) <= stream && CardOk()
      ensures cons' == At(at + n, ring.Length) && View(ring[..], stream, at + n + 1)
      ensures infos == stream[at + 1..at + 1 + n] && returned == Positions(at + n + 1)
      ensures words == Words(infos)
      ensures Kept(ring[..], stream, at)
    {
      hide At, IsPow2, Masked, View, Legal, Kept, Words;
      cons', infos, words := cons, [], [];
      WordsOneMore([], stream[at]);
      var i := 0;
      while i < n
        invariant 0 <= i <= n && cons' == At(at + i, ring.Length)
        invariant old(stream) <= stream && CardOk()
        invariant View(ring[..], stream, at + i + 1) && Kept(ring[..], stream, at)
        invariant infos == stream[at + 1..at + 1 + i] && returned == Positions(at + i + 1)
        invariant words == Words(infos)
        modifies ring, this`returned, this`stream
      {
        ghost var before := stream;
        CardMayWrite(at + i + 1, at);
        assert stream[at + 1..at + 1 + i] == before[at + 1..at + 1 + i];
        MaskedIsAt(at + i, 1, ring.Length);
        HostMeansWritten(ring[..], stream, at + i + 1, 0);
        PassOne(ring[..], stream, at + i + 1);
        KeptByHandBack(ring[..], stream, at, at + i + 1);
        cons' := Masked(cons', 1, ring.Length);
        assert stream[at + 1..at + 1 + (i + 1)] == stream[at + 1..at + 1 + i] + [stream[at + 1 + i]];
        WordsOneMore(infos, ring[cons'].info);
        infos := infos + [ring[cons'].info];
        words := words + [ring[cons'].info.body0, ring[cons'].info.body1];
        ring[cons'] := Desc(false, ring[cons'].info);
        returned := returned + [at + i + 1];
        i := i + 1;
      }
    }

    /** Set the owner of the descriptor at `cons` back to the card. */
    method HandBack(cons: nat, ghost at: nat)
      requires 0 < ring.Length && cons == At(at, ring.Length)
      requires View(ring[..], stream, at) && at < |stream| && returned == Positions(at)
      modifies ring, this`returned
      ensures View(ring[..], stream, at + 1) && returned == Positions(at + 1) && Kept(ring[..], stream, at)
    {
      hide At, Kept;
      HostMeansWritten(ring[..], stream, at, 0);
      PassOne(ring[..], stream, at);
      KeptAtFirst(ring[..], stream, at);
      KeptByHandBack(ring[..], stream, at, at);
      ring[cons] := Desc(false, ring[cons].info);
      returned := returned + [at];
    }

    /** Hand back the last descriptor of a message and move on to the next one. */
    method PassLast(cons: nat, ghost at: nat) returns (cons': nat)
      requires IsPow2(ring.Length) && cons == At(at, ring.Length)
      requires View(ring[..], stream, at) && at < |stream| && returned == Positions(at)
      requires CardOk()
      modifies ring, this`returned, this`stream
      ensures old(stream) <= stream && CardOk()
      ensures View(ring[..], stream, at + 1) && returned == Positions(at + 1)
      ensures cons' == At(at + 1, ring.Length)
    {
      hide At, View, Positions, Masked, Legal;
      CardMayWrite(at, at);
      HandBack(cons, at);
      MaskedIsAt(at, 1, ring.Length);
      cons' := Masked(cons, 1, ring.Length);
    }

    /** The first descriptor of a long message and the middle ones; `cons` moves to the last. */
    method TakeLong(cons: nat, cnt: nat, ghost at: nat) returns (cons': nat, infos: seq<Info>, words: seq<bv64>)
      requires IsPow2(ring.Length) && cons == At(at, ring.Length) && 2 <= cnt <= ring.Length
      requires View(ring[..], stream, at) && at + cnt <= |stream| && returned == Positions(at)
      requires CardOk()
      modifies ring, this`returned, this`stream
      ensures old(stream) <= stream && CardOk()
      ensures cons' == At(at + cnt - 1, ring.Length) && View(ring[..], stream, at + cnt - 1)
      ensures infos == stream[at..at + cnt][1..cnt - 1] && words == Words(infos) && returned == Positions(at + cnt - 1)
      ensures Kept(ring[..], stream, at)
    {
      hide At, View, Positions, Masked, Legal, Kept, Words;
      HandBack(cons, at);
      cons', infos, words := TakeMiddle(cons, cnt - 2, at);
      MaskedIsAt(at + cnt - 2, 1, ring.Length);
      cons' := Masked(cons', 1, ring.Length);
      assert stream[at..at + cnt][1..cnt - 1] == stream[at + 1..at + 1 + (cnt - 2)];
    }

    /**
      unm_process_lro reads the first descriptor, number `p`, in its slot, which the card owns by
      now: word 0 first and word 1 later, with `n0` and `n1` descriptors written.
     */
    method ReadHead(slot: nat, ghost p: nat, ghost at: nat) returns (head: Info, ghost n0: nat, ghost n1: nat)
      requires 0 < ring.Length && slot == At(p, ring.Length) && p < at < p + ring.Length
      requires View(ring[..], stream, at) && CardOk() && Kept(ring[..], stream, p)
      modifies ring, this`stream
      ensures View(ring[..], stream, at) && CardOk() && old(stream) <= stream
      ensures p < |old(stream)| <= n0 <= n1 <= |stream| && head == HeadRead(stream, p, ring.Length, n0, n1)
    {
      hide Legal, View, At;
      CardMayWrite(at, p);
      n0 := |stream|;
      ghost var seen := stream;
      var word0 := ring[slot].info;
      CardMayWrite(at, p);
      n1 := |stream|;
      var word1 := ring[slot].info;
      assert stream[..n0] == seen && stream[..n1] == stream;
      head := Info(word0.kind, word0.cnt, word0.body0, word1.body1);
    }

    /** A complete chained LRO message: its descriptors but the last, and the handler. */
    method TakeChained(d: Info, cons: nat, ghost at: nat)
      returns (msg: Msg, cons': nat, ghost n0: nat, ghost n1: nat)
      requires IsPow2(ring.Length) && 7 <= ring.Length && cons == At(at, ring.Length)
      requires View(ring[..], stream, at) && returned == Positions(at) && CardOk()
      requires pos <= at && d.kind.LroChained? && LegalHead(d)
      requires at + d.cnt <= |stream| && d == stream[at]
      modifies ring, this`returned, this`stream, this`overtaken
      ensures old(stream) <= stream && CardOk() && at < n0 <= n1 <= |stream|
      ensures msg == Chained(HeadRead(stream, at, ring.Length, n0, n1), stream[at..at + d.cnt][1..d.cnt - 1])
      ensures overtaken == (old(overtaken) || n1 > at + ring.Length)
      ensures cons' == At(at + d.cnt - 1, ring.Length)
      ensures View(ring[..], stream, at + d.cnt - 1) && returned == Positions(at + d.cnt - 1)
    {
      hide At, View, Positions, Masked, IsPow2, Kept, HeadRead, Legal;
      var infos, words;
      cons', infos, words := TakeLong(cons, d.cnt, at);
      ghost var before := stream;
      var head;
      head, n0, n1 := ReadHead(cons, at, at + d.cnt - 1);
      assert stream[at..at + d.cnt] == before[at..at + d.cnt];
      overtaken := overtaken || n1 > at + ring.Length;
      msg := Chained(head, infos);
    }

    /** A complete queue message of several descriptors: its words are copied before any hand-back. */
    method TakeQueue(d: Info, cons: nat, ghost at: nat) returns (msg: Msg, cons': nat)
      requires IsPow2(ring.Length) && 7 <= ring.Length && cons == At(at, ring.Length)
      requires View(ring[..], stream, at) && returned == Positions(at) && CardOk()
      requires 2 <= d.cnt <= 5 && at + d.cnt <= |stream| && d == stream[at]
      modifies ring, this`returned, this`stream
      ensures old(stream) <= stream && CardOk()
      ensures msg == Queue(d.body0, [d.body1] + Words(stream[at..at + d.cnt][1..d.cnt - 1]))
      ensures cons' == At(at + d.cnt - 1, ring.Length)
      ensures View(ring[..], stream, at + d.cnt - 1) && returned == Positions(at + d.cnt - 1)
    {
      hide At, View, Positions, Masked, IsPow2, Kept, Legal, Words;
      var infos, words;
      cons', infos, words := TakeLong(cons, d.cnt, at);
      msg := Queue(d.body0, [d.body1] + words);
    }

    /** The switch on the opcode of `d`: all but the last descriptor of a complete message. */
    method TakeKind(d: Info, cons: nat, ghost at: nat)
      returns (complete: bool, msg: Msg, cons': nat, ghost n0: nat, ghost n1: nat)
      requires IsPow2(ring.Length) && 7 <= ring.Length && cons == At(at, ring.Length)
      requires View(ring[..], stream, at) && returned == Positions(at)
      requires pos <= at < |stream| && d == stream[at] && LegalHead(d)
      requires CardOk()
      modifies ring, this`returned, this`stream, this`overtaken
      ensures old(stream) <= stream && CardOk()
      ensures complete == Complete(stream[at..])
      ensures if complete then
          var last := at + MsgLen(d) - 1;
          && at < n0 <= n1 <= |stream|
          && msg == WithHead(stream[at..at + MsgLen(d)], HeadRead(stream, at, ring.Length, n0, n1))
          && overtaken == (old(overtaken) || (d.kind.LroChained? && n1 > at + ring.Length))
          && cons' == At(last, ring.Length) && View(ring[..], stream, last) && returned == Positions(last)
        else View(ring[..], stream, at) && returned == old(returned) && overtaken == old(overtaken)
    {
      hide At, View, Positions, Masked, IsPow2, MsgOf, Words, Legal, Kept, WithHead, HeadRead, CardOk;
      CardMayWrite(at, at);
      ghost var n := MsgLen(d);
      ViewInBounds(ring[..], stream, at);
      MaskedIsAt(at, n - 1, ring.Length);
      HostMeansWritten(ring[..], stream, at, n - 1);
      complete, msg, cons', n0, n1 := true, Received(d), cons, at + 1, at + 1;
      match d.kind {
        case Receive =>
        case LroContiguous =>
          msg := Contiguous(d);
        case LroChained =>
          var descCnt := d.cnt - 1;
          if !ring[Masked(cons, descCnt, ring.Length)].host {
            complete := false;
            return;
          }
          msg, cons', n0, n1 := TakeChained(d, cons, at);
        case Other =>
          if d.cnt > 1 {
            if !ring[Masked(cons, d.cnt - 1, ring.Length)].host {
              complete := false;
              return;
            }
            msg, cons' := TakeQueue(d, cons, at);
          } else {
            msg := Queue(d.body0, [d.body0, d.body1]);
          }
      }
      MsgShape(stream[at..at + n], d);
      WithHeadShape(stream[at..at + n], d, HeadRead(stream, at, ring.Length, n0, n1));
    }

    /**
      One turn of the parser loop.  The message at the consumer is taken when it is complete;
      otherwise nothing is handed back.
     */
    method TakeMessage(cons: nat, ghost at: nat) returns (msgs: seq<Msg>, cons': nat, lroWaits: bool)
      requires IsPow2(ring.Length) && 7 <= ring.Length && cons == At(at, ring.Length) && pos <= at
      requires View(ring[..], stream, at) && Legal(stream[at..]) && returned == Positions(at)
      requires CardOk()
      modifies ring, this`returned, this`stream, this`overtaken
      ensures old(stream) <= stream && CardOk() && (old(overtaken) ==> overtaken)
      ensures lroWaits <==> at < |stream| && stream[at].kind.LroChained? && !Complete(stream[at..])
      ensures if Complete(stream[at..]) then
          var msg := MsgOf(stream[at..at + MsgLen(stream[at])]);
          && |msgs| == 1 && Agree(msgs[0], msg) && (!overtaken ==> msgs[0] == msg)
          && cons' == At(at + MsgLen(stream[at]), ring.Length)
          && View(ring[..], stream, at + MsgLen(stream[at])) && returned == Positions(at + MsgLen(stream[at]))
        else msgs == [] && View(ring[..], stream, at) && returned == old(returned)
    {
      hide At, View, Positions, Masked, IsPow2, MsgOf, Words, WithHead, HeadRead;
      ViewInBounds(ring[..], stream, at);
      HeadIsLegal(stream[at..]);
      hide Legal, LegalHead, MsgLen;
      HostMeansWritten(ring[..], stream, at, 0);
      var desc := ring[cons];
      if !desc.host {
        return [], cons, false;
      }
      assert desc.info == stream[at] == stream[at..][0];
      var complete, msg, last;
      ghost var n0, n1;
      complete, msg, last, n0, n1 := TakeKind(desc.info, cons, at);
      if !complete {
        return [], cons, desc.info.kind.LroChained?;
      }
      RightUnlessOvertaken(stream, at, ring.Length, n0, n1);
      ghost var before := stream;
      cons' := PassLast(last, at + MsgLen(desc.info) - 1);
      StillComplete(before, stream, at);
      msgs, lroWaits := [msg], false;
    }

    /** The parser loop after `k` messages of this call, `hs`, with `at` descriptors passed. */
    ghost predicate Turn(k: nat, at: nat, cons: nat, hs: seq<Msg>)
      reads this, ring
    {
      && CardOk() && IsPow2(ring.Length) && 7 <= ring.Length
      && Progress(ring[..], stream, stream[pos..], pos, k, at, cons) && returned == Positions(at)
      && Told(hs, Parse(stream[pos..], k), overtaken)
    }

    /** One more message, if it is complete. */
    method HandleNext(cons: nat, at: nat, ghost k: nat, ghost hs: seq<Msg>)
      returns (msgs: seq<Msg>, cons': nat, at': nat, lroWaits: bool)
      requires Turn(k, at, cons, hs)
      modifies ring, this`handled, this`returned, this`stream, this`overtaken
      ensures old(stream) <= stream && (old(overtaken) ==> overtaken) && handled == old(handled) + msgs
      ensures if msgs == [] then
          && Turn(k, at, cons, hs) && at <= |stream| && !Complete(stream[at..])
          && (lroWaits <==> at < |stream| && stream[at].kind.LroChained?)
        else Turn(k + 1, at', cons', hs + msgs)
    {
      hide Parse, Parsed, Legal, At, IsPow2, View, Masked, MsgOf, Positions, Complete, MsgLen, Done, Told, Agree;
      ghost var before := stream;
      ViewInBounds(ring[..], stream, at);
      CardMayWrite(at, at);
      DoneGrows(before, stream, pos, k, at);
      DoneMeans(stream, stream[pos..], pos, k, at);
      before := stream;
      ghost var wasOvertaken := overtaken;
      msgs, cons', lroWaits := TakeMessage(cons, at);
      at' := at;
      DoneGrows(before, stream, pos, k, at);
      if msgs == [] {
        ToldStays(hs, Parse(stream[pos..], k), wasOvertaken, overtaken);
        return;
      }
      DoneNext(stream, stream[pos..], pos, k, at);
      assert msgs == [msgs[0]];
      ToldOneMore(hs, Parse(stream[pos..], k), wasOvertaken, msgs[0],
                  MsgOf(stream[at..at + MsgLen(stream[at])]), overtaken);
      handled := handled + msgs;
      at' := at + MsgLen(stream[at]);
    }

    /** The loop of the parser: `hs` is what it handles, and the next message is not complete. */
    method HandleMessages(max: nat) returns (count: nat, cons: nat, at: nat, ghost k: nat, ghost hs: seq<Msg>)
      requires Valid()
      modifies ring, this`handled, this`returned, this`stream, this`overtaken
      ensures old(stream) <= stream && (old(overtaken) ==> overtaken)
      ensures Turn(k, at, cons, hs) && handled == old(handled) + hs
      ensures at <= |stream| && k <= max && (k == max || !Complete(stream[at..]))
      ensures count == if 0 < k < max && at < |stream| && stream[at].kind.LroChained? then 1 else k
    {
      hide Parse, Parsed, Legal, At, IsPow2, View, Masked, MsgOf, Positions, Complete, MsgLen, Done, Told;
      count, cons, at, k, hs := 0, consumer, pos, 0, [];
      ViewInBounds(ring[..], stream, pos);
      DoneNothing(stream, pos);
      ToldNothing(overtaken);
      assert Turn(0, at, cons, []);
      while count < max
        invariant count == k <= max && old(stream) <= stream && (old(overtaken) ==> overtaken)
        invariant Turn(k, at, cons, hs) && handled == old(handled) + hs
        modifies ring, this`handled, this`returned, this`stream, this`overtaken
      {
        hide Turn;
        var msgs, cons', at', lroWaits := HandleNext(cons, at, k, hs);
        if msgs == [] {
          count := if lroWaits && count > 0 then 1 else count;
          return;
        }
        hs := hs + msgs;
        cons, at := cons', at';
        k := k + 1;
        count := count + 1;
      }
      DoneMeans(stream, stream[pos..], pos, k, at);
    }

    /**
      unm_process_rcv_ring: handle the complete messages at the consumer, at most `max`; `seen` is
      what the card has written by the last look at the ring.  The messages are right, except for
      the first descriptor of a chained one the card has come round to, which it never does if it
      respects the consumer register.  The result is the number handled, except that it is cut to
      1 when the parser stops at an LRO message that is not complete.
     */
    method Process(max: nat) returns (count: nat, ghost seen: seq<Info>)
      requires Valid()
      modifies this, ring
      ensures Valid() && old(stream) <= seen <= stream && (old(overtaken) ==> overtaken)
      ensures respectful || !overtaken ==> handled == old(handled) + Parse(seen[old(pos)..], max)
      ensures old(handled) <= handled && AllAgree(handled[|old(handled)|..], Parse(seen[old(pos)..], max))
      ensures pos == old(pos) + Parsed(seen[old(pos)..], max) <= |seen|
      ensures var k := |Parse(seen[old(pos)..], max)|;
        count == if 0 < k < max && pos < |seen| && seen[pos].kind.LroChained? then 1 else k
    {
      hide Parse, Parsed, Legal, At, IsPow2, View, Masked, MsgOf, Positions, Complete, MsgLen, Done, AllAgree;
      var cons, at;
      ghost var k, pos0, hs;
      pos0 := pos;
      count, cons, at, k, hs := HandleMessages(max);
      assert handled[|old(handled)|..] == hs;
      seen := stream;
      DoneMeans(stream, stream[pos0..], pos0, k, at);
      ParseStop(stream[pos0..], k, max);
      AgreeWholeRun(old(stream), stream, pos0, k, at, old(handled), handled);
      ViewInBounds(ring[..], stream, at);
      if count != 0 {
        consumer := cons;
        consumerReg := cons;
      } else {
        ParseNone(stream[pos0..]);
      }
      pos := at;
      CardMayWrite(at, at);
      AllAgreeLength(handled, Parse(seen, |handled|));
      ParseOfPrefix(seen, stream, |handled|);
    }
  }
}
