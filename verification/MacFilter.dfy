/**
  MAC filter synchronisation (nx_nic_p3_add_mac, nx_nic_p3_set_multi): on every change of the
  multicast list the driver computes, with three linked lists, which addresses to remove from
  and which to add to the card's filter.

  Filter commands are assumed to succeed.  Memory allocation may fail: `allocs` says, for
  each wanted address in turn, whether kmalloc would succeed.
 */
module MacFilter {

  type Mac = a: nat | a < 0x1_0000_0000_0000

  const BROADCAST: Mac := 0xffff_ffff_ffff

  /** A list cell; the id tells cells with equal addresses apart. */
  datatype Cell = Cell(id: nat, addr: Mac)

  datatype Cmd = RemoveMac(addr: Mac) | AddMac(addr: Mac)

  datatype MissMode = Drop | AcceptMulti | AcceptAll

  /** Adapter list, list of new cells and list of cells to delete, heads first. */
  datatype Lists = Lists(macs: seq<Cell>, add: seq<Cell>, del: seq<Cell>, nextId: nat)

  predicate HasAddr(cells: seq<Cell>, a: Mac) {
    exists i | 0 <= i < |cells| :: cells[i].addr == a
  }

  /** The first cell with address `a`. */
  function IndexOf(cells: seq<Cell>, a: Mac): (i: nat)
    requires HasAddr(cells, a)
    ensures i < |cells| && cells[i].addr == a && forall j | 0 <= j < i :: cells[j].addr != a
  {
    if cells[0].addr == a then 0
    else
      assert HasAddr(cells[1..], a) by {
        var i :| 0 <= i < |cells| && cells[i].addr == a;
        assert cells[1..][i - 1].addr == a;
      }
      1 + IndexOf(cells[1..], a)
  }

  /** nx_nic_p3_add_mac on the three lists. */
  function AddOne(ls: Lists, a: Mac, alloc: bool): Lists {
    if HasAddr(ls.del, a) then
      var i := IndexOf(ls.del, a);
      ls.(del := ls.del[..i] + ls.del[i + 1..], macs := [ls.del[i]] + ls.macs)
    else if HasAddr(ls.macs, a) || !alloc then ls
    else ls.(add := [Cell(ls.nextId, a)] + ls.add, nextId := ls.nextId + 1)
  }

  function AddAll(ls: Lists, wanted: seq<Mac>, allocs: seq<bool>): Lists
    requires |allocs| == |wanted|
  {
    if wanted == [] then ls
    else
      var n := |wanted| - 1;
      AddOne(AddAll(ls, wanted[..n], allocs[..n]), wanted[n], allocs[n])
  }

  lemma AddNone(ls: Lists)
    ensures AddAll(ls, [], []) == ls
  {}

  lemma AddAllStep(ls: Lists, wanted: seq<Mac>, allocs: seq<bool>, i: nat)
    requires |allocs| == |wanted| && i < |wanted|
    ensures AddAll(ls, wanted[..i + 1], allocs[..i + 1]) ==
            AddOne(AddAll(ls, wanted[..i], allocs[..i]), wanted[i], allocs[i])
  {
    hide AddOne;
    assert wanted[..i + 1][..i] == wanted[..i] && allocs[..i + 1][..i] == allocs[..i];
  }

  /** The addresses one call asks for. */
  function Wanted(own: Mac, multicast: seq<Mac>, mode: MissMode): seq<Mac> {
    [own, BROADCAST] + (if mode == Drop then multicast else [])
  }

  function Mode(promisc: bool, allMulti: bool, count: nat, maxCount: nat): MissMode {
    if promisc then AcceptAll else if allMulti || count > maxCount then AcceptMulti else Drop
  }

  /**
    Which mode a call sets and what it asks for.  The own and the broadcast address are always
    asked for; the multicast list only when neither promiscuous nor all-multicast mode is on and
    the card has room for the list.
   */
  lemma AskedFor(c: Call, a: Mac)
    ensures Mode(c.promisc, c.allMulti, |c.multicast|, c.maxCount) == AcceptAll <==> c.promisc
    ensures Mode(c.promisc, c.allMulti, |c.multicast|, c.maxCount) == AcceptMulti <==>
            !c.promisc && (c.allMulti || |c.multicast| > c.maxCount)
    ensures var listed := !c.promisc && !c.allMulti && |c.multicast| <= c.maxCount;
      var fixed := (if a == c.own then 1 else 0) + (if a == 0xffff_ffff_ffff then 1 else 0);
      Times(WantedBy(c), a) == fixed + (if listed then multiset(c.multicast)[a] else 0)
  {}

  function Reverse(s: seq<Cell>): (r: seq<Cell>)
    ensures multiset(r) == multiset(s)
  {
    if s == [] then [] else
      assert s == [s[0]] + s[1..];
      Reverse(s[1..]) + [s[0]]
  }

  lemma ReverseNone()
    ensures Reverse([]) == []
  {}

  lemma ReverseStep(s: seq<Cell>, i: nat, rest: seq<Cell>)
    requires i < |s|
    ensures Reverse(s[i..]) + rest == Reverse(s[i + 1..]) + ([s[i]] + rest)
  {
    assert s[i..][1..] == s[i + 1..];
  }

  // ----- what the three lists hold, by counting -----

  function Count(cells: seq<Cell>, a: Mac): nat {
    if cells == [] then 0 else (if cells[0].addr == a then 1 else 0) + Count(cells[1..], a)
  }

  function Times(wanted: seq<Mac>, a: Mac): nat { multiset(wanted)[a] }

  /** How often `a` is wanted at a moment when its cell can be allocated. */
  function Allocated(wanted: seq<Mac>, allocs: seq<bool>, a: Mac): (k: nat)
    requires |allocs| == |wanted|
  {
    if wanted == [] then 0
    else
      var n := |wanted| - 1;
      Allocated(wanted[..n], allocs[..n], a) + (if wanted[n] == a && allocs[n] then 1 else 0)
  }

  function Min(x: nat, y: nat): nat { if x < y then x else y }

  /**
    Kept: each old cell of a wanted address, at most once per mention.  Deleted: the other old
    cells.  Added: a cell per mention of an address that had none.
   */
  ghost predicate Tallied(before: seq<Cell>, wanted: seq<Mac>, allocs: seq<bool>, ls: Lists, a: Mac)
    requires |allocs| == |wanted|
  {
    && Count(ls.macs, a) == Min(Count(before, a), Times(wanted, a))
    && Count(ls.del, a) == Count(before, a) - Count(ls.macs, a)
    && Count(ls.add, a) == if Count(before, a) == 0 then Allocated(wanted, allocs, a) else 0
  }

  lemma {:induction false} CountAppend(x: seq<Cell>, y: seq<Cell>, a: Mac)
    ensures Count(x + y, a) == Count(x, a) + Count(y, a)
  {
    if x == [] { assert x + y == y; } else {
      CountAppend(x[1..], y, a);
      assert (x + y)[1..] == x[1..] + y;
    }
  }

  lemma CountOne(c: Cell, s: seq<Cell>, a: Mac)
    ensures Count([c] + s, a) == (if c.addr == a then 1 else 0) + Count(s, a)
  {
    assert ([c] + s)[1..] == s;
  }

  lemma {:induction false} CountPositive(cells: seq<Cell>, a: Mac)
    ensures HasAddr(cells, a) <==> Count(cells, a) > 0
  {
    if cells != [] {
      CountPositive(cells[1..], a);
      if HasAddr(cells, a) && cells[0].addr != a {
        var i :| 0 <= i < |cells| && cells[i].addr == a;
        assert cells[1..][i - 1].addr == a;
      }
      if HasAddr(cells[1..], a) {
        var i :| 0 <= i < |cells[1..]| && cells[1..][i].addr == a;
        assert cells[i + 1].addr == a;
      }
    }
  }

  lemma {:induction false} AddAllTally(before: seq<Cell>, nextId: nat, wanted: seq<Mac>, allocs: seq<bool>, a: Mac)
    requires |allocs| == |wanted|
    ensures Tallied(before, wanted, allocs, AddAll(Lists([], [], before, nextId), wanted, allocs), a)
  {
    hide AddOne;
    if wanted != [] {
      var n := |wanted| - 1;
      var ls := AddAll(Lists([], [], before, nextId), wanted[..n], allocs[..n]);
      AddAllTally(before, nextId, wanted[..n], allocs[..n], a);
      AddOneCounts(ls, wanted[n], allocs[n], a);
      assert wanted == wanted[..n] + [wanted[n]];
    }
  }

  lemma CountRemoved(s: seq<Cell>, i: nat, a: Mac)
    requires i < |s|
    ensures Count(s, a) == Count(s[..i] + s[i + 1..], a) + (if s[i].addr == a then 1 else 0)
  {
    hide Count;
    assert s == s[..i] + ([s[i]] + s[i + 1..]);
    CountAppend(s[..i], [s[i]] + s[i + 1..], a);
    CountOne(s[i], s[i + 1..], a);
    CountAppend(s[..i], s[i + 1..], a);
  }

  lemma AddOneCounts(ls: Lists, b: Mac, alloc: bool, a: Mac)
    ensures var ls' := AddOne(ls, b, alloc);
      var moved := a == b && Count(ls.del, b) > 0;
      var made := a == b && Count(ls.del, b) == 0 && Count(ls.macs, b) == 0 && alloc;
      && Count(ls'.del, a) == Count(ls.del, a) - (if moved then 1 else 0)
      && Count(ls'.macs, a) == Count(ls.macs, a) + (if moved then 1 else 0)
      && Count(ls'.add, a) == Count(ls.add, a) + (if made then 1 else 0)
  {
    hide Count, HasAddr, IndexOf;
    CountPositive(ls.del, b);
    CountPositive(ls.macs, b);
    if HasAddr(ls.del, b) {
      var i := IndexOf(ls.del, b);
      CountRemoved(ls.del, i, a);
      CountOne(ls.del[i], ls.macs, a);
    } else {
      CountOne(Cell(ls.nextId, b), ls.add, a);
    }
  }

  /** Every old cell is kept or deleted, once; every other cell is newly made. */
  lemma {:induction false} CellsConserved(before: seq<Cell>, nextId: nat, wanted: seq<Mac>, allocs: seq<bool>)
    requires |allocs| == |wanted|
    ensures var ls := AddAll(Lists([], [], before, nextId), wanted, allocs);
      && multiset(ls.macs) + multiset(ls.del) == multiset(before)
      && ls.nextId == nextId + |ls.add|
      && forall i | 0 <= i < |ls.add| :: ls.add[i].id == ls.nextId - 1 - i
  {
    hide AddOne;
    if wanted != [] {
      var n := |wanted| - 1;
      CellsConserved(before, nextId, wanted[..n], allocs[..n]);
      AddOneConserves(AddAll(Lists([], [], before, nextId), wanted[..n], allocs[..n]), wanted[n], allocs[n]);
    }
  }

  lemma AddOneConserves(ls: Lists, a: Mac, alloc: bool)
    ensures var ls' := AddOne(ls, a, alloc);
      && multiset(ls'.macs) + multiset(ls'.del) == multiset(ls.macs) + multiset(ls.del)
      && ((ls'.add == ls.add && ls'.nextId == ls.nextId) ||
          (ls'.add == [Cell(ls.nextId, a)] + ls.add && ls'.nextId == ls.nextId + 1))
  {
    if HasAddr(ls.del, a) {
      var i := IndexOf(ls.del, a);
      assert ls.del == ls.del[..i] + [ls.del[i]] + ls.del[i + 1..];
    }
  }

  // ----- one call, and any sequence of calls -----

  datatype Call = Call(own: Mac, multicast: seq<Mac>, promisc: bool, allMulti: bool, maxCount: nat, allocs: seq<bool>)

  /** Adapter list and card filter. */
  datatype Filter = Filter(macs: seq<Cell>, card: set<Mac>, nextId: nat)

  function WantedBy(c: Call): seq<Mac> {
    Wanted(c.own, c.multicast, Mode(c.promisc, c.allMulti, |c.multicast|, c.maxCount))
  }

  predicate AllAllocate(c: Call) { forall i | 0 <= i < |c.allocs| :: c.allocs[i] }

  predicate LegalCall(c: Call) { |c.allocs| == |WantedBy(c)| }

  function AddrSet(cells: seq<Cell>): set<Mac> { set i | 0 <= i < |cells| :: cells[i].addr }

  /** nx_nic_p3_set_multi: all removals are sent, then all additions. */
  function SetMulti(f: Filter, c: Call): Filter
    requires LegalCall(c)
  {
    var ls := AddAll(Lists([], [], f.macs, f.nextId), WantedBy(c), c.allocs);
    Filter(Reverse(ls.add) + ls.macs, f.card - AddrSet(ls.del) + AddrSet(ls.add), ls.nextId)
  }

  predicate InSync(f: Filter) { f.card == AddrSet(f.macs) }

  ghost predicate NoRepeats(s: seq<Mac>) { forall a: Mac :: Times(s, a) <= 1 }

  lemma InAddrSet(cells: seq<Cell>, a: Mac)
    ensures a in AddrSet(cells) <==> Count(cells, a) > 0
  {
    CountPositive(cells, a);
  }

  lemma {:induction false} CountReverse(s: seq<Cell>, a: Mac)
    ensures Count(Reverse(s), a) == Count(s, a)
  {
    if s != [] {
      CountReverse(s[1..], a);
      CountAppend(Reverse(s[1..]), [s[0]], a);
      CountOne(s[0], [], a);
      assert [s[0]] + [] == [s[0]];
    }
  }

  lemma SetMultiCounts(f: Filter, c: Call, a: Mac)
    requires LegalCall(c)
    ensures var m, w := Count(f.macs, a), Times(WantedBy(c), a);
      var k := Allocated(WantedBy(c), c.allocs, a);
      && Count(SetMulti(f, c).macs, a) == (if m == 0 then k else Min(m, w))
      && (a in SetMulti(f, c).card <==> (a in f.card && w >= m) || (m == 0 && k > 0))
  {
    var ls := AddAll(Lists([], [], f.macs, f.nextId), WantedBy(c), c.allocs);
    AddAllTally(f.macs, f.nextId, WantedBy(c), c.allocs, a);
    CountAppend(Reverse(ls.add), ls.macs, a);
    CountReverse(ls.add, a);
    InAddrSet(ls.del, a);
    InAddrSet(ls.add, a);
  }

  /**
    When card and list still agree after a call: exactly when no address has more cells than
    the call mentions it, while being mentioned.  It does not depend on allocation.
   */
  lemma StaysInSyncExactlyWhen(f: Filter, c: Call)
    requires LegalCall(c) && InSync(f)
    ensures InSync(SetMulti(f, c)) <==>
            forall a: Mac :: Times(WantedBy(c), a) > 0 ==> Count(f.macs, a) <= Times(WantedBy(c), a)
  {
    var g := SetMulti(f, c);
    forall a: Mac
      ensures (a in g.card <==> a in AddrSet(g.macs)) <==>
              (Times(WantedBy(c), a) > 0 ==> Count(f.macs, a) <= Times(WantedBy(c), a))
    {
      SetMultiCounts(f, c, a);
      InAddrSet(f.macs, a);
      InAddrSet(g.macs, a);
      AllocatedAtMost(WantedBy(c), c.allocs, a);
    }
    if InSync(g) {
      forall a: Mac ensures Times(WantedBy(c), a) > 0 ==> Count(f.macs, a) <= Times(WantedBy(c), a) {
        assert a in g.card <==> a in AddrSet(g.macs);
      }
    }
  }

  lemma {:induction false} AllocatedAtMost(wanted: seq<Mac>, allocs: seq<bool>, a: Mac)
    requires |allocs| == |wanted|
    ensures Allocated(wanted, allocs, a) <= Times(wanted, a)
    ensures (forall i | 0 <= i < |allocs| :: allocs[i]) ==> Allocated(wanted, allocs, a) == Times(wanted, a)
  {
    if wanted != [] {
      var n := |wanted| - 1;
      AllocatedAtMost(wanted[..n], allocs[..n], a);
      assert wanted == wanted[..n] + [wanted[n]];
    }
  }

  /**
    A failing history: the multicast list contains the own or the broadcast address, which every
    call adds anyway, and the next one does not.  The card loses the address.
   */
  lemma ListedTwiceIsLost(own: Mac, a: Mac)
    requires own != BROADCAST && (a == own || a == BROADCAST)
    ensures var listed := Call(own, [a], false, false, 2, [true, true, true]);
      var unlisted := Call(own, [], false, false, 2, [true, true]);
      var f := SetMulti(SetMulti(Filter([], {}, 0), listed), unlisted);
      a in AddrSet(f.macs) && a !in f.card
  {
    hide AddAll, Allocated, SetMulti, Times;
    var listed := Call(own, [a], false, false, 2, [true, true, true]);
    var unlisted := Call(own, [], false, false, 2, [true, true]);
    var f0 := Filter([], {}, 0);
    assert WantedBy(listed) == [own, BROADCAST, a] && WantedBy(unlisted) == [own, BROADCAST];
    MentionedTwiceThenOnce(own, a);
    AllocatedAtMost(WantedBy(listed), listed.allocs, a);
    SetMultiCounts(f0, listed, a);
    MoreCellsThanMentions(SetMulti(f0, listed), unlisted, a);
  }

  lemma MentionedTwiceThenOnce(own: Mac, a: Mac)
    requires own != BROADCAST && (a == own || a == BROADCAST)
    ensures Times([own, BROADCAST, a], a) == 2 && Times([own, BROADCAST], a) == 1
  {}

  /** The family of failures: while mentioned less often than it has cells, `a` is lost. */
  lemma MoreCellsThanMentions(f: Filter, c: Call, a: Mac)
    requires LegalCall(c) && 0 < Times(WantedBy(c), a) < Count(f.macs, a)
    ensures a in AddrSet(SetMulti(f, c).macs) && a !in SetMulti(f, c).card
  {
    hide AddAll, Allocated, SetMulti;
    SetMultiCounts(f, c, a);
    InAddrSet(SetMulti(f, c).macs, a);
  }

  function Run(calls: seq<Call>): Filter
    requires forall i | 0 <= i < |calls| :: LegalCall(calls[i])
  {
    if calls == [] then Filter([], {}, 0) else SetMulti(Run(calls[..|calls| - 1]), calls[|calls| - 1])
  }

  /**
    Over any sequence of calls whose lists repeat no address, card and list agree, hold no
    address twice, and hold exactly the wanted addresses if the last call could allocate.
   */
  lemma {:induction false} AlwaysInSync(calls: seq<Call>)
    requires forall i | 0 <= i < |calls| :: LegalCall(calls[i]) && NoRepeats(WantedBy(calls[i]))
    ensures InSync(Run(calls)) && forall a: Mac :: Count(Run(calls).macs, a) <= 1
    ensures calls != [] && AllAllocate(calls[|calls| - 1]) ==>
            forall a: Mac :: a in Run(calls).card <==> Times(WantedBy(calls[|calls| - 1]), a) > 0
  {
    if calls != [] {
      var n := |calls| - 1;
      var f, c := Run(calls[..n]), calls[n];
      AlwaysInSync(calls[..n]);
      StaysInSyncExactlyWhen(f, c);
      forall a: Mac
        ensures Count(SetMulti(f, c).macs, a) <= 1
        ensures AllAllocate(c) ==>
                (a in SetMulti(f, c).card <==> Times(WantedBy(c), a) > 0)
      {
        SetMultiCounts(f, c, a);
        AllocatedAtMost(WantedBy(c), c.allocs, a);
        InAddrSet(f.macs, a);
      }
    }
  }

  // ----- the commands -----

  /** What the card's filter is after a sequence of commands. */
  function Replay(card: set<Mac>, cmds: seq<Cmd>): set<Mac> {
    if cmds == [] then card
    else
      var before, last := Replay(card, cmds[..|cmds| - 1]), cmds[|cmds| - 1];
      if last.RemoveMac? then before - {last.addr} else before + {last.addr}
  }

  lemma ReplayOne(card: set<Mac>, cmds: seq<Cmd>, cmd: Cmd)
    ensures Replay(card, cmds + [cmd]) ==
      if cmd.RemoveMac? then Replay(card, cmds) - {cmd.addr} else Replay(card, cmds) + {cmd.addr}
  {
    assert (cmds + [cmd])[..|cmds|] == cmds;
  }

  lemma {:induction false} ReplayInTwo(card: set<Mac>, a: seq<Cmd>, b: seq<Cmd>)
    ensures Replay(card, a + b) == Replay(Replay(card, a), b)
  {
    if b == [] {
      assert a + b == a;
    } else {
      var n := |b| - 1;
      ReplayInTwo(card, a, b[..n]);
      assert a + b == (a + b[..n]) + [b[n]] && b == b[..n] + [b[n]];
      ReplayOne(card, a + b[..n], b[n]);
      ReplayOne(Replay(card, a), b[..n], b[n]);
    }
  }

  lemma {:induction false} ReplayCells(card: set<Mac>, cells: seq<Cell>)
    ensures Replay(card, Removals(cells)) == card - AddrSet(cells)
    ensures Replay(card, Additions(cells)) == card + AddrSet(cells)
  {
    if cells != [] {
      var n := |cells| - 1;
      ReplayCells(card, cells[..n]);
      AddrSetGrows(cells, n);
      assert cells[..n + 1] == cells;
      ReplayOne(card, Removals(cells[..n]), RemoveMac(cells[n].addr));
      ReplayOne(card, Additions(cells[..n]), AddMac(cells[n].addr));
    }
  }

  /** The filter a call is said to leave is the one the card gets from the commands sent. */
  lemma CommandsMakeTheFilter(f: Filter, c: Call)
    requires LegalCall(c)
    ensures var ls := AddAll(Lists([], [], f.macs, f.nextId), WantedBy(c), c.allocs);
      Replay(f.card, Removals(ls.del) + Additions(ls.add)) == SetMulti(f, c).card
  {
    var ls := AddAll(Lists([], [], f.macs, f.nextId), WantedBy(c), c.allocs);
    ReplayInTwo(f.card, Removals(ls.del), Additions(ls.add));
    ReplayCells(f.card, ls.del);
    ReplayCells(f.card - AddrSet(ls.del), ls.add);
  }

  /** The commands of one call: removals are old minus new, additions new minus old. */
  lemma CommandsAreTheDifference(f: Filter, c: Call, a: Mac)
    requires LegalCall(c) && NoRepeats(WantedBy(c)) && Count(f.macs, a) <= 1
    requires AllAllocate(c)
    ensures var ls := AddAll(Lists([], [], f.macs, f.nextId), WantedBy(c), c.allocs);
      && Count(ls.del, a) == (if a in AddrSet(f.macs) && a !in WantedBy(c) then 1 else 0)
      && Count(ls.add, a) == (if a in WantedBy(c) && a !in AddrSet(f.macs) then 1 else 0)
  {
    AddAllTally(f.macs, f.nextId, WantedBy(c), c.allocs, a);
    AllocatedAtMost(WantedBy(c), c.allocs, a);
    InAddrSet(f.macs, a);
    assert Times(WantedBy(c), a) <= 1;
  }

  // ----- the routine on the adapter -----

  class Adapter {
    var macList: seq<Cell>
    /** The card's filter, and the commands that have been sent to it. */
    var card: set<Mac>
    var sent: seq<Cmd>
    var missMode: MissMode
    /** Cells given to kfree, and the number of cells ever allocated. */
    var freed: seq<Cell>
    var nextId: nat

    /** nx_nic_p3_add_mac. */
    method AddMacTo(addr: Mac, alloc: bool, add: seq<Cell>, del: seq<Cell>)
      returns (rv: int, add': seq<Cell>, del': seq<Cell>)
      modifies this`macList, this`nextId
      ensures Lists(macList, add', del', nextId) == AddOne(Lists(old(macList), add, del, old(nextId)), addr, alloc)
      ensures rv == if HasAddr(del, addr) || HasAddr(old(macList), addr) || alloc then 0 else -1
    {
      add', del' := add, del;
      var cur := 0;
      while cur < |del|
        invariant 0 <= cur <= |del| && forall j | 0 <= j < cur :: del[j].addr != addr
      {
        if del[cur].addr == addr {
          assert HasAddr(del, addr) && IndexOf(del, addr) == cur;
          del' := del[..cur] + del[cur + 1..];
          macList := [del[cur]] + macList;
          return 0, add', del';
        }
        cur := cur + 1;
      }
      cur := 0;
      while cur < |macList|
        invariant 0 <= cur <= |macList| && forall j | 0 <= j < cur :: macList[j].addr != addr
      {
        if macList[cur].addr == addr {
          return 0, add', del';
        }
        cur := cur + 1;
      }
      if !alloc {
        return -1, add', del';
      }
      add' := [Cell(nextId, addr)] + add;
      nextId := nextId + 1;
      rv := 0;
    }

    /** nx_nic_p3_set_multi. */
    method SetMultiList(c: Call)
      requires LegalCall(c)
      modifies this
      ensures Filter(macList, card, nextId) == SetMulti(Filter(old(macList), old(card), old(nextId)), c)
      ensures missMode == Mode(c.promisc, c.allMulti, |c.multicast|, c.maxCount)
      // the card is what the commands sent make of it
      ensures old(sent) <= sent && card == Replay(old(card), sent[|old(sent)|..])
      ensures var ls := AddAll(Lists([], [], old(macList), old(nextId)), WantedBy(c), c.allocs);
        && freed == old(freed) + ls.del
        && sent == old(sent) + Removals(ls.del) + Additions(ls.add)
    {
      hide AddOne, AddAll, Reverse, WantedBy;
      var wanted := WantedBy(c);
      var del, add := macList, [];
      ghost var start := Lists([], [], macList, nextId);
      macList := [];
      missMode := if c.promisc then AcceptAll
                  else if c.allMulti || |c.multicast| > c.maxCount then AcceptMulti else Drop;
      AddNone(start);
      var i := 0;
      while i < |wanted|
        invariant 0 <= i <= |wanted|
        invariant Lists(macList, add, del, nextId) == AddAll(start, wanted[..i], c.allocs[..i])
        modifies this`macList, this`nextId
      {
        AddAllStep(start, wanted, c.allocs, i);
        var rv;
        rv, add, del := AddMacTo(wanted[i], c.allocs[i], add, del);
        i := i + 1;
      }
      assert wanted[..i] == wanted && c.allocs[..i] == c.allocs;
      assert Lists(macList, add, del, nextId) == AddAll(start, wanted, c.allocs);
      ghost var f := Filter(start.del, card, start.nextId);
      RemoveAll(del);
      AddAllCells(add);
      CommandsMakeTheFilter(f, c);
      assert sent[|old(sent)|..] == Removals(del) + Additions(add);
    }

    /** The loop over the cells to delete. */
    method RemoveAll(del: seq<Cell>)
      modifies this`card, this`sent, this`freed
      ensures card == old(card) - AddrSet(del)
      ensures sent == old(sent) + Removals(del) && freed == old(freed) + del
    {
      var i := 0;
      while i < |del|
        invariant 0 <= i <= |del|
        invariant card == old(card) - AddrSet(del[..i])
        invariant sent == old(sent) + Removals(del[..i]) && freed == old(freed) + del[..i]
      {
        card := card - {del[i].addr};
        sent := sent + [RemoveMac(del[i].addr)];
        freed := freed + [del[i]];
        AddrSetGrows(del, i);
        i := i + 1;
      }
      assert del[..i] == del;
    }

    /** The loop over the new cells: each goes to the card and to the front of the list. */
    method AddAllCells(add: seq<Cell>)
      modifies this`card, this`sent, this`macList
      ensures card == old(card) + AddrSet(add)
      ensures sent == old(sent) + Additions(add) && macList == Reverse(add) + old(macList)
    {
      hide Reverse;
      ReverseNone();
      var i := 0;
      while i < |add|
        invariant 0 <= i <= |add|
        invariant card == old(card) + AddrSet(add[..i])
        invariant sent == old(sent) + Additions(add[..i])
        invariant Reverse(add[i..]) + macList == Reverse(add) + old(macList)
      {
        card := card + {add[i].addr};
        sent := sent + [AddMac(add[i].addr)];
        ReverseStep(add, i, macList);
        macList := [add[i]] + macList;
        AddrSetGrows(add, i);
        i := i + 1;
      }
      assert add[..i] == add && add[i..] == [] && Reverse([]) + macList == macList;
    }
  }

  function Removals(cells: seq<Cell>): seq<Cmd> {
    seq(|cells|, i requires 0 <= i < |cells| => RemoveMac(cells[i].addr))
  }

  function Additions(cells: seq<Cell>): seq<Cmd> {
    seq(|cells|, i requires 0 <= i < |cells| => AddMac(cells[i].addr))
  }

  lemma AddrSetGrows(cells: seq<Cell>, i: nat)
    requires i < |cells|
    ensures AddrSet(cells[..i + 1]) == AddrSet(cells[..i]) + {cells[i].addr}
    ensures Removals(cells[..i + 1]) == Removals(cells[..i]) + [RemoveMac(cells[i].addr)]
    ensures Additions(cells[..i + 1]) == Additions(cells[..i]) + [AddMac(cells[i].addr)]
  {
    assert cells[..i + 1] == cells[..i] + [cells[i]];
    forall a ensures a in AddrSet(cells[..i + 1]) <==> a in AddrSet(cells[..i]) + {cells[i].addr} {
      if a == cells[i].addr { assert cells[..i + 1][i].addr == a; }
      if j :| 0 <= j < i && cells[..i][j].addr == a { assert cells[..i + 1][j].addr == a; }
    }
  }
}
