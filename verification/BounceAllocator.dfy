/**
  The bounce-page allocator of nx_nic_vmk.c: a circular first-fit search for contiguous free
  pages, busy flags, and a free queue that must agree with them.  The lock makes every
  method atomic.
 */
module BounceAllocator {
  import opened Circular
  import opened Options

  const MAX_PAGES_PER_FRAG := 24
  const PAGE_SIZE := 4096

  // ----- what the search is meant to find -----

  ghost predicate FreeRun(busy: seq<bool>, k: nat, req: nat) {
    k + req <= |busy| && forall j | k <= j < k + req :: !busy[j]
  }

  /** Runs the search considers: none crosses the array end, none continues past `index`. */
  predicate Admissible(k: nat, index: nat, max: nat, req: nat) {
    k < max && if k >= index then k + req <= max else k + req <= index + 1
  }

  ghost predicate Candidate(busy: seq<bool>, index: nat, req: nat, k: nat) {
    Admissible(k, index, |busy|, req) && FreeRun(busy, k, req)
  }

  /** Distance of a page from the starting page, going round. */
  function Turn(k: nat, index: nat, max: nat): int {
    if k >= index then k - index else k + max - index
  }

  /** The first candidate going round from `index`, or none if there is no candidate. */
  ghost predicate FirstFit(busy: seq<bool>, index: nat, req: nat, r: Option<nat>) {
    match r
    case None => forall k :: !Candidate(busy, index, req, k)
    case Some(k) =>
      && Candidate(busy, index, req, k)
      && forall k' | Candidate(busy, index, req, k') :: Turn(k, index, |busy|) <= Turn(k', index, |busy|)
  }

  lemma FirstFitIsUnique(busy: seq<bool>, index: nat, req: nat, r: Option<nat>, r': Option<nat>)
    requires index < |busy| && FirstFit(busy, index, req, r) && FirstFit(busy, index, req, r')
    ensures r == r'
  {
    if r.Some? && r'.Some? {
      assert Turn(r.value, index, |busy|) == Turn(r'.value, index, |busy|);
    }
  }

  /**
    What a failed search means.  It fails although some free run exists exactly when every
    free run of that length starts before `index` and reaches beyond it.
   */
  lemma FailedSearch(busy: seq<bool>, index: nat, req: nat, r: Option<nat>)
    requires index < |busy| && FirstFit(busy, index, req, r)
    ensures r.None? <==> forall k: nat | FreeRun(busy, k, req) && k < |busy| :: k < index && k + req > index + 1
  {
    if r.None? {
      forall k: nat | FreeRun(busy, k, req) && k < |busy| ensures k < index && k + req > index + 1 {
        assert !Candidate(busy, index, req, k);
      }
    }
  }

  // ----- the pool -----

  ghost predicate Distinct(s: seq<nat>) {
    forall i, j | 0 <= i < j < |s| :: s[i] != s[j]
  }

  function Run(k: nat, n: nat): (r: seq<nat>)
    ensures |r| == n && forall j | 0 <= j < n :: r[j] == k + j
  {
    seq(n, j requires 0 <= j => k + j)
  }

  /** The pages held for a fragment, up to the terminating NULL. */
  class Frag {
    var bounceBuf: seq<nat>

    constructor ()
      ensures bounceBuf == []
    {
      bounceBuf := [];
    }
  }

  /** The free queue is exactly the set of pages that are not busy, each once. */
  ghost predicate QueuedBy(busy: seq<bool>, free: seq<nat>) {
    Distinct(free) && forall i :: i in free <==> 0 <= i < |busy| && !busy[i]
  }

  lemma QueuedAfterTake(busy: seq<bool>, free: seq<nat>, k: nat, n: nat, busy': seq<bool>)
    requires QueuedBy(busy, free) && |busy'| == |busy| && k + n <= |busy|
    requires forall p | 0 <= p < |busy| :: busy'[p] == (busy[p] || k <= p < k + n)
    ensures QueuedBy(busy', Minus(free, k, n))
  {
    hide Minus, Distinct;
    MinusMembers(free, k, n);
  }

  lemma QueuedAfterFree(busy: seq<bool>, free: seq<nat>, pages: seq<nat>, kept: seq<nat>, busy': seq<bool>)
    requires QueuedBy(busy, free) && |busy'| == |busy| && Distinct(pages) && kept <= pages
    requires forall p | p in pages :: p < |busy| && busy[p]
    requires forall p | 0 <= p < |busy| :: busy'[p] == (busy[p] && p !in kept)
    ensures QueuedBy(busy', free + kept)
  {
    assert pages == kept + pages[|kept|..];
    NoneTwice(pages, kept, pages[|kept|..]);
    hide Distinct;
    assert forall p | p in kept :: p in pages;
    AppendDistinct(free, kept);
  }

  /** Every busy page is held by exactly one fragment, once, or lost. */
  ghost predicate OwnedBy(busy: seq<bool>, held: map<Frag, seq<nat>>, lost: set<nat>) {
    && (forall f | f in held :: Distinct(held[f]) && forall p | p in held[f] :: p < |busy| && busy[p])
    && (forall f, g, p | f in held && g in held && p in held[f] && p in held[g] :: f == g)
    && (forall i | 0 <= i < |busy| && busy[i] :: i in lost || exists f :: f in held && i in held[f])
    && (forall i | i in lost :: i < |busy| && busy[i] && forall f | f in held :: i !in held[f])
  }

  lemma OwnedAfterTake(busy: seq<bool>, held: map<Frag, seq<nat>>, lost: set<nat>, frag: Frag, k: nat, n: nat, busy': seq<bool>)
    requires OwnedBy(busy, held, lost) && frag !in held && FreeRun(busy, k, n) && |busy'| == |busy|
    requires forall p | 0 <= p < |busy| :: busy'[p] == (busy[p] || k <= p < k + n)
    ensures OwnedBy(busy', held[frag := Run(k, n)], lost)
  {
    hide Distinct;
    var held' := held[frag := Run(k, n)];
    RunIsDistinct(k, n);
    forall p | 0 <= p < |busy| && busy'[p] ensures p in lost || exists f :: f in held' && p in held'[f] {
      if !busy[p] {
        assert Run(k, n)[p - k] == p;
        assert frag in held' && p in held'[frag];
      } else if p !in lost {
        var f: Frag :| f in held && p in held[f];
        assert f in held' && p in held'[f];
      }
    }
  }

  lemma HeldPages(busy: seq<bool>, held: map<Frag, seq<nat>>, lost: set<nat>, frag: Frag, pages: seq<nat>)
    requires OwnedBy(busy, held, lost) && ((frag in held && held[frag] == pages) || pages == [])
    ensures Distinct(pages) && forall p | p in pages :: p < |busy| && busy[p]
  {}

  /** The pages `kept` of a fragment are returned, the pages `rest` are not. */
  lemma OwnedAfterFree(busy: seq<bool>, held: map<Frag, seq<nat>>, lost: set<nat>, frag: Frag, kept: seq<nat>, rest: seq<nat>, gone: set<nat>, busy': seq<bool>)
    requires OwnedBy(busy, held, lost) && |busy'| == |busy|
    requires (frag in held && held[frag] == kept + rest) || (frag !in held && kept + rest == [])
    requires Distinct(kept + rest) && (forall p :: p in gone <==> p in rest) && forall p | 0 <= p < |busy| :: busy'[p] == (busy[p] && p !in kept)
    ensures OwnedBy(busy', held - {frag}, lost + gone)
  {
    NoneTwice(kept + rest, kept, rest);
    hide Distinct;
    var held', lost' := held - {frag}, lost + gone;
    assert forall p :: p in kept + rest <==> p in kept || p in rest;
    forall p | 0 <= p < |busy| && busy'[p] ensures p in lost' || exists f :: f in held' && p in held'[f] {
      if p !in lost' {
        var f: Frag :| f in held && p in held[f];
        assert f in held' && p in held'[f];
      }
    }
  }

  class VmkBounce {
    const dmaBase: nat
    var busy: array<bool>
    var freeList: seq<nat>
    /** Which pages each fragment holds and has not returned. */
    ghost var held: map<Frag, seq<nat>>
    /** Pages that were behind the end of a fragment's array when it was freed: nobody has them. */
    ghost var lost: set<nat>

    ghost predicate Valid()
      reads this, busy, held.Keys
    {
      && busy.Length > 0
      && QueuedBy(busy[..], freeList)
      && OwnedBy(busy[..], held, lost)
      && (forall f | f in held :: f.bounceBuf == held[f])
    }

    /** nx_setup_tx_vmkbounce_buffers, once the memory is there. */
    constructor (max: nat, dmaBase: nat)
      requires max > 0
      ensures Valid() && held == map[] && lost == {} && busy.Length == max && freeList == Run(0, max) && fresh(busy)
    {
      this.dmaBase := dmaBase;
      busy := new bool[max](_ => false);
      held, lost := map[], {};
      freeList := [];
      new;
      var i := 0;
      while i < max
        invariant 0 <= i <= max && freeList == Run(0, i) && held == map[] && lost == {}
        invariant busy.Length == max && fresh(busy) && forall j | 0 <= j < max :: !busy[j]
      {
        freeList := freeList + [i];
        i := i + 1;
      }
      forall i | 0 <= i < max ensures i in freeList { assert freeList[i] == i; }
    }

    /** nx_find_suitable_bounce_buf: the caller has checked that the free queue is not empty. */
    method Find(req: nat) returns (r: Option<nat>)
      requires Valid() && freeList != []
      ensures FirstFit(busy[..], freeList[0], req, r)
    {
      hide Candidate, FirstFit, Distinct;
      var index, max := freeList[0], busy.Length;
      assert index in freeList;
      var i := index;
      while i < max + index
        invariant index <= i && Searched(busy[..], index, req, i)
        decreases max + index - i
      {
        WrappedIsRemainder(i, max);
        var k := i % max;
        if k < index && k + req > index + 1 {
          NoneLater(busy[..], index, req, i);
          return None;
        } else if k >= index && k + req > max {
          ToWrapPoint(busy[..], index, req, i);
          i := max;
          continue;
        }
        var j := 0;
        while j < req && !busy[k + j]
          invariant 0 <= j <= req && forall p | k <= p < k + j :: !busy[p]
        {
          j := j + 1;
        }
        if j == req {
          FirstFound(busy[..], index, req, i);
          return Some(k);
        }
        SkipsOverBusy(busy[..], index, req, i, j);
        i := i + j + 1;
      }
      NoneLater(busy[..], index, req, i);
      return None;
    }

    /**
      nx_handle_large_addr for `totLen` bytes at `phys`.  Pages are needed only when the data
      reaches the DMA mask; then they are the first fit from the head of the free queue, or
      nothing changes at all.  `inside` says whether all pages and the terminating NULL are within
      the fragment's array of MAX_PAGES_PER_FRAG; what is behind the array is kept as if it had room.
     */
    method HandleLargeAddr(frag: Frag, phys: nat, totLen: nat, dmaMask: nat)
      returns (rv: int, phys': nat, inside: bool, ghost found: Option<nat>)
      requires Valid() && frag !in held
      modifies this, busy, frag
      ensures Valid() && busy == old(busy) && lost == old(lost)
      ensures phys + totLen < dmaMask ==>
        rv == 0 && phys' == phys && frag.bounceBuf == [] && Unchanged(old(freeList), old(held), old(busy[..]))
      ensures phys + totLen >= dmaMask && old(freeList) == [] ==> rv == -1
      ensures phys + totLen >= dmaMask && old(freeList) != [] ==>
        && FirstFit(old(busy[..]), old(freeList)[0], Pages(totLen), found)
        && (match found
           case None => rv == -1
           case Some(k) =>
             && rv == 0 && phys' == dmaBase + PAGE_SIZE * k && frag.bounceBuf == Run(k, Pages(totLen))
             && freeList == Minus(old(freeList), k, Pages(totLen))
             && held == old(held)[frag := Run(k, Pages(totLen))])
      // the run is as long as the data, in whole pages
      ensures phys + totLen >= dmaMask && rv == 0 ==>
        && PAGE_SIZE * |frag.bounceBuf| >= totLen
        && (totLen > 0 ==> PAGE_SIZE * (|frag.bounceBuf| - 1) < totLen)
        && (totLen == 0 ==> frag.bounceBuf == [])
      ensures rv == 0 ==> (inside <==> phys + totLen < dmaMask || Pages(totLen) < MAX_PAGES_PER_FRAG)
      ensures rv == -1 ==>
        phys' == phys && frag.bounceBuf == old(frag.bounceBuf) && Unchanged(old(freeList), old(held), old(busy[..]))
    {
      hide FirstFit, Candidate, Distinct, Minus, FreeRun;
      phys', inside, found := phys, true, None;
      if phys + totLen >= dmaMask {
        if freeList == [] {
          return -1, phys, true, None;
        }
        var req := if totLen % PAGE_SIZE != 0 then 1 + totLen / PAGE_SIZE else totLen / PAGE_SIZE;
        var run := Find(req);
        found := run;
        if run.None? {
          return -1, phys, true, None;
        }
        FoundIsFree(busy[..], freeList[0], req, run.value);
        Take(frag, run.value, req);
        inside := req < MAX_PAGES_PER_FRAG;
        phys' := dmaBase + PAGE_SIZE * run.value;
      } else {
        frag.bounceBuf := [];
      }
      rv := 0;
    }

    ghost predicate Unchanged(f: seq<nat>, h: map<Frag, seq<nat>>, b: seq<bool>)
      reads this, busy
    {
      freeList == f && held == h && busy[..] == b
    }

    /** The loop that moves a found run from the free queue to the fragment. */
    method Take(frag: Frag, k: nat, req: nat)
      requires Valid() && frag !in held && FreeRun(busy[..], k, req) && k < busy.Length
      modifies this`freeList, this`held, busy, frag
      ensures Valid()
      ensures freeList == Minus(old(freeList), k, req)
      ensures held == old(held)[frag := Run(k, req)] && frag.bounceBuf == Run(k, req)
    {
      hide Minus, Distinct, OwnedBy;
      ghost var was, free := busy[..], freeList;
      assert forall p | k <= p < k + req :: !was[p] && p in free;
      hide QueuedBy;
      MovePages(frag, k, req);
      QueuedAfterTake(was, free, k, req, busy[..]);
      OwnedAfterTake(was, held, lost, frag, k, req, busy[..]);
      held := held[frag := Run(k, req)];
    }

    /** One by one, the pages leave the free queue, become busy and enter the fragment's array. */
    method MovePages(frag: Frag, k: nat, req: nat)
      requires Distinct(freeList) && k + req <= busy.Length
      requires forall p | k <= p < k + req :: p in freeList
      modifies this`freeList, busy, frag
      ensures freeList == Minus(old(freeList), k, req) && frag.bounceBuf == Run(k, req)
      ensures forall p | 0 <= p < busy.Length :: busy[p] == (old(busy[p]) || k <= p < k + req)
    {
      hide Minus, Distinct;
      ghost var free := freeList;
      MinusNothing(free, k);
      frag.bounceBuf := [];
      var i := 0;
      while i < req
        invariant 0 <= i <= req
        invariant freeList == Minus(free, k, i) && frag.bounceBuf == Run(k, i)
        invariant forall p | 0 <= p < busy.Length :: busy[p] == (old(busy[p]) || k <= p < k + i)
        modifies this`freeList, busy, frag
      {
        assert k + i in free;
        RemoveIsMinus(free, k, i);
        freeList := Remove(freeList, k + i);
        busy[k + i] := true;
        frag.bounceBuf := frag.bounceBuf + [k + i];
        i := i + 1;
      }
    }

    /**
      nx_free_frag_bounce_buf, for fragments with and without pages.  The loop is bounded by the
      array: pages behind its end stay busy for good.
     */
    method FreeFrag(frag: Frag)
      requires Valid() && (frag in held || frag.bounceBuf == [])
      modifies this`freeList, this`held, this`lost, busy
      ensures Valid()
      ensures freeList == old(freeList) + InArray(frag.bounceBuf)
      ensures held == old(held) - {frag}
      ensures lost == old(lost) + Behind(frag.bounceBuf)
    {
      hide Distinct, InArray, OwnedBy, QueuedBy, Behind;
      ghost var was, free, pages := busy[..], freeList, frag.bounceBuf;
      ghost var kept := InArray(pages);
      InArrayIsPrefix(pages);
      HeldPages(was, held, lost, frag, pages);
      ReturnPages(frag);
      QueuedAfterFree(was, free, pages, kept, busy[..]);
      OwnedAfterFree(was, held, lost, frag, kept, pages[|kept|..], Behind(pages), busy[..]);
      held, lost := held - {frag}, lost + Behind(pages);
    }

    /** The loop over the fragment's array: page by page back to the free queue. */
    method ReturnPages(frag: Frag)
      requires forall p | p in frag.bounceBuf :: p < busy.Length
      modifies this`freeList, busy
      ensures freeList == old(freeList) + InArray(frag.bounceBuf)
      ensures forall p | 0 <= p < busy.Length :: busy[p] == (old(busy[p]) && p !in InArray(frag.bounceBuf))
    {
      ghost var free, pages := freeList, frag.bounceBuf;
      ghost var kept := InArray(pages);
      InArrayIsPrefix(pages);
      var i := 0;
      while i < MAX_PAGES_PER_FRAG && i < |frag.bounceBuf|
        invariant 0 <= i <= |kept| && frag.bounceBuf == pages
        invariant freeList == free + kept[..i]
        invariant forall p | 0 <= p < busy.Length :: busy[p] == (old(busy[p]) && p !in kept[..i])
        modifies this`freeList, busy
      {
        assert kept[i] == pages[i] && pages[i] in pages;
        assert kept[..i + 1] == kept[..i] + [kept[i]];
        busy[frag.bounceBuf[i]] := false;
        freeList := freeList + [frag.bounceBuf[i]];
        i := i + 1;
      }
      assert kept[..i] == kept;
    }
  }

  /** The pages of a fragment that are within its array. */
  function InArray(pages: seq<nat>): seq<nat> {
    if |pages| <= MAX_PAGES_PER_FRAG then pages else pages[..MAX_PAGES_PER_FRAG]
  }

  /** The others. */
  function Behind(pages: seq<nat>): set<nat> {
    if |pages| <= MAX_PAGES_PER_FRAG then {} else set p | p in pages[MAX_PAGES_PER_FRAG..]
  }

  lemma InArrayIsPrefix(pages: seq<nat>)
    ensures |InArray(pages)| <= |pages| && pages == InArray(pages) + pages[|InArray(pages)|..]
    ensures Behind(pages) == set p | p in pages[|InArray(pages)|..]
    ensures |InArray(pages)| == (if |pages| <= MAX_PAGES_PER_FRAG then |pages| else MAX_PAGES_PER_FRAG)
  {}

  lemma NoneTwice(s: seq<nat>, a: seq<nat>, b: seq<nat>)
    requires Distinct(s) && s == a + b
    ensures Distinct(a) && forall p | p in a :: p !in b
  {
    forall i, j | 0 <= i < |a| && 0 <= j < |b| ensures a[i] != b[j] { assert s[i] == a[i] && s[|a| + j] == b[j]; }
    forall i, j | 0 <= i < j < |a| ensures a[i] != a[j] { assert s[i] == a[i] && s[j] == a[j]; }
  }

  lemma FoundIsFree(busy: seq<bool>, index: nat, req: nat, k: nat)
    requires FirstFit(busy, index, req, Some(k))
    ensures FreeRun(busy, k, req) && k < |busy|
  {}

  // ----- a run that is missed -----

  lemma OnePageIsHead(busy: seq<bool>, index: nat, r: Option<nat>)
    requires index < |busy| && !busy[index] && FirstFit(busy, index, 1, r)
    ensures r == Some(index)
  {
    assert Candidate(busy, index, 1, index);
  }

  lemma TakenHead(s: seq<nat>)
    requires s != [] && Distinct(s)
    ensures Minus(s, s[0], 1) == s[1..]
  {
    assert s[0] !in s[1..];
    NothingTaken(s[1..], s[0]);
  }

  lemma {:induction false} NothingTaken(s: seq<nat>, k: nat)
    requires k !in s
    ensures Minus(s, k, 1) == s
  {
    if s != [] { NothingTaken(s[1..], k); }
  }

  /** Take the page at the head of the free queue. */
  method TakeHead(pool: VmkBounce) returns (frag: Frag)
    requires pool.Valid() && pool.freeList != []
    modifies pool, pool.busy
    ensures pool.Valid() && pool.busy == old(pool.busy) && fresh(frag)
    ensures pool.freeList == old(pool.freeList)[1..] && pool.held == old(pool.held)[frag := [old(pool.freeList[0])]]
  {
    hide FirstFit, Minus, Distinct;
    var free := pool.freeList;
    assert free[0] in free;
    frag := new Frag();
    var rv, phys, inside, found := pool.HandleLargeAddr(frag, 0, PAGE_SIZE, 0);
    OnePageIsHead(old(pool.busy[..]), free[0], found);
    TakenHead(free);
    assert Run(free[0], 1) == [free[0]];
  }

  lemma HeldMeans(pool: VmkBounce, frag: Frag)
    requires pool.Valid() && frag in pool.held
    ensures frag.bounceBuf == pool.held[frag]
  {}

  lemma FreeMeans(pool: VmkBounce, i: nat)
    requires pool.Valid() && i < pool.busy.Length
    ensures pool.busy[i] <==> i !in pool.freeList
  {}

  /** Pages 0, 1, 2 are free, the search starts at 1, and page 3 is busy. */
  lemma StraddlingRunIsMissed(busy: seq<bool>, r: Option<nat>)
    requires |busy| == 4 && busy[3] && FirstFit(busy, 1, 3, r)
    ensures r == None
  {}

  method RequestThree(pool: VmkBounce) returns (rv: int)
    requires pool.Valid() && pool.busy.Length == 4 && pool.freeList == [1, 0, 2] && pool.busy[3]
    modifies pool, pool.busy
    ensures pool.Valid() && pool.busy == old(pool.busy) && rv == -1 && pool.busy[..] == old(pool.busy[..])
  {
    hide FirstFit, Minus, Distinct, VmkBounce.Valid;
    var frag := new Frag();
    ghost var busy := pool.busy[..];
    var phys, inside;
    ghost var found;
    rv, phys, inside, found := pool.HandleLargeAddr(frag, 0, 3 * PAGE_SIZE, 0);
    StraddlingRunIsMissed(busy, found);
  }

  /** Four pages, all taken one by one. */
  method TakeFour() returns (pool: VmkBounce, a: Frag, b: Frag, c: Frag, d: Frag)
    ensures fresh(pool) && fresh(pool.busy) && pool.Valid() && pool.busy.Length == 4 && pool.freeList == []
    ensures |{a, b, c, d}| == 4 && pool.held == map[a := [0], b := [1], c := [2], d := [3]]
  {
    hide Minus, Distinct, VmkBounce.Valid;
    pool := new VmkBounce(4, 0);
    assert pool.freeList == [0, 1, 2, 3];
    a := TakeHead(pool);
    b := TakeHead(pool);
    c := TakeHead(pool);
    d := TakeHead(pool);
  }

  /**
    A history that makes the search miss: of four taken pages three are returned, the middle one
    first.  Three free pages in a row are there, and a request for three fails.
   */
  method StraddlingRunIsReached() returns (pool: VmkBounce, rv: int)
    ensures pool.Valid() && pool.busy.Length == 4 && FreeRun(pool.busy[..], 0, 3) && rv == -1
  {
    hide FirstFit, Minus, Distinct, VmkBounce.Valid;
    var a, b, c, d;
    pool, a, b, c, d := TakeFour();
    assert a != b && b != c && a != c;
    HeldMeans(pool, b);
    HeldMeans(pool, a);
    HeldMeans(pool, c);
    pool.FreeFrag(b);
    pool.FreeFrag(a);
    pool.FreeFrag(c);
    assert pool.freeList == [1, 0, 2];
    forall i: nat | i < 4 ensures pool.busy[i] <==> i == 3 { FreeMeans(pool, i); }
    rv := RequestThree(pool);
  }

  function Pages(totLen: nat): nat { (totLen + PAGE_SIZE - 1) / PAGE_SIZE }

  // ----- the search, position by position -----

  function Wrapped(i: nat, max: nat): nat { if i < max then i else i - max }

  /** No candidate starts at a position already visited. */
  ghost predicate Searched(busy: seq<bool>, index: nat, req: nat, i: nat) {
    forall p | index <= p < i && p < |busy| + index :: !Candidate(busy, index, req, Wrapped(p, |busy|))
  }

  lemma WrappedIsRemainder(i: nat, max: nat)
    requires 0 < max && i < 2 * max
    ensures i % max == Wrapped(i, max)
  {
    if i < max { DivModIs(i, max, 0, i); } else { DivModIs(i, max, 1, i - max); }
  }

  /** The position of a page going round from `index`. */
  function Position(k: nat, index: nat, max: nat): nat { if k >= index then k else k + max }

  lemma NoneLater(busy: seq<bool>, index: nat, req: nat, i: nat)
    requires index < |busy| && index <= i && Searched(busy, index, req, i)
    requires i < |busy| + index ==> Wrapped(i, |busy|) < index && Wrapped(i, |busy|) + req > index + 1
    ensures FirstFit(busy, index, req, None)
  {
    hide FreeRun;
    forall k: nat ensures !Candidate(busy, index, req, k) {
      if k < |busy| { assert Wrapped(Position(k, index, |busy|), |busy|) == k; }
    }
  }

  lemma ToWrapPoint(busy: seq<bool>, index: nat, req: nat, i: nat)
    requires index <= i < |busy| && Searched(busy, index, req, i) && i + req > |busy|
    ensures Searched(busy, index, req, |busy|)
  {
    hide FreeRun;
  }

  lemma FirstFound(busy: seq<bool>, index: nat, req: nat, i: nat)
    requires index < |busy| && index <= i < |busy| + index && Searched(busy, index, req, i)
    requires Admissible(Wrapped(i, |busy|), index, |busy|, req) && FreeRun(busy, Wrapped(i, |busy|), req)
    ensures FirstFit(busy, index, req, Some(Wrapped(i, |busy|)))
  {
    hide FreeRun;
    forall k | Candidate(busy, index, req, k)
      ensures Turn(Wrapped(i, |busy|), index, |busy|) <= Turn(k, index, |busy|)
    {
      assert Wrapped(Position(k, index, |busy|), |busy|) == k;
    }
  }

  lemma SkipsOverBusy(busy: seq<bool>, index: nat, req: nat, i: nat, j: nat)
    requires index < |busy| && index <= i < |busy| + index && Searched(busy, index, req, i)
    requires Admissible(Wrapped(i, |busy|), index, |busy|, req) && j < req && busy[Wrapped(i, |busy|) + j]
    ensures Searched(busy, index, req, i + j + 1)
  {
    forall p | i <= p < i + j + 1 && p < |busy| + index
      ensures !Candidate(busy, index, req, Wrapped(p, |busy|))
    {
      var k := Wrapped(i, |busy|);
      assert !FreeRun(busy, k + (p - i), req) by { assert busy[k + j]; }
    }
  }

  // ----- the free queue -----

  /** TAILQ_REMOVE. */
  function Remove(s: seq<nat>, x: nat): seq<nat> {
    if s == [] then [] else if s[0] == x then s[1..] else [s[0]] + Remove(s[1..], x)
  }

  /** The queue without pages `k` to `k + n - 1`. */
  function Minus(s: seq<nat>, k: nat, n: nat): seq<nat> {
    if s == [] then []
    else if k <= s[0] < k + n then Minus(s[1..], k, n)
    else [s[0]] + Minus(s[1..], k, n)
  }

  lemma {:induction false} MinusNothing(s: seq<nat>, k: nat)
    ensures Minus(s, k, 0) == s
  {
    if s != [] { MinusNothing(s[1..], k); }
  }

  lemma {:induction false} MinusMembers(s: seq<nat>, k: nat, n: nat)
    requires Distinct(s)
    ensures forall p :: p in Minus(s, k, n) <==> p in s && !(k <= p < k + n)
    ensures Distinct(Minus(s, k, n))
  {
    if s != [] {
      MinusMembers(s[1..], k, n);
      assert s == [s[0]] + s[1..];
      assert s[0] !in s[1..];
    }
  }

  lemma {:induction false} RemoveIsMinus(s: seq<nat>, k: nat, i: nat)
    requires Distinct(s) && k + i in s
    ensures Remove(Minus(s, k, i), k + i) == Minus(s, k, i + 1)
  {
    if s[0] == k + i {
      assert k + i !in s[1..];
      MinusSame(s[1..], k, i);
    } else {
      assert s == [s[0]] + s[1..];
      RemoveIsMinus(s[1..], k, i);
      assert ([s[0]] + Minus(s[1..], k, i))[1..] == Minus(s[1..], k, i);
    }
  }

  lemma {:induction false} MinusSame(s: seq<nat>, k: nat, i: nat)
    requires k + i !in s
    ensures Minus(s, k, i + 1) == Minus(s, k, i)
  {
    if s != [] { MinusSame(s[1..], k, i); }
  }

  lemma RunIsDistinct(k: nat, n: nat)
    ensures Distinct(Run(k, n)) && forall p | p in Run(k, n) :: k <= p < k + n
  {}

  lemma AppendDistinct(a: seq<nat>, b: seq<nat>)
    requires Distinct(a) && Distinct(b) && forall p | p in a :: p !in b
    ensures Distinct(a + b)
  {
    forall i, j | 0 <= i < j < |a + b| ensures (a + b)[i] != (a + b)[j] {
      if i < |a| <= j { assert (a + b)[i] in a && (a + b)[j] in b; }
    }
  }
}
