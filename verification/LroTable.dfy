/**
  The LRO flow table (unm_nic_lro.c): flow entries move between a node pool and a hash
  table.  Each method below runs alone (`LroRace` lets them interleave); what the firmware
  answers to a request is a parameter.
 */
module LroTable {
  import opened HashTable
  import opened LroKeys
  import opened MemPool
  import opened Multisets
  import opened Options

  /** The pool nodes in the table, each as often as it occurs. */
  ghost function TableIds(buckets: seq<seq<Node<HostKey>>>): multiset<nat> {
    if buckets == [] then multiset{}
    else TableIds(buckets[..|buckets| - 1]) + multiset(Ids(buckets[|buckets| - 1]))
  }

  function Ids(b: seq<Node<HostKey>>): (r: seq<nat>)
    ensures |r| == |b| && forall i | 0 <= i < |b| :: r[i] == b[i].id
  {
    seq(|b|, i requires 0 <= i < |b| => b[i].id)
  }

  lemma {:induction false} TableIdsUpdate(buckets: seq<seq<Node<HostKey>>>, i: nat, b: seq<Node<HostKey>>)
    requires i < |buckets|
    ensures TableIds(buckets[i := b]) + multiset(Ids(buckets[i])) == TableIds(buckets) + multiset(Ids(b))
  {
    hide Ids;
    var n, u := |buckets| - 1, buckets[i := b];
    if i == n {
      assert u[..n] == buckets[..n];
    } else {
      assert u[..n] == buckets[..n][i := b] && buckets[..n][i] == buckets[i] && u[n] == buckets[n];
      TableIdsUpdate(buckets[..n], i, b);
      AddBoth(TableIds(u[..n]), TableIds(buckets[..n]), multiset(Ids(buckets[i])), multiset(Ids(b)), multiset(Ids(buckets[n])));
    }
  }

  lemma {:induction false} TableIdsAreNodes(buckets: seq<seq<Node<HostKey>>>)
    ensures TableIds(buckets) == multiset(Ids(Nodes(buckets)))
  {
    if buckets != [] {
      var n := |buckets| - 1;
      TableIdsAreNodes(buckets[..n]);
      assert Ids(Nodes(buckets)) == Ids(Nodes(buckets[..n])) + Ids(buckets[n]);
    }
  }

  lemma InsertedIds(b: seq<Node<HostKey>>, node: Node<HostKey>, at: nat)
    requires at <= |b|
    ensures multiset(Ids(b[..at] + [node] + b[at..])) == multiset(Ids(b)) + multiset{node.id}
  {
    var ids := Ids(b);
    assert Ids(b[..at] + [node] + b[at..]) == ids[..at] + [node.id] + ids[at..];
    assert ids == ids[..at] + ids[at..];
  }

  lemma WithoutIds(b: seq<Node<HostKey>>, j: nat)
    requires j < |b|
    ensures multiset(Ids(b)) == multiset(Ids(Without(b, j))) + multiset{b[j].id}
  {
    var ids := Ids(b);
    assert Ids(Without(b, j)) == ids[..j] + ids[j + 1..];
    assert ids == ids[..j] + [ids[j]] + ids[j + 1..];
  }

  /** Deleting a key that was just inserted finds that very node and restores the bucket. */
  lemma RollbackRestores(b: seq<Node<HostKey>>, node: Node<HostKey>)
    requires Find(LroOps, b, node.key).None?
    ensures var r := Inserted(LroOps, b, node);
      match Find(LroOps, r, node.key) case None => false case Some(j) => r[j] == node && Without(r, j) == b
  {
    hide Bucket, CmpIpKey, Equivalence, Find, InsertionPoint, Without;
    var r, at := Inserted(LroOps, b, node), InsertionPoint(LroOps, b, node);
    InsertedThenWithout(b, node, at);
    assert LroOps.compare(node.key, node.key) == 0 by { SelfEqual(node.key); }
    FindFirst(LroOps, r, node.key, at);
  }

  lemma SelfEqual(key: HostKey)
    ensures CmpIpKey(key, key) == 0
  {
    CmpZeroIsSameFlow(key, key);
  }

  // ----- per-context removal -----

  /** Nodes of `b` that belong to context `ctx`, or to another one. */
  function OfCtx(b: seq<Node<HostKey>>, ctxOf: map<nat, int>, ctx: int, mine: bool): seq<Node<HostKey>> {
    if b == [] then []
    else
      var rest := OfCtx(b[..|b| - 1], ctxOf, ctx, mine);
      var n := b[|b| - 1];
      if (n.id in ctxOf && ctxOf[n.id] == ctx) == mine then rest + [n] else rest
  }

  /** What is left is exactly the nodes of other contexts, in their order. */
  lemma {:induction false} OfCtxIsFilter(b: seq<Node<HostKey>>, ctxOf: map<nat, int>, ctx: int, mine: bool, n: Node<HostKey>)
    ensures n in OfCtx(b, ctxOf, ctx, mine) <==> n in b && (n.id in ctxOf && ctxOf[n.id] == ctx) == mine
  {
    if b != [] {
      var m := |b| - 1;
      OfCtxIsFilter(b[..m], ctxOf, ctx, mine, n);
      assert b == b[..m] + [b[m]];
    }
  }

  /** `p` of the nodes of `b` have been looked at; `j` of those are still in `cur`. */
  ghost predicate Scanned(cur: seq<Node<HostKey>>, b: seq<Node<HostKey>>, p: nat, j: nat,
                          dropped: seq<Node<HostKey>>, ctxOf: map<nat, int>, ctx: int)
  {
    && p <= |b| && j <= |cur|
    && cur[..j] == OfCtx(b[..p], ctxOf, ctx, false) && cur[j..] == b[p..]
    && dropped == OfCtx(b[..p], ctxOf, ctx, true)
  }

  lemma ScanStart(b: seq<Node<HostKey>>, ctxOf: map<nat, int>, ctx: int)
    ensures Scanned(b, b, 0, 0, [], ctxOf, ctx) && Ids([]) == []
  {}

  lemma ScanStep(cur: seq<Node<HostKey>>, b: seq<Node<HostKey>>, p: nat, j: nat,
                 dropped: seq<Node<HostKey>>, ctxOf: map<nat, int>, ctx: int)
    requires Scanned(cur, b, p, j, dropped, ctxOf, ctx) && j < |cur|
    ensures p < |b| && cur[j] == b[p]
    ensures var n := cur[j];
      if n.id in ctxOf && ctxOf[n.id] == ctx then Scanned(Without(cur, j), b, p + 1, j, dropped + [n], ctxOf, ctx)
      else Scanned(cur, b, p + 1, j + 1, dropped, ctxOf, ctx)
  {
    assert cur[j..][0] == b[p..][0];
    assert b[..p + 1][..p] == b[..p] && b[p..][1..] == b[p + 1..] && cur[j..][1..] == cur[j + 1..];
    assert Without(cur, j)[..j] == cur[..j] && Without(cur, j)[j..] == cur[j + 1..];
    assert cur[..j + 1] == cur[..j] + [cur[j]];
  }

  lemma ScanMeans(cur: seq<Node<HostKey>>, b: seq<Node<HostKey>>, p: nat, j: nat,
                  dropped: seq<Node<HostKey>>, ctxOf: map<nat, int>, ctx: int)
    requires Scanned(cur, b, p, j, dropped, ctxOf, ctx)
    ensures p <= |b| && j <= |cur|
  {}

  lemma ScanEnd(cur: seq<Node<HostKey>>, b: seq<Node<HostKey>>, p: nat, j: nat,
                dropped: seq<Node<HostKey>>, ctxOf: map<nat, int>, ctx: int)
    requires Scanned(cur, b, p, j, dropped, ctxOf, ctx) && j == |cur|
    ensures cur == OfCtx(b, ctxOf, ctx, false) && dropped == OfCtx(b, ctxOf, ctx, true)
  {
    assert |b[p..]| == 0 && b[..p] == b && cur[..j] == cur;
  }

  // ----- the table -----

  class LroState {
    const pool: Pool
    const tbl: HashTbl<HostKey>
    /** The context id stored in each pool node. */
    var ctxOf: map<nat, int>
    var initialized: bool

    /** The nodes handed out by the pool are exactly the nodes in the table. */
    ghost predicate Valid()
      reads this, pool, tbl, tbl.buckets
    {
      && initialized
      && pool.Valid() && tbl.Valid() && tbl.ops == LroOps
      && pool.out == TableIds(tbl.buckets[..])
    }

    /** unm_init_lro for a card that offers `maxLro` flows. */
    constructor (maxLro: nat)
      requires maxLro > 0
      ensures Valid() && fresh(pool) && fresh(tbl) && fresh(tbl.buckets)
      ensures pool.maxEntries == maxLro && pool.out == multiset{}
    {
      LroComparatorIsEquivalence();
      var p := new Pool(maxLro);
      var t := new HashTbl<HostKey>(maxLro, LroOps);
      pool, tbl, ctxOf, initialized := p, t, map[], true;
      new;
      EmptyTable(tbl.buckets[..]);
    }

    /** nx_initiate_lro; `sendRv` is what nx_nic_send_cmd_descs returns. */
    method Initiate(key: HostKey, ctxId: int, sendRv: int) returns (rv: int)
      requires Valid()
      modifies this, pool, tbl.buckets
      ensures Valid()
      ensures ctxOf == if old(pool.freeList) == [] then old(ctxOf) else old(ctxOf)[old(pool.freeList)[0] := ctxId]
      ensures var i, free := Bucket(LroOps, tbl.bucketCnt, key), old(pool.freeList);
        if free == [] then
          rv == 0 && pool.freeList == free && tbl.buckets[..] == old(tbl.buckets[..])
        else if Find(LroOps, old(tbl.buckets[..])[i], key).Some? then
          rv == NODE_EXISTS && pool.freeList == free[1..] + [free[0]] && tbl.buckets[..] == old(tbl.buckets[..])
        else if sendRv != 0 then
          rv == sendRv && pool.freeList == free[1..] + [free[0]] && tbl.buckets[..] == old(tbl.buckets[..])
        else
          && rv == 0 && pool.freeList == free[1..]
          && tbl.buckets[..] ==
             old(tbl.buckets[..])[i := Inserted(LroOps, old(tbl.buckets[..])[i], Node(free[0], key))]
    {
      hide Bucket, CmpIpKey, Equivalence, Fresh, TableIds, Nodes, Ids, BucketOk, Inserted;
      var alloc := pool.Alloc();
      if alloc.None? {
        return 0;
      }
      ctxOf := ctxOf[alloc.value := ctxId];
      rv := AddEntry(Node(alloc.value, key));
      if rv == NODE_INSERTED {
        rv := sendRv;
        if rv != 0 {
          Rollback(Node(alloc.value, key), old(tbl.buckets[..]));
        }
      }
    }

    /** The insertion step: a node whose key is already there goes straight back to the pool. */
    method AddEntry(node: Node<HostKey>) returns (rv: int)
      requires initialized && pool.Valid() && tbl.Valid() && tbl.ops == LroOps
      requires pool.out == TableIds(tbl.buckets[..]) + multiset{node.id}
      modifies pool, tbl.buckets
      ensures Valid()
      ensures var i := Bucket(LroOps, tbl.bucketCnt, node.key);
        if Find(LroOps, old(tbl.buckets[..])[i], node.key).Some? then
          rv == NODE_EXISTS && pool.freeList == old(pool.freeList) + [node.id] && tbl.buckets[..] == old(tbl.buckets[..])
        else
          && rv == NODE_INSERTED && pool.freeList == old(pool.freeList)
          && tbl.buckets[..] == old(tbl.buckets[..])[i := Inserted(LroOps, old(tbl.buckets[..])[i], node)]
    {
      hide Bucket, CmpIpKey, Equivalence, Fresh, TableIds, Nodes, Ids, BucketOk, Inserted;
      InsertedBucketIds(tbl.buckets[..], Bucket(LroOps, tbl.bucketCnt, node.key), node);
      rv := tbl.Insert(node);
      if rv != NODE_INSERTED {
        var _ := pool.Free(node.id);
      }
    }

    /** The failure path after the request could not be sent: delete by key, free the node. */
    method Rollback(node: Node<HostKey>, ghost before: seq<seq<Node<HostKey>>>)
      requires Valid() && |before| == tbl.buckets.Length
      requires var i := Bucket(LroOps, tbl.bucketCnt, node.key);
        && Find(LroOps, before[i], node.key).None?
        && tbl.buckets[..] == before[i := Inserted(LroOps, before[i], node)]
      modifies pool, tbl.buckets
      ensures Valid() && tbl.buckets[..] == before && pool.freeList == old(pool.freeList) + [node.id]
    {
      hide Bucket, CmpIpKey, Equivalence, Fresh, TableIds, WellFormed, Ids, Inserted, Without, Find;
      ghost var i := Bucket(LroOps, tbl.bucketCnt, node.key);
      ghost var with := Inserted(LroOps, before[i], node);
      RollbackRestores(before[i], node);
      DeletedBucketIds(tbl.buckets[..], i, Find(LroOps, with, node.key).value);
      var _ := tbl.Delete(node.key);
      assert before[i := with][i] == with && before[i := with][i := before[i]] == before;
      var _ := pool.Free(node.id);
    }

    /** nx_handle_lro_response: the card has dropped a flow. */
    method HandleResponse(key: HostKey)
      requires Valid()
      modifies pool, tbl.buckets
      ensures Valid()
      ensures match Lookup(LroOps, old(tbl.buckets[..]), tbl.bucketCnt, key)
        case None => tbl.buckets[..] == old(tbl.buckets[..]) && pool.freeList == old(pool.freeList)
        case Some(n) =>
          && SameFlow(key, n.key) && pool.freeList == old(pool.freeList) + [n.id]
          && multiset(Nodes(old(tbl.buckets[..]))) == multiset(Nodes(tbl.buckets[..])) + multiset{n}
          && (var i := Bucket(LroOps, tbl.bucketCnt, key); var b := old(tbl.buckets[..])[i];
              exists j :: 0 <= j < |b| && b[j] == n && tbl.buckets[..] == old(tbl.buckets[..])[i := Without(b, j)])
    {
      hide Bucket, CmpIpKey, Equivalence, Fresh, TableIds, Nodes, Ids, BucketOk;
      ghost var i, before := Bucket(LroOps, tbl.bucketCnt, key), tbl.buckets[..];
      var entry := tbl.Delete(key);
      match entry {
        case None =>
        case Some(n) =>
          ghost var j := Find(LroOps, before[i], key).value;
          CmpZeroIsSameFlow(key, n.key);
          DeletedBucketIds(before, i, j);
          DeletedBucketNodes(before, i, j);
          var _ := pool.Free(n.id);
      }
    }

    /** nx_lro_delete_ctx_lro. */
    method DeleteCtx(ctx: int)
      requires Valid()
      modifies pool, tbl.buckets
      ensures Valid()
      ensures forall i | 0 <= i < tbl.buckets.Length ::
        tbl.buckets[i] == OfCtx(old(tbl.buckets[..])[i], ctxOf, ctx, false)
    {
      hide Bucket, CmpIpKey, Equivalence, OfCtx, WellFormed, TableIds;
      ghost var before := tbl.buckets[..];
      var i := 0;
      while i < tbl.buckets.Length
        invariant 0 <= i <= tbl.buckets.Length && Valid()
        invariant forall j | 0 <= j < tbl.buckets.Length ::
          tbl.buckets[j] == if j < i then OfCtx(before[j], ctxOf, ctx, false) else before[j]
        modifies pool, tbl.buckets
      {
        DeleteCtxFrom(i, ctx);
        i := i + 1;
      }
    }

    /** One bucket of nx_lro_delete_ctx_lro. */
    method DeleteCtxFrom(i: nat, ctx: int)
      requires Valid() && i < tbl.buckets.Length
      modifies pool, tbl.buckets
      ensures Valid()
      ensures tbl.buckets[..] == old(tbl.buckets[..])[i := OfCtx(old(tbl.buckets[i]), ctxOf, ctx, false)]
      ensures pool.freeList == old(pool.freeList) + Ids(OfCtx(old(tbl.buckets[i]), ctxOf, ctx, true))
    {
      hide Bucket, CmpIpKey, Equivalence, Ids, TableIds, WellFormed, Without, OfCtx, Scanned, Fresh, Valid;
      ghost var before, b, p := tbl.buckets[..], tbl.buckets[i], 0;
      ghost var dropped: seq<Node<HostKey>> := [];
      ScanStart(b, ctxOf, ctx);
      var j := 0;
      while j < |tbl.buckets[i]|
        invariant Valid() && j <= |tbl.buckets[i]|
        invariant tbl.buckets[..] == before[i := tbl.buckets[i]]
        invariant Scanned(tbl.buckets[i], b, p, j, dropped, ctxOf, ctx)
        invariant pool.freeList == old(pool.freeList) + Ids(dropped)
        modifies pool, tbl.buckets
        decreases |b| - p
      {
        var node := tbl.buckets[i][j];
        ScanMeans(tbl.buckets[i], b, p, j, dropped, ctxOf, ctx);
        ScanStep(tbl.buckets[i], b, p, j, dropped, ctxOf, ctx);
        if node.id in ctxOf && ctxOf[node.id] == ctx {
          IdsAppend(dropped, node);
          ghost var was := tbl.buckets[..];
          DropNode(i, j);
          assert before[i := was[i]][i := tbl.buckets[i]] == before[i := tbl.buckets[i]];
          dropped := dropped + [node];
        } else {
          j := j + 1;
        }
        p := p + 1;
      }
      ScanEnd(tbl.buckets[i], b, p, j, dropped, ctxOf, ctx);
    }

    /** Unlink one node from its bucket and give it back to the pool. */
    method DropNode(i: nat, j: nat)
      requires Valid() && i < tbl.buckets.Length && j < |tbl.buckets[i]|
      modifies pool, tbl.buckets
      ensures Valid()
      ensures tbl.buckets[..] == old(tbl.buckets[..])[i := Without(old(tbl.buckets[i]), j)]
      ensures pool.freeList == old(pool.freeList) + [old(tbl.buckets[i][j]).id]
    {
      hide Bucket, CmpIpKey, Equivalence, Fresh, Ids, TableIds;
      var b := tbl.buckets[i];
      assert BucketOk(LroOps, tbl.buckets[..][i], i, tbl.bucketCnt);
      WithoutKeepsBucket(LroOps, b, j, i, tbl.bucketCnt);
      DeletedBucketIds(tbl.buckets[..], i, j);
      tbl.buckets[i] := b[..j] + b[j + 1..];
      var _ := pool.Free(b[j].id);
    }

    /**
      unm_cleanup_lro: every node leaves its bucket and goes back to the pool, in the order of the
      table, and the pool then gives all of its nodes to kfree and hits no BUG.  Without a table
      there is nothing to do.
     */
    method Cleanup() returns (inOrder: bool)
      requires initialized ==> Valid()
      modifies this`initialized, pool, tbl.buckets
      ensures inOrder && !initialized
      ensures old(initialized) ==>
        && (forall i | 0 <= i < tbl.buckets.Length :: tbl.buckets[i] == [])
        && pool.out == multiset{} && pool.freeList == [] && pool.allocatedCnt == 0
        && pool.destroyed == old(pool.destroyed) + old(pool.freeList) + Ids(Nodes(old(tbl.buckets[..])))
      ensures !old(initialized) ==>
        tbl.buckets[..] == old(tbl.buckets[..]) && pool.freeList == old(pool.freeList) && pool.destroyed == old(pool.destroyed)
    {
      hide Bucket, CmpIpKey, Equivalence, Fresh, WellFormed, TableIds, Nodes;
      inOrder := true;
      if initialized {
        TableIdsAreNodes(tbl.buckets[..]);
        var called := tbl.Destroy();
        inOrder := ReturnNodes(called);
        var destroyed := pool.Destroy();
        inOrder := inOrder && destroyed;
      }
      initialized := false;
    }

    /** nx_lro_destroy_node for the nodes of the table, one after the other. */
    method ReturnNodes(called: seq<Node<HostKey>>) returns (inOrder: bool)
      requires pool.Valid() && pool.out == multiset(Ids(called))
      modifies pool`freeList, pool`allocatedCnt, pool`out
      ensures pool.Valid() && inOrder && pool.out == multiset{}
      ensures pool.freeList == old(pool.freeList) + Ids(called)
    {
      hide Fresh;
      inOrder := true;
      var i := 0;
      assert Ids(called)[0..] == Ids(called);
      while i < |called|
        invariant 0 <= i <= |called| && inOrder && pool.Valid()
        invariant pool.out == multiset(Ids(called)[i..])
        invariant pool.freeList == old(pool.freeList) + Ids(called)[..i]
        modifies pool`freeList, pool`allocatedCnt, pool`out
      {
        assert Ids(called)[i..] == [called[i].id] + Ids(called)[i + 1..];
        assert Ids(called)[..i + 1] == Ids(called)[..i] + [called[i].id];
        inOrder := pool.Free(called[i].id);
        i := i + 1;
      }
      assert Ids(called)[..i] == Ids(called);
    }

    /** What the last nodes given to kfree are, after a teardown: each node of the pool, once. */
    lemma AllDestroyedOnce(x: nat)
      requires Valid()
      ensures multiset(pool.freeList + Ids(Nodes(tbl.buckets[..])))[x] == if x < pool.maxEntries then 1 else 0
    {
      hide Fresh, TableIds, Nodes, Ids;
      TableIdsAreNodes(tbl.buckets[..]);
      EachNodeOnce(pool.freeList, pool.out, pool.maxEntries, x);
      assert multiset(pool.freeList + Ids(Nodes(tbl.buckets[..]))) == multiset(pool.freeList) + pool.out;
    }
  }

  lemma {:induction false} EmptyTable(buckets: seq<seq<Node<HostKey>>>)
    requires forall i | 0 <= i < |buckets| :: buckets[i] == []
    ensures TableIds(buckets) == multiset{}
  {
    if buckets != [] { EmptyTable(buckets[..|buckets| - 1]); }
  }

  lemma InsertedBucketIds(buckets: seq<seq<Node<HostKey>>>, i: nat, node: Node<HostKey>)
    requires i < |buckets|
    ensures TableIds(buckets[i := Inserted(LroOps, buckets[i], node)]) == TableIds(buckets) + multiset{node.id}
  {
    hide Ids, TableIds, CmpIpKey;
    var b := buckets[i];
    var r := Inserted(LroOps, b, node);
    InsertedIds(b, node, InsertionPoint(LroOps, b, node));
    TableIdsUpdate(buckets, i, r);
    Cancel(TableIds(buckets[i := r]), TableIds(buckets), multiset(Ids(r)), multiset(Ids(b)), multiset{node.id});
  }

  lemma DeletedBucketIds(buckets: seq<seq<Node<HostKey>>>, i: nat, j: nat)
    requires i < |buckets| && j < |buckets[i]|
    ensures TableIds(buckets) == TableIds(buckets[i := Without(buckets[i], j)]) + multiset{buckets[i][j].id}
  {
    hide Ids, TableIds;
    var b := buckets[i];
    var w := Without(b, j);
    WithoutIds(b, j);
    TableIdsUpdate(buckets, i, w);
    Cancel(TableIds(buckets), TableIds(buckets[i := w]), multiset(Ids(b)), multiset(Ids(w)), multiset{b[j].id});
  }

  lemma DeletedBucketNodes(buckets: seq<seq<Node<HostKey>>>, i: nat, j: nat)
    requires i < |buckets| && j < |buckets[i]|
    ensures multiset(Nodes(buckets)) == multiset(Nodes(buckets[i := Without(buckets[i], j)])) + multiset{buckets[i][j]}
  {
    hide Nodes;
    var b := buckets[i];
    var w := Without(b, j);
    assert b == b[..j] + [b[j]] + b[j + 1..];
    NodesUpdate(buckets, i, w);
    Cancel(multiset(Nodes(buckets)), multiset(Nodes(buckets[i := w])), multiset(b), multiset(w), multiset{b[j]});
  }

  lemma IdsAppend(s: seq<Node<HostKey>>, n: Node<HostKey>)
    ensures Ids(s + [n]) == Ids(s) + [n.id]
  {}
}
