/**
  The chained hash table of nx_hash_table.c, for any hash and comparator.

  Nodes carry an identity, so that ownership can be followed through the table.  Each bucket
  has its own lock, which makes every operation on one bucket atomic.
 */
module HashTable {
  import opened Bits
  import opened Options

  datatype Node<K> = Node(id: nat, key: K)

  datatype Ops<!K> = Ops(hash: K -> nat, compare: (K, K) -> int)

  const NODE_INSERTED := 1
  const NODE_EXISTS := 2

  /** Comparing to zero is an equivalence. */
  ghost predicate Equivalence<K(!new)>(ops: Ops<K>) {
    && (forall a :: ops.compare(a, a) == 0)
    && (forall a, b :: ops.compare(a, b) == 0 ==> ops.compare(b, a) == 0)
    && (forall a, b, c :: ops.compare(a, b) == 0 && ops.compare(b, c) == 0 ==> ops.compare(a, c) == 0)
  }

  /** get_bucket. */
  function Bucket<K>(ops: Ops<K>, cnt: nat, key: K): (i: nat)
    requires cnt > 0
    ensures i < cnt
  {
    BitAnd(ops.hash(key), cnt - 1)
  }

  /** Every node is in the bucket of its key, and no bucket holds equal keys. */
  ghost predicate WellFormed<K>(ops: Ops<K>, buckets: seq<seq<Node<K>>>, cnt: nat) {
    && cnt > 0 && |buckets| == cnt
    && forall i | 0 <= i < |buckets| :: BucketOk(ops, buckets[i], i, cnt)
  }

  ghost predicate BucketOk<K>(ops: Ops<K>, b: seq<Node<K>>, i: nat, cnt: nat)
    requires cnt > 0
  {
    && (forall j | 0 <= j < |b| :: Bucket(ops, cnt, b[j].key) == i)
    && forall j, k | 0 <= j < |b| && 0 <= k < |b| && j != k :: ops.compare(b[j].key, b[k].key) != 0
  }

  // ----- one bucket -----

  /** The first node whose key compares equal. */
  function Find<K>(ops: Ops<K>, b: seq<Node<K>>, key: K): (r: Option<nat>)
    ensures r.Some? ==> r.value < |b| && ops.compare(key, b[r.value].key) == 0
    ensures r.None? ==> forall j | 0 <= j < |b| :: ops.compare(key, b[j].key) != 0
  {
    if b == [] then None
    else if ops.compare(key, b[0].key) == 0 then Some(0)
    else match Find(ops, b[1..], key) case None => None case Some(j) => Some(j + 1)
  }

  lemma {:induction false} FindFirst<K>(ops: Ops<K>, b: seq<Node<K>>, key: K, j: nat)
    requires j < |b| && ops.compare(key, b[j].key) == 0
    requires forall i | 0 <= i < j :: ops.compare(key, b[i].key) != 0
    ensures Find(ops, b, key) == Some(j)
  {
    if j > 0 { FindFirst(ops, b[1..], key, j - 1); }
  }

  lemma FindOnly<K(!new)>(ops: Ops<K>, b: seq<Node<K>>, i: nat, cnt: nat, key: K, j: nat)
    requires Equivalence(ops) && cnt > 0 && BucketOk(ops, b, i, cnt) && j < |b| && ops.compare(key, b[j].key) == 0
    ensures Find(ops, b, key) == Some(j)
  {
    forall k | 0 <= k < j ensures ops.compare(key, b[k].key) != 0 {
      var a, c := b[k].key, b[j].key;
      assert ops.compare(key, a) == 0 ==> ops.compare(a, key) == 0;
      assert ops.compare(a, key) == 0 ==> ops.compare(a, c) == 0;
    }
    FindFirst(ops, b, key, j);
  }

  /**
    Where an accepted node goes.  Only the comparison with the last entry survives the loop:
    the node goes before that entry if it compares greater, else to the tail.
   */
  function InsertionPoint<K>(ops: Ops<K>, b: seq<Node<K>>, node: Node<K>): (at: nat)
    ensures at <= |b|
  {
    if b != [] && ops.compare(node.key, b[|b| - 1].key) > 0 then |b| - 1 else |b|
  }

  function Inserted<K>(ops: Ops<K>, b: seq<Node<K>>, node: Node<K>): seq<Node<K>> {
    var at := InsertionPoint(ops, b, node);
    b[..at] + [node] + b[at..]
  }

  lemma InsertedWhere<K>(ops: Ops<K>, b: seq<Node<K>>, node: Node<K>, entry: Option<nat>)
    requires entry == if b != [] && ops.compare(node.key, b[|b| - 1].key) > 0 then Some(|b| - 1) else None
    ensures Inserted(ops, b, node) ==
      match entry case Some(at) => b[..at] + [node] + b[at..] case None => b + [node]
  {
    assert b[..|b|] + [node] + b[|b|..] == b + [node];
  }

  // ----- order within a bucket -----

  /** The sign of the comparison is a strict order on unequal keys. */
  ghost predicate Ordering<K(!new)>(ops: Ops<K>) {
    && (forall a, b :: ops.compare(a, b) < 0 <==> ops.compare(b, a) > 0)
    && (forall a, b, c :: ops.compare(a, b) > 0 && ops.compare(b, c) > 0 ==> ops.compare(a, c) > 0)
  }

  /** Each key compares greater than all keys behind it, or less. */
  ghost predicate Sorted<K>(ops: Ops<K>, b: seq<Node<K>>, descending: bool) {
    forall j, k | 0 <= j < k < |b| ::
      if descending then ops.compare(b[j].key, b[k].key) > 0 else ops.compare(b[j].key, b[k].key) < 0
  }

  /**
    When insertion keeps a descending bucket descending: exactly if the new key belongs behind
    the last entry but one, because no earlier place is ever chosen.
   */
  lemma StaysDescendingExactlyWhen<K(!new)>(ops: Ops<K>, b: seq<Node<K>>, node: Node<K>)
    requires Ordering(ops) && Sorted(ops, b, true)
    requires forall j | 0 <= j < |b| :: ops.compare(node.key, b[j].key) != 0
    ensures Sorted(ops, Inserted(ops, b, node), true) <==> |b| < 2 || ops.compare(node.key, b[|b| - 2].key) < 0
  {
    hide Ordering, Sorted, Inserted;
    var r := Inserted(ops, b, node);
    InsertedAt(ops, b, node, 0);
    SortedMeans(ops, r);
    if |b| < 2 || ops.compare(node.key, b[|b| - 2].key) < 0 {
      forall j, k | 0 <= j < k <= |b| ensures ops.compare(r[j].key, r[k].key) > 0 {
        StillBefore(ops, b, node, j, k);
      }
    } else {
      InsertedAt(ops, b, node, |b| - 2);
      InsertedAt(ops, b, node, InsertionPoint(ops, b, node));
      OrderingMeans(ops, node.key, b[|b| - 2].key);
      assert !(ops.compare(r[|b| - 2].key, r[InsertionPoint(ops, b, node)].key) > 0);
    }
  }

  lemma SortedMeans<K>(ops: Ops<K>, b: seq<Node<K>>)
    ensures Sorted(ops, b, true) <==> forall j, k | 0 <= j < k < |b| :: ops.compare(b[j].key, b[k].key) > 0
  {}

  lemma OrderingMeans<K(!new)>(ops: Ops<K>, x: K, y: K)
    requires Ordering(ops)
    ensures ops.compare(x, y) < 0 <==> ops.compare(y, x) > 0
  {}

  lemma InsertedAt<K>(ops: Ops<K>, b: seq<Node<K>>, node: Node<K>, j: nat)
    requires j <= |b|
    ensures var r, at := Inserted(ops, b, node), InsertionPoint(ops, b, node);
      |r| == |b| + 1 && r[j] == if j < at then b[j] else if j == at then node else b[j - 1]
  {}

  lemma StillBefore<K(!new)>(ops: Ops<K>, b: seq<Node<K>>, node: Node<K>, j: nat, k: nat)
    requires Ordering(ops) && Sorted(ops, b, true) && j < k <= |b|
    requires forall j | 0 <= j < |b| :: ops.compare(node.key, b[j].key) != 0
    requires |b| < 2 || ops.compare(node.key, b[|b| - 2].key) < 0
    ensures var r := Inserted(ops, b, node); |r| == |b| + 1 && ops.compare(r[j].key, r[k].key) > 0
  {
    hide Ordering, Inserted;
    var at := InsertionPoint(ops, b, node);
    InsertedAt(ops, b, node, j);
    InsertedAt(ops, b, node, k);
    if k == at { BehindIsSmaller(ops, b, node, at, j); }
  }

  lemma BehindIsSmaller<K(!new)>(ops: Ops<K>, b: seq<Node<K>>, node: Node<K>, at: nat, j: nat)
    requires Ordering(ops) && Sorted(ops, b, true) && j < at == InsertionPoint(ops, b, node)
    requires forall j | 0 <= j < |b| :: ops.compare(node.key, b[j].key) != 0
    requires |b| < 2 || ops.compare(node.key, b[|b| - 2].key) < 0
    ensures ops.compare(b[j].key, node.key) > 0
  {
    if j < |b| - 2 { assert ops.compare(b[j].key, b[|b| - 2].key) > 0; }
  }

  /** In the other direction insertion never keeps order, once there is an entry. */
  lemma NeverAscending<K(!new)>(ops: Ops<K>, b: seq<Node<K>>, node: Node<K>)
    requires Ordering(ops) && b != []
    ensures !Sorted(ops, Inserted(ops, b, node), false)
  {
    var r := Inserted(ops, b, node);
    assert {r[|b| - 1], r[|b|]} == {node, b[|b| - 1]};
    assert ops.compare(r[|b| - 1].key, r[|b|].key) >= 0;
  }

  /** The greatest of three keys ends up between the other two. */
  lemma BucketBecomesUnsorted()
    ensures var ops := Ops((k: int) => 0, (a: int, b: int) => a - b);
      var b := [Node(0, 2), Node(1, 1)];
      Ordering(ops) && Sorted(ops, b, true) && Inserted(ops, b, Node(2, 3)) == [Node(0, 2), Node(2, 3), Node(1, 1)]
      && !Sorted(ops, Inserted(ops, b, Node(2, 3)), true)
  {
    var ops := Ops((k: int) => 0, (a: int, b: int) => a - b);
    var r := Inserted(ops, [Node(0, 2), Node(1, 1)], Node(2, 3));
    assert ops.compare(r[0].key, r[1].key) < 0;
  }

  /** Taking the node out again gives the bucket back. */
  lemma InsertedThenWithout<K>(b: seq<Node<K>>, node: Node<K>, at: nat)
    requires at <= |b|
    ensures var r := b[..at] + [node] + b[at..];
      && r[at] == node && Without(r, at) == b && forall k | 0 <= k < at :: r[k] == b[k]
  {
    var r := b[..at] + [node] + b[at..];
    assert r[..at] == b[..at] && r[at + 1..] == b[at..];
  }

  function Without<K>(b: seq<Node<K>>, j: nat): seq<Node<K>>
    requires j < |b|
  {
    b[..j] + b[j + 1..]
  }

  lemma InsertedKeepsBucket<K(!new)>(ops: Ops<K>, b: seq<Node<K>>, node: Node<K>, i: nat, cnt: nat)
    requires Equivalence(ops) && cnt > 0 && BucketOk(ops, b, i, cnt)
    requires Bucket(ops, cnt, node.key) == i && Find(ops, b, node.key).None?
    ensures BucketOk(ops, Inserted(ops, b, node), i, cnt)
    ensures multiset(Inserted(ops, b, node)) == multiset(b) + multiset{node}
  {
    hide BucketOk, Bucket;
    var at := InsertionPoint(ops, b, node);
    assert b == b[..at] + b[at..];
    SplicedKeepsBucket(ops, b, node, at, i, cnt);
  }

  lemma SplicedKeepsBucket<K(!new)>(ops: Ops<K>, b: seq<Node<K>>, node: Node<K>, at: nat, i: nat, cnt: nat)
    requires Equivalence(ops) && cnt > 0 && BucketOk(ops, b, i, cnt) && at <= |b|
    requires Bucket(ops, cnt, node.key) == i && forall j | 0 <= j < |b| :: ops.compare(node.key, b[j].key) != 0
    ensures BucketOk(ops, b[..at] + [node] + b[at..], i, cnt)
  {
    hide Bucket;
    var r := b[..at] + [node] + b[at..];
    forall j | 0 <= j < |b| ensures ops.compare(b[j].key, node.key) != 0 {
      var a, c := b[j].key, node.key;
      assert ops.compare(a, c) == 0 ==> ops.compare(c, a) == 0;
    }
    forall j, k | 0 <= j < |r| && 0 <= k < |r| && j != k
      ensures ops.compare(r[j].key, r[k].key) != 0
    {
      var j', k' := if j <= at then j else j - 1, if k <= at then k else k - 1;
      assert j != at ==> r[j] == b[j'];
      assert k != at ==> r[k] == b[k'];
    }
  }

  lemma WithoutKeepsBucket<K>(ops: Ops<K>, b: seq<Node<K>>, j: nat, i: nat, cnt: nat)
    requires cnt > 0 && BucketOk(ops, b, i, cnt) && j < |b|
    ensures BucketOk(ops, Without(b, j), i, cnt)
    ensures multiset(b) == multiset(Without(b, j)) + multiset{b[j]}
  {
    hide Bucket;
    assert b == b[..j] + [b[j]] + b[j + 1..];
  }

  // ----- the whole table as a finite map -----

  /** All nodes of the table, bucket by bucket. */
  function Nodes<K>(buckets: seq<seq<Node<K>>>): seq<Node<K>> {
    if buckets == [] then [] else Nodes(buckets[..|buckets| - 1]) + buckets[|buckets| - 1]
  }

  lemma {:induction false} NodesUpdate<K>(buckets: seq<seq<Node<K>>>, i: nat, b: seq<Node<K>>)
    requires i < |buckets|
    ensures multiset(Nodes(buckets[i := b])) + multiset(buckets[i]) == multiset(Nodes(buckets)) + multiset(b)
  {
    var n, u := |buckets| - 1, buckets[i := b];
    var head, last := buckets[..n], buckets[n];
    if i == n {
      assert u[..n] == head;
    } else {
      assert u[..n] == head[i := b] && u[n] == last && head[i] == buckets[i];
      NodesUpdate(head, i, b);
      Regroup(Nodes(head[i := b]), Nodes(head), last, buckets[i], b);
    }
  }

  lemma Regroup<T>(x: seq<T>, y: seq<T>, last: seq<T>, p: seq<T>, q: seq<T>)
    requires multiset(x) + multiset(p) == multiset(y) + multiset(q)
    ensures multiset(x + last) + multiset(p) == multiset(y + last) + multiset(q)
  {
    assert multiset(x + last) + multiset(p) == multiset(x) + multiset(p) + multiset(last);
    assert multiset(y + last) + multiset(q) == multiset(y) + multiset(q) + multiset(last);
  }

  lemma {:induction false} NodeHasBucket<K>(buckets: seq<seq<Node<K>>>, n: Node<K>)
    ensures n in Nodes(buckets) <==> exists i :: 0 <= i < |buckets| && n in buckets[i]
  {
    if buckets != [] {
      var last := |buckets| - 1;
      NodeHasBucket(buckets[..last], n);
      if n in buckets[last] { assert n in Nodes(buckets); }
      if i :| 0 <= i < |buckets| && n in buckets[i] {
        if i < last { assert n in buckets[..last][i]; }
      }
    }
  }

  /** What the table returns for a key. */
  function Lookup<K>(ops: Ops<K>, buckets: seq<seq<Node<K>>>, cnt: nat, key: K): Option<Node<K>>
    requires cnt > 0 && |buckets| == cnt
  {
    var b := buckets[Bucket(ops, cnt, key)];
    match Find(ops, b, key) case None => None case Some(j) => Some(b[j])
  }

  /** Equal keys share a bucket. */
  ghost predicate Respects<K(!new)>(ops: Ops<K>, cnt: nat)
    requires cnt > 0
  {
    forall a, b | ops.compare(a, b) == 0 :: Bucket(ops, cnt, a) == Bucket(ops, cnt, b)
  }

  /** In this table every stored node is found under every key equal to its own. */
  ghost predicate IsMap<K(!new)>(ops: Ops<K>, buckets: seq<seq<Node<K>>>, cnt: nat)
    requires cnt > 0 && |buckets| == cnt
  {
    forall n, key | n in Nodes(buckets) && ops.compare(key, n.key) == 0 :: Lookup(ops, buckets, cnt, key) == Some(n)
  }

  /**
    Every well-formed table is a map over key classes exactly when the hash respects the
    comparator.
   */
  lemma MapExactlyWhenRespected<K(!new)>(ops: Ops<K>, cnt: nat)
    requires Equivalence(ops) && cnt > 0
    ensures (forall buckets | WellFormed(ops, buckets, cnt) :: IsMap(ops, buckets, cnt)) <==> Respects(ops, cnt)
  {
    if Respects(ops, cnt) {
      forall buckets | WellFormed(ops, buckets, cnt) ensures IsMap(ops, buckets, cnt) {
        RespectedIsMap(ops, buckets, cnt);
      }
    } else {
      var a, b :| ops.compare(a, b) == 0 && Bucket(ops, cnt, a) != Bucket(ops, cnt, b);
      OneNodeMissed(ops, cnt, a, b);
    }
  }

  lemma RespectedIsMap<K(!new)>(ops: Ops<K>, buckets: seq<seq<Node<K>>>, cnt: nat)
    requires Equivalence(ops) && cnt > 0 && Respects(ops, cnt) && WellFormed(ops, buckets, cnt)
    ensures IsMap(ops, buckets, cnt)
  {
    hide Bucket, Nodes;
    forall n, key | n in Nodes(buckets) && ops.compare(key, n.key) == 0
      ensures Lookup(ops, buckets, cnt, key) == Some(n)
    {
      NodeHasBucket(buckets, n);
      var i :| 0 <= i < |buckets| && n in buckets[i];
      var j :| 0 <= j < |buckets[i]| && buckets[i][j] == n;
      assert BucketOk(ops, buckets[i], i, cnt);
      FindOnly(ops, buckets[i], i, cnt, key, j);
    }
  }

  lemma OneNodeMissed<K(!new)>(ops: Ops<K>, cnt: nat, a: K, b: K)
    requires cnt > 0 && ops.compare(a, b) == 0 && Bucket(ops, cnt, a) != Bucket(ops, cnt, b)
    ensures exists buckets :: WellFormed(ops, buckets, cnt) && !IsMap(ops, buckets, cnt)
  {
    hide Bucket, Nodes;
    var i, n := Bucket(ops, cnt, b), Node(0, b);
    var buckets := seq(cnt, j => if j == i then [n] else []);
    NodeHasBucket(buckets, n);
    assert n in buckets[i];
    assert Lookup(ops, buckets, cnt, a) == None;
    assert WellFormed(ops, buckets, cnt);
  }

  /** Insertion is map update: the class of the new key gets the node, all others keep theirs. */
  lemma InsertIsMapUpdate<K(!new)>(ops: Ops<K>, buckets: seq<seq<Node<K>>>, cnt: nat, node: Node<K>, key: K)
    requires Equivalence(ops) && cnt > 0 && WellFormed(ops, buckets, cnt)
    requires Lookup(ops, buckets, cnt, node.key).None?
    ensures var i := Bucket(ops, cnt, node.key);
      Lookup(ops, buckets[i := Inserted(ops, buckets[i], node)], cnt, key) ==
      if Bucket(ops, cnt, key) == i && ops.compare(key, node.key) == 0 then Some(node) else Lookup(ops, buckets, cnt, key)
  {
    hide Bucket, Inserted;
    var i := Bucket(ops, cnt, node.key);
    var b := buckets[i];
    assert BucketOk(ops, b, i, cnt);
    InsertedKeepsBucket(ops, b, node, i, cnt);
    if Bucket(ops, cnt, key) == i {
      SameMembersSameFind(ops, b, Inserted(ops, b, node), i, cnt, node, key);
    }
  }

  /** Deletion is map removal: the class of the key loses its node, all others keep theirs. */
  lemma DeleteIsMapRemoval<K(!new)>(ops: Ops<K>, buckets: seq<seq<Node<K>>>, cnt: nat, gone: K, key: K)
    requires Equivalence(ops) && cnt > 0 && WellFormed(ops, buckets, cnt)
    requires Lookup(ops, buckets, cnt, gone).Some?
    ensures var i := Bucket(ops, cnt, gone);
      Lookup(ops, buckets[i := Without(buckets[i], Find(ops, buckets[i], gone).value)], cnt, key) ==
      if Bucket(ops, cnt, key) == i && ops.compare(key, gone) == 0 then None else Lookup(ops, buckets, cnt, key)
  {
    hide Bucket;
    var i := Bucket(ops, cnt, gone);
    var b := buckets[i];
    var j := Find(ops, b, gone).value;
    assert BucketOk(ops, b, i, cnt);
    WithoutKeepsBucket(ops, b, j, i, cnt);
    if Bucket(ops, cnt, key) == i {
      SameMembersSameFind(ops, Without(b, j), b, i, cnt, b[j], key);
      EqualToBoth(ops, key, gone, b[j].key);
      if ops.compare(key, b[j].key) == 0 { FindOnly(ops, b, i, cnt, key, j); NotFoundWithout(ops, b, j, i, cnt, key); }
    }
  }

  lemma EqualToBoth<K(!new)>(ops: Ops<K>, a: K, b: K, c: K)
    requires Equivalence(ops) && ops.compare(b, c) == 0
    ensures ops.compare(a, b) == 0 <==> ops.compare(a, c) == 0
  {
    assert ops.compare(c, b) == 0;
  }

  lemma NotFoundWithout<K(!new)>(ops: Ops<K>, b: seq<Node<K>>, j: nat, i: nat, cnt: nat, key: K)
    requires Equivalence(ops) && cnt > 0 && BucketOk(ops, b, i, cnt) && j < |b| && ops.compare(key, b[j].key) == 0
    ensures Find(ops, Without(b, j), key).None?
  {
    var w := Without(b, j);
    forall k | 0 <= k < |w| ensures ops.compare(key, w[k].key) != 0 {
      var k' := if k < j then k else k + 1;
      assert w[k] == b[k'] && ops.compare(b[j].key, b[k'].key) != 0;
    }
  }

  /** What a bucket finds depends only on which nodes it holds: `big` is `small` and one more. */
  lemma SameMembersSameFind<K(!new)>(ops: Ops<K>, small: seq<Node<K>>, big: seq<Node<K>>,
                                     i: nat, cnt: nat, x: Node<K>, key: K)
    requires Equivalence(ops) && cnt > 0 && BucketOk(ops, small, i, cnt) && BucketOk(ops, big, i, cnt)
    requires multiset(big) == multiset(small) + multiset{x}
    ensures match Find(ops, big, key)
      case None => Find(ops, small, key).None? && ops.compare(key, x.key) != 0
      case Some(j) =>
        if ops.compare(key, x.key) == 0 then big[j] == x
        else match Find(ops, small, key) case None => false case Some(k) => small[k] == big[j]
  {
    hide BucketOk;
    assert x in multiset(big);
    var at :| 0 <= at < |big| && big[at] == x;
    if ops.compare(key, x.key) == 0 {
      FindOnly(ops, big, i, cnt, key, at);
    } else {
      match Find(ops, big, key) {
        case Some(j) =>
          assert big[j] in multiset(big);
          var k :| 0 <= k < |small| && small[k] == big[j];
          FindOnly(ops, small, i, cnt, key, k);
        case None =>
          forall k | 0 <= k < |small| ensures ops.compare(key, small[k].key) != 0 {
            assert small[k] in multiset(small);
            assert small[k] in multiset(big);
            var j :| 0 <= j < |big| && big[j] == small[k];
          }
      }
    }
  }

  // ----- the operations -----

  class HashTbl<K(!new)> {
    const ops: Ops<K>
    const bucketCnt: nat
    const buckets: array<seq<Node<K>>>

    ghost predicate Valid()
      reads this, buckets
    {
      && bucketCnt > 0 && buckets.Length == bucketCnt
      && Equivalence(ops) && WellFormed(ops, buckets[..], bucketCnt)
    }

    constructor (bucketCnt: nat, ops: Ops<K>)
      requires bucketCnt > 0 && Equivalence(ops)
      ensures Valid() && fresh(buckets) && this.ops == ops && this.bucketCnt == bucketCnt
      ensures forall i | 0 <= i < buckets.Length :: buckets[i] == []
    {
      this.ops, this.bucketCnt := ops, bucketCnt;
      buckets := new seq<Node<K>>[bucketCnt](_ => []);
    }

    /** nx_hash_tbl_insert. */
    method Insert(node: Node<K>) returns (rv: int)
      requires Valid()
      modifies buckets
      ensures Valid()
      ensures var i := Bucket(ops, bucketCnt, node.key);
        match Find(ops, old(buckets[..])[i], node.key)
        case Some(_) => rv == NODE_EXISTS && buckets[..] == old(buckets[..])
        case None => rv == NODE_INSERTED
                     && buckets[..] == old(buckets[..])[i := Inserted(ops, old(buckets[..])[i], node)]
    {
      hide Bucket, BucketOk, Find, Inserted;
      var i := Bucket(ops, bucketCnt, node.key);
      var b := buckets[i];
      var entry: Option<nat> := None;
      var j := 0;
      while j < |b|
        invariant 0 <= j <= |b|
        invariant forall k | 0 <= k < j :: ops.compare(node.key, b[k].key) != 0
        invariant entry == if j > 0 && ops.compare(node.key, b[j - 1].key) > 0 then Some(j - 1) else None
      {
        entry := Some(j);
        rv := ops.compare(node.key, b[j].key);
        if rv == 0 {
          FindFirst(ops, b, node.key, j);
          return NODE_EXISTS;
        }
        if rv < 0 {
          entry := None;
        }
        j := j + 1;
      }
      assert BucketOk(ops, buckets[..][i], i, bucketCnt);
      InsertedKeepsBucket(ops, b, node, i, bucketCnt);
      InsertedWhere(ops, b, node, entry);
      if entry.Some? {
        buckets[i] := b[..entry.value] + [node] + b[entry.value..];
      } else {
        buckets[i] := b + [node];
      }
      rv := NODE_INSERTED;
    }

    /** nx_hash_tbl_get. */
    method Get(key: K) returns (entry: Option<Node<K>>)
      requires Valid()
      ensures entry == Lookup(ops, buckets[..], bucketCnt, key)
    {
      hide Bucket;
      var i := Bucket(ops, bucketCnt, key);
      var j := 0;
      while j < |buckets[i]|
        invariant 0 <= j <= |buckets[i]|
        invariant forall k | 0 <= k < j :: ops.compare(key, buckets[i][k].key) != 0
      {
        if ops.compare(key, buckets[i][j].key) == 0 {
          FindFirst(ops, buckets[i], key, j);
          return Some(buckets[i][j]);
        }
        j := j + 1;
      }
      return None;
    }

    /** nx_hash_tbl_delete. */
    method Delete(key: K) returns (entry: Option<Node<K>>)
      requires Valid()
      modifies buckets
      ensures Valid()
      ensures entry == Lookup(ops, old(buckets[..]), bucketCnt, key)
      ensures var i := Bucket(ops, bucketCnt, key);
        match Find(ops, old(buckets[..])[i], key)
        case None => buckets[..] == old(buckets[..])
        case Some(j) => buckets[..] == old(buckets[..])[i := Without(old(buckets[..])[i], j)]
    {
      hide Bucket;
      var i := Bucket(ops, bucketCnt, key);
      var b := buckets[i];
      var j := 0;
      while j < |b|
        invariant 0 <= j <= |b|
        invariant forall k | 0 <= k < j :: ops.compare(key, b[k].key) != 0
      {
        if ops.compare(key, b[j].key) == 0 {
          FindFirst(ops, b, key, j);
          assert BucketOk(ops, buckets[..][i], i, bucketCnt);
          WithoutKeepsBucket(ops, b, j, i, bucketCnt);
          buckets[i] := b[..j] + b[j + 1..];
          return Some(b[j]);
        }
        j := j + 1;
      }
      return None;
    }

    /** nx_hash_tbl_destroy: the nodes in the order they are handed to the callback. */
    method Destroy() returns (called: seq<Node<K>>)
      requires Valid()
      modifies buckets
      ensures called == Nodes(old(buckets[..]))
      ensures forall i | 0 <= i < buckets.Length :: buckets[i] == []
    {
      hide Bucket, Equivalence;
      called := [];
      var i := 0;
      while i < buckets.Length
        invariant 0 <= i <= buckets.Length
        invariant called == Nodes(old(buckets[..])[..i])
        invariant forall j | 0 <= j < buckets.Length :: buckets[j] == if j < i then [] else old(buckets[..])[j]
      {
        ghost var b := buckets[i];
        ghost var before := called;
        while buckets[i] != []
          invariant called + buckets[i] == before + b
          invariant forall j | 0 <= j < buckets.Length && j != i :: buckets[j] == if j < i then [] else old(buckets[..])[j]
          decreases |buckets[i]|
        {
          called := called + [buckets[i][0]];
          buckets[i] := buckets[i][1..];
        }
        assert called == before + b;
        assert old(buckets[..])[..i + 1][..i] == old(buckets[..])[..i];
        i := i + 1;
      }
      assert old(buckets[..])[..i] == old(buckets[..]);
    }
  }
}
