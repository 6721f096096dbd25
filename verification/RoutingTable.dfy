/** The Kademlia routing table: 160 buckets of at most 8 nodes, kept by distance
    from the own identifier, and the query for the nodes nearest to a target. */
module Routing {
  import opened NodeIds

  const BUCKET_SIZE: nat := 8
  const BUCKETS: nat := 160

  datatype Endpoint = Endpoint(ip: seq<bv8>, port: nat)

  datatype Node = Node(id: NodeID, addr: Endpoint)

  // ---- The table as a value ----

  type Buckets = seq<seq<Node>>

  ghost predicate DistinctIds(nodes: seq<Node>) {
    forall i, j :: 0 <= i < j < |nodes| ==> nodes[i].id != nodes[j].id
  }

  ghost predicate BucketOk(own: NodeID, bucket: seq<Node>, b: nat) {
    && |bucket| <= BUCKET_SIZE
    && DistinctIds(bucket)
    && forall i :: 0 <= i < |bucket| ==> BucketIndex(Xor(own, bucket[i].id)) == b
  }

  /** Every node sits in the bucket of its distance, identifiers are distinct and
      buckets are bounded. */
  ghost predicate TableOk(own: NodeID, bs: Buckets) {
    && |bs| == BUCKETS
    && forall b :: 0 <= b < |bs| ==> BucketOk(own, bs[b], b)
  }

  ghost predicate Contains(bs: Buckets, n: Node) {
    exists b :: 0 <= b < |bs| && n in bs[b]
  }

  ghost function Ids(bucket: seq<Node>): set<NodeID> {
    set n | n in bucket :: n.id
  }

  ghost predicate HasId(bs: Buckets, id: NodeID) {
    exists b :: 0 <= b < |bs| && id in Ids(bs[b])
  }

  /** Position of an identifier in a bucket, or its length. */
  function Find(bucket: seq<Node>, id: NodeID): (i: nat)
    ensures i <= |bucket|
    ensures i < |bucket| ==> bucket[i].id == id
    ensures forall k :: 0 <= k < i ==> bucket[k].id != id
  {
    if bucket == [] || bucket[0].id == id then 0 else 1 + Find(bucket[1..], id)
  }

  function Dropped(bucket: seq<Node>, i: nat): seq<Node>
    requires i < |bucket|
  {
    bucket[..i] + bucket[i + 1..]
  }

  /** The bucket after an insertion, and whether the node is in it: a known node
      moves to the end, a new one is appended unless the bucket is full. */
  function InsertedInto(bucket: seq<Node>, n: Node): (seq<Node>, bool) {
    var i := Find(bucket, n.id);
    if i < |bucket| then (Dropped(bucket, i) + [n], true)
    else if |bucket| >= BUCKET_SIZE then (bucket, false)
    else (bucket + [n], true)
  }

  function Inserted(own: NodeID, bs: Buckets, n: Node): (Buckets, bool)
    requires |bs| == BUCKETS
  {
    var b := BucketIndex(Xor(own, n.id));
    if b < 0 then (bs, false)
    else
      var (bucket, ok) := InsertedInto(bs[b], n);
      (bs[b := bucket], ok)
  }

  function Removed(own: NodeID, bs: Buckets, id: NodeID): Buckets
    requires |bs| == BUCKETS
  {
    var b := BucketIndex(Xor(own, id));
    if b < 0 then bs
    else
      var i := Find(bs[b], id);
      if i < |bs[b]| then bs[b := Dropped(bs[b], i)] else bs
  }

  // ---- What every operation keeps ----

  lemma DroppedAt(bucket: seq<Node>, i: nat)
    requires i < |bucket|
    ensures |Dropped(bucket, i)| == |bucket| - 1
    ensures forall k :: 0 <= k < |bucket| - 1 ==> Dropped(bucket, i)[k] == bucket[if k < i then k else k + 1]
  {
  }

  lemma DroppedMembers(bucket: seq<Node>, i: nat, n: Node)
    requires DistinctIds(bucket) && i < |bucket|
    ensures n in Dropped(bucket, i) <==> n in bucket && n.id != bucket[i].id
  {
    var rest := Dropped(bucket, i);
    DroppedAt(bucket, i);
    if n in bucket && n.id != bucket[i].id {
      var k :| 0 <= k < |bucket| && bucket[k] == n;
      assert rest[if k < i then k else k - 1] == n;
    }
    if n in rest {
      var k :| 0 <= k < |rest| && rest[k] == n;
      assert bucket[if k < i then k else k + 1] == n;
    }
  }

  lemma DroppedOk(own: NodeID, bucket: seq<Node>, i: nat, b: nat)
    requires BucketOk(own, bucket, b) && i < |bucket|
    ensures BucketOk(own, Dropped(bucket, i), b)
    ensures Ids(Dropped(bucket, i)) == Ids(bucket) - {bucket[i].id}
  {
    DroppedAt(bucket, i);
    forall n
      ensures n in Dropped(bucket, i) <==> n in bucket && n.id != bucket[i].id
    {
      DroppedMembers(bucket, i, n);
    }
  }

  lemma AppendedOk(own: NodeID, bucket: seq<Node>, n: Node, b: nat)
    requires BucketOk(own, bucket, b) && |bucket| < BUCKET_SIZE
    requires n.id !in Ids(bucket) && BucketIndex(Xor(own, n.id)) == b
    ensures BucketOk(own, bucket + [n], b)
    ensures Ids(bucket + [n]) == Ids(bucket) + {n.id}
  {
    assert forall k :: 0 <= k < |bucket| ==> bucket[k] in bucket;
  }

  lemma FindFinds(bucket: seq<Node>, id: NodeID)
    ensures Find(bucket, id) < |bucket| <==> id in Ids(bucket)
  {
    if Find(bucket, id) < |bucket| {
      assert bucket[Find(bucket, id)] in bucket;
    }
  }

  lemma InsertedIntoOk(own: NodeID, bucket: seq<Node>, n: Node, b: nat)
    requires BucketOk(own, bucket, b) && BucketIndex(Xor(own, n.id)) == b
    ensures var (bucket', ok) := InsertedInto(bucket, n);
            && BucketOk(own, bucket', b)
            && Ids(bucket') == (if ok then Ids(bucket) + {n.id} else Ids(bucket))
            && (ok ==> bucket' != [] && bucket'[|bucket'| - 1] == n)
            && (!ok ==> bucket' == bucket && n.id !in Ids(bucket))
  {
    var i := Find(bucket, n.id);
    FindFinds(bucket, n.id);
    if i < |bucket| {
      DroppedOk(own, bucket, i, b);
      AppendedOk(own, Dropped(bucket, i), n, b);
    } else if |bucket| < BUCKET_SIZE {
      AppendedOk(own, bucket, n, b);
    }
  }

  /** An identifier can only be in the bucket of its distance. */
  lemma IdInItsBucket(own: NodeID, bs: Buckets, id: NodeID)
    requires TableOk(own, bs)
    ensures var b := BucketIndex(Xor(own, id));
            HasId(bs, id) <==> b >= 0 && id in Ids(bs[b])
  {
    if HasId(bs, id) {
      var c :| 0 <= c < |bs| && id in Ids(bs[c]);
      assert BucketOk(own, bs[c], c);
      var n :| n in bs[c] && n.id == id;
    }
  }

  /** The node is the most recently seen of its bucket. */
  ghost predicate Newest(own: NodeID, bs: Buckets, n: Node)
    requires |bs| == BUCKETS
  {
    var b := BucketIndex(Xor(own, n.id));
    b >= 0 && bs[b] != [] && bs[b][|bs[b]| - 1] == n
  }

  /** Insertion keeps the table in order, adds at most the inserted identifier
      and drops none already present. It reports whether the node is now the most
      recently seen of its bucket; a refusal changes nothing and means that the
      identifier is the own one or is not in the table. */
  lemma InsertKeepsTable(own: NodeID, bs: Buckets, n: Node)
    requires TableOk(own, bs)
    ensures var (bs', ok) := Inserted(own, bs, n);
            && TableOk(own, bs')
            && (forall id: NodeID :: HasId(bs', id) <==> HasId(bs, id) || (ok && id == n.id))
            && (ok ==> Contains(bs', n) && Newest(own, bs', n))
            && (!ok ==> bs' == bs && !HasId(bs, n.id))
  {
    var b := BucketIndex(Xor(own, n.id));
    IdInItsBucket(own, bs, n.id);
    if b >= 0 {
      var (bs', ok) := Inserted(own, bs, n);
      InsertedIntoOk(own, bs[b], n, b);
      assert TableOk(own, bs');
      forall id: NodeID
        ensures HasId(bs', id) <==> HasId(bs, id) || (ok && id == n.id)
      {
        IdInItsBucket(own, bs, id);
        IdInItsBucket(own, bs', id);
      }
      if ok {
        assert n in bs'[b];
      }
    }
  }

  /** Removal keeps the table in order and removes exactly that identifier. */
  lemma RemoveKeepsTable(own: NodeID, bs: Buckets, id: NodeID)
    requires TableOk(own, bs)
    ensures TableOk(own, Removed(own, bs, id))
    ensures forall x: NodeID :: HasId(Removed(own, bs, id), x) <==> HasId(bs, x) && x != id
  {
    var b := BucketIndex(Xor(own, id));
    var bs': Buckets := Removed(own, bs, id);
    if b >= 0 {
      FindFinds(bs[b], id);
      if id in Ids(bs[b]) {
        DroppedOk(own, bs[b], Find(bs[b], id), b);
      }
    }
    assert TableOk(own, bs');
    forall x: NodeID
      ensures HasId(bs', x) <==> HasId(bs, x) && x != id
    {
      IdInItsBucket(own, bs, x);
      IdInItsBucket(own, bs', x);
    }
  }

  /** The nodes with other identifiers, in order. */
  function Without(bucket: seq<Node>, id: NodeID): seq<Node> {
    if bucket == [] then []
    else (if bucket[0].id == id then [] else [bucket[0]]) + Without(bucket[1..], id)
  }

  lemma {:induction false} WithoutNone(bucket: seq<Node>, id: NodeID)
    requires forall i :: 0 <= i < |bucket| ==> bucket[i].id != id
    ensures Without(bucket, id) == bucket
  {
    if bucket != [] {
      WithoutNone(bucket[1..], id);
    }
  }

  lemma {:induction false} WithoutDrops(bucket: seq<Node>, i: nat)
    requires DistinctIds(bucket) && i < |bucket|
    ensures Without(bucket, bucket[i].id) == Dropped(bucket, i)
  {
    if i == 0 {
      WithoutNone(bucket[1..], bucket[0].id);
    } else {
      WithoutDrops(bucket[1..], i - 1);
      assert Dropped(bucket, i) == [bucket[0]] + Dropped(bucket[1..], i - 1);
    }
  }

  /** A node is refused exactly when it is the own one or would be a ninth of its
      bucket. Otherwise its bucket becomes the others in their order and then the
      node; the other buckets stay. */
  lemma InsertDecides(own: NodeID, bs: Buckets, n: Node)
    requires TableOk(own, bs)
    ensures var (bs', ok) := Inserted(own, bs, n);
            var b := BucketIndex(Xor(own, n.id));
            && (b == -1 <==> n.id == own)
            && (ok <==> b >= 0 && (HasId(bs, n.id) || |bs[b]| < 8))
            && bs' == if ok then bs[b := Without(bs[b], n.id) + [n]] else bs
  {
    var b := BucketIndex(Xor(own, n.id));
    BucketOfSelf(own, n.id);
    IdInItsBucket(own, bs, n.id);
    if b >= 0 {
      var i := Find(bs[b], n.id);
      FindFinds(bs[b], n.id);
      assert BucketOk(own, bs[b], b);
      if i < |bs[b]| {
        WithoutDrops(bs[b], i);
      } else {
        WithoutNone(bs[b], n.id);
      }
    }
  }

  /** Removal takes the node out of its bucket and leaves all others in order. */
  lemma RemoveDecides(own: NodeID, bs: Buckets, id: NodeID)
    requires TableOk(own, bs)
    ensures var b := BucketIndex(Xor(own, id));
            && (b == -1 <==> id == own)
            && Removed(own, bs, id) == if b < 0 then bs else bs[b := Without(bs[b], id)]
  {
    var b := BucketIndex(Xor(own, id));
    BucketOfSelf(own, id);
    if b >= 0 {
      var i := Find(bs[b], id);
      assert BucketOk(own, bs[b], b);
      if i < |bs[b]| {
        WithoutDrops(bs[b], i);
      } else {
        WithoutNone(bs[b], id);
        assert bs[b := bs[b]] == bs;
      }
    }
  }

  datatype Update = Insert(node: Node) | Remove(id: NodeID)

  function Updated(own: NodeID, bs: Buckets, updates: seq<Update>): (r: Buckets)
    requires |bs| == BUCKETS
    ensures |r| == BUCKETS
    decreases |updates|
  {
    if updates == [] then bs
    else
      var bs' := match updates[0]
                 case Insert(n) => Inserted(own, bs, n).0
                 case Remove(id) => Removed(own, bs, id);
      Updated(own, bs', updates[1..])
  }

  lemma {:induction false} RunKeepsTable(own: NodeID, bs: Buckets, updates: seq<Update>)
    requires TableOk(own, bs)
    ensures TableOk(own, Updated(own, bs, updates))
    decreases |updates|
  {
    if updates != [] {
      match updates[0]
      case Insert(n) =>
        InsertKeepsTable(own, bs, n);
        RunKeepsTable(own, Inserted(own, bs, n).0, updates[1..]);
      case Remove(id) =>
        RemoveKeepsTable(own, bs, id);
        RunKeepsTable(own, Removed(own, bs, id), updates[1..]);
    }
  }

  function EmptyTable(): Buckets {
    seq(BUCKETS, _ => [])
  }

  /** After any run of insertions and removals on a new table the invariant holds,
      and the own identifier is nowhere. */
  lemma AnyRunIsOk(own: NodeID, updates: seq<Update>)
    ensures TableOk(own, Updated(own, EmptyTable(), updates))
    ensures !HasId(Updated(own, EmptyTable(), updates), own)
  {
    RunKeepsTable(own, EmptyTable(), updates);
    BucketOfSelf(own, own);
    IdInItsBucket(own, Updated(own, EmptyTable(), updates), own);
  }

  // ---- The table object ----

  /** The scan of a bucket for an identifier. */
  method IndexIn(bucket: seq<Node>, id: NodeID) returns (i: nat)
    ensures i == Find(bucket, id)
  {
    i := 0;
    while i < |bucket|
      invariant i <= |bucket| && Find(bucket, id) == i + Find(bucket[i..], id)
    {
      assert bucket[i..][1..] == bucket[i + 1..];
      if bucket[i].id == id {
        return;
      }
      i := i + 1;
    }
  }

  class RoutingTable {
    const own: NodeID
    const buckets: array<seq<Node>>

    ghost predicate Valid()
      reads buckets
    {
      TableOk(own, buckets[..])
    }

    constructor (own: NodeID)
      ensures this.own == own && fresh(buckets) && buckets[..] == EmptyTable() && Valid()
    {
      this.own := own;
      buckets := new seq<Node>[BUCKETS](_ => []);
      new;
      assert buckets[..] == EmptyTable();
    }

    method Insert(n: Node) returns (ok: bool)
      requires Valid()
      modifies buckets
      ensures Valid()
      ensures (buckets[..], ok) == Inserted(own, old(buckets[..]), n)
    {
      InsertKeepsTable(own, buckets[..], n);
      var distance := ComputeXor(own, n.id);
      var idx := ComputeBucketIndex(distance);
      if idx < 0 {
        return false;
      }
      var bucket := buckets[idx];
      var i := IndexIn(bucket, n.id);
      if i < |bucket| {
        bucket := bucket[..i] + bucket[i + 1..];
        bucket := bucket + [n];
        buckets[idx] := bucket;
        return true;
      }
      if |bucket| >= BUCKET_SIZE {
        assert buckets[..][idx := bucket] == buckets[..];
        return false;
      }
      buckets[idx] := bucket + [n];
      return true;
    }

    method Remove(id: NodeID)
      requires Valid()
      modifies buckets
      ensures Valid()
      ensures buckets[..] == Removed(own, old(buckets[..]), id)
    {
      RemoveKeepsTable(own, buckets[..], id);
      var distance := ComputeXor(own, id);
      var idx := ComputeBucketIndex(distance);
      if idx < 0 {
        return;
      }
      var bucket := buckets[idx];
      var i := IndexIn(bucket, id);
      if i < |bucket| {
        buckets[idx] := bucket[..i] + bucket[i + 1..];
      }
    }

    /** The `n` table entries nearest to the target. */
    method Closest(target: NodeID, n: nat) returns (r: seq<Node>)
      requires Valid()
      ensures Nearest(buckets[..], target, n, r)
    {
      var all: seq<Node> := [];
      for b := 0 to BUCKETS
        invariant all == AllNodes(buckets[..b])
      {
        assert buckets[..b + 1] == buckets[..b] + [buckets[b]];
        AllNodesSnoc(buckets[..b], buckets[b]);
        all := all + buckets[b];
      }
      assert buckets[..BUCKETS] == buckets[..];
      var sorted := new Node[|all|](i requires 0 <= i < |all| => all[i]);
      assert sorted[..] == all;
      SortByDistance(sorted, target);
      SortedIsNearest(own, buckets[..], target, n, sorted[..]);
      r := if sorted.Length > n then sorted[..n] else sorted[..];
    }
  }

  // ---- Nearest nodes ----

  ghost function Distance(n: Node, target: NodeID): nat {
    Value(Xor(n.id, target))
  }

  ghost predicate SortedByDistance(nodes: seq<Node>, target: NodeID) {
    forall i, j :: 0 <= i < j < |nodes| ==> Distance(nodes[i], target) <= Distance(nodes[j], target)
  }

  ghost predicate StrictlySorted(nodes: seq<Node>, target: NodeID) {
    forall i, j :: 0 <= i < j < |nodes| ==> Distance(nodes[i], target) < Distance(nodes[j], target)
  }

  function AllNodes(bs: Buckets): seq<Node> {
    if bs == [] then [] else bs[0] + AllNodes(bs[1..])
  }

  /** Exactly the `n` nearest entries, in strictly increasing distance. */
  ghost predicate Nearest(bs: Buckets, target: NodeID, n: nat, r: seq<Node>) {
    && StrictlySorted(r, target)
    && |r| == (if |AllNodes(bs)| > n then n else |AllNodes(bs)|)
    && (forall x :: x in r ==> Contains(bs, x))
    && (forall x, y :: x in r && Contains(bs, y) && y !in r ==> Distance(x, target) < Distance(y, target))
  }

  lemma {:induction false} AllNodesSnoc(bs: Buckets, b: seq<Node>)
    ensures AllNodes(bs + [b]) == AllNodes(bs) + b
  {
    if bs == [] {
      assert bs + [b] == [b];
      assert AllNodes([b][1..]) == [];
    } else {
      assert (bs + [b])[1..] == bs[1..] + [b];
      AllNodesSnoc(bs[1..], b);
    }
  }

  lemma {:induction false} AllNodesContains(bs: Buckets, n: Node)
    ensures n in AllNodes(bs) <==> Contains(bs, n)
  {
    if bs != [] {
      AllNodesContains(bs[1..], n);
      if Contains(bs[1..], n) {
        var b :| 0 <= b < |bs[1..]| && n in bs[1..][b];
        assert n in bs[b + 1];
      }
      if Contains(bs, n) {
        var b :| 0 <= b < |bs| && n in bs[b];
        if b > 0 {
          assert n in bs[1..][b - 1];
        }
      }
    }
  }

  /** Nodes of the buckets from `lo` on. */
  ghost predicate Ranked(own: NodeID, bs: Buckets, lo: nat) {
    forall b :: 0 <= b < |bs| ==> BucketOk(own, bs[b], lo + b)
  }

  lemma {:induction false} AllNodesDistinct(own: NodeID, bs: Buckets, lo: nat)
    requires Ranked(own, bs, lo)
    ensures DistinctIds(AllNodes(bs))
    ensures forall i :: 0 <= i < |AllNodes(bs)| ==> BucketIndex(Xor(own, AllNodes(bs)[i].id)) >= lo
  {
    if bs != [] {
      assert BucketOk(own, bs[0], lo + 0);
      forall b | 0 <= b < |bs[1..]|
        ensures BucketOk(own, bs[1..][b], lo + 1 + b)
      {
        assert BucketOk(own, bs[b + 1], lo + (b + 1));
      }
      AllNodesDistinct(own, bs[1..], lo + 1);
      var all, rest := AllNodes(bs), AllNodes(bs[1..]);
      assert forall i :: 0 <= i < |all| ==> all[i] == if i < |bs[0]| then bs[0][i] else rest[i - |bs[0]|];
    }
  }

  /** Sorted but for position `j`, whose successors are all at least as far. */
  ghost predicate SortedExcept(nodes: seq<Node>, target: NodeID, j: nat) {
    forall p, q :: 0 <= p < q < |nodes| && q != j ==> Distance(nodes[p], target) <= Distance(nodes[q], target)
  }

  lemma SwapDown(before: seq<Node>, after: seq<Node>, target: NodeID, j: nat)
    requires 0 < j < |before| && after == before[j := before[j - 1]][j - 1 := before[j]]
    requires SortedExcept(before, target, j) && Distance(before[j], target) < Distance(before[j - 1], target)
    ensures SortedExcept(after, target, j - 1)
  {
  }

  lemma Settled(nodes: seq<Node>, target: NodeID, j: nat)
    requires j < |nodes| && SortedExcept(nodes, target, j)
    requires j > 0 ==> Distance(nodes[j - 1], target) <= Distance(nodes[j], target)
    ensures SortedByDistance(nodes, target)
  {
  }

  /** In-place insertion sort by distance. */
  method SortByDistance(nodes: array<Node>, target: NodeID)
    modifies nodes
    ensures SortedByDistance(nodes[..], target)
    ensures multiset(nodes[..]) == multiset(old(nodes[..]))
  {
    if nodes.Length == 0 {
      return;
    }
    for i := 1 to nodes.Length
      invariant SortedByDistance(nodes[..i], target)
      invariant multiset(nodes[..]) == multiset(old(nodes[..]))
    {
      SinkInto(nodes, i, target);
    }
    assert nodes[..nodes.Length] == nodes[..];
  }

  /** The inner loop: swap node `i` down to its place among the sorted ones. */
  method SinkInto(nodes: array<Node>, i: nat, target: NodeID)
    requires 0 < i < nodes.Length && SortedByDistance(nodes[..i], target)
    modifies nodes
    ensures SortedByDistance(nodes[..i + 1], target)
    ensures multiset(nodes[..]) == multiset(old(nodes[..]))
  {
    var j := i;
    assert forall k :: 0 <= k < i ==> nodes[..i + 1][k] == nodes[..i][k];
    while j > 0
      invariant 0 <= j <= i
      invariant SortedExcept(nodes[..i + 1], target, j)
      invariant multiset(nodes[..]) == multiset(old(nodes[..]))
    {
      var di := ComputeXor(nodes[j].id, target);
      var dj := ComputeXor(nodes[j - 1].id, target);
      var c := CompareDist(di, dj);
      CompareIsNumeric(di, dj);
      if c >= 0 {
        break;
      }
      ghost var before := nodes[..i + 1];
      nodes[j], nodes[j - 1] := nodes[j - 1], nodes[j];
      assert nodes[..i + 1] == before[j := before[j - 1]][j - 1 := before[j]];
      SwapDown(before, nodes[..i + 1], target, j);
      j := j - 1;
    }
    Settled(nodes[..i + 1], target, j);
  }

  lemma {:induction false} DistinctMultiplicity(nodes: seq<Node>, i: nat, j: nat)
    requires i < j < |nodes| && nodes[i] == nodes[j]
    ensures multiset(nodes)[nodes[i]] >= 2
  {
    assert nodes == nodes[..j] + nodes[j..];
    assert nodes[i] in nodes[..j] && nodes[j] in nodes[j..];
  }

  lemma {:induction false} MultiplicityOne(nodes: seq<Node>, n: Node)
    requires DistinctIds(nodes)
    ensures multiset(nodes)[n] <= 1
  {
    if nodes != [] {
      assert nodes == [nodes[0]] + nodes[1..];
      MultiplicityOne(nodes[1..], n);
      assert forall k :: 0 <= k < |nodes[1..]| ==> nodes[1..][k] == nodes[k + 1];
      assert nodes[0] !in nodes[1..];
    }
  }

  lemma PermutationDistinct(a: seq<Node>, b: seq<Node>)
    requires multiset(a) == multiset(b) && DistinctIds(a)
    ensures DistinctIds(b)
  {
    forall i, j | 0 <= i < j < |b|
      ensures b[i].id != b[j].id
    {
      assert b[i] in multiset(b) && b[j] in multiset(b);
      var p :| 0 <= p < |a| && a[p] == b[i];
      var q :| 0 <= q < |a| && a[q] == b[j];
      if p == q {
        DistinctMultiplicity(b, i, j);
        MultiplicityOne(a, b[i]);
      }
    }
  }

  /** Distinct identifiers are at distinct distances. */
  lemma SortedIsStrict(nodes: seq<Node>, target: NodeID)
    requires SortedByDistance(nodes, target) && DistinctIds(nodes)
    ensures StrictlySorted(nodes, target)
  {
    forall i, j | 0 <= i < j < |nodes|
      ensures Distance(nodes[i], target) < Distance(nodes[j], target)
    {
      SameDistance(nodes[i].id, nodes[j].id, target);
    }
  }

  lemma SameDistance(x: NodeID, y: NodeID, target: NodeID)
    ensures Value(Xor(x, target)) == Value(Xor(y, target)) <==> x == y
  {
    CompareIsNumeric(Xor(x, target), Xor(y, target));
    XorSymmetric(x, target);
    XorSymmetric(y, target);
    XorInjective(target, x, y);
  }

  lemma SortedIsNearest(own: NodeID, bs: Buckets, target: NodeID, n: nat, sorted: seq<Node>)
    requires TableOk(own, bs)
    requires multiset(sorted) == multiset(AllNodes(bs)) && SortedByDistance(sorted, target)
    ensures Nearest(bs, target, n, if |sorted| > n then sorted[..n] else sorted)
  {
    var all := AllNodes(bs);
    assert forall b :: 0 <= b < |bs| ==> BucketOk(own, bs[b], 0 + b);
    AllNodesDistinct(own, bs, 0);
    PermutationDistinct(all, sorted);
    SortedIsStrict(sorted, target);
    assert |sorted| == |multiset(sorted)| == |all|;
    var m := if |sorted| > n then n else |sorted|;
    var r := sorted[..m];
    assert r == if |sorted| > n then sorted[..n] else sorted;
    forall x
      ensures x in sorted <==> Contains(bs, x)
    {
      assert x in sorted <==> x in multiset(sorted);
      AllNodesContains(bs, x);
    }
    forall x, y | x in r && Contains(bs, y) && y !in r
      ensures Distance(x, target) < Distance(y, target)
    {
      FartherThanPrefix(sorted, target, m, x, y);
    }
  }

  lemma FartherThanPrefix(sorted: seq<Node>, target: NodeID, n: nat, x: Node, y: Node)
    requires StrictlySorted(sorted, target) && n <= |sorted|
    requires x in sorted[..n] && y in sorted && y !in sorted[..n]
    ensures Distance(x, target) < Distance(y, target)
  {
    var p :| 0 <= p < n && sorted[..n][p] == x;
    var q :| 0 <= q < |sorted| && sorted[q] == y;
    var prefix := sorted[..n];
    assert forall k :: 0 <= k < n ==> prefix[k] == sorted[k] && prefix[k] in prefix;
  }
}
