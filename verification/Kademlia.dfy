/** The routing table: bounded buckets, what any history of additions leaves in them, and the lookup
    of the closest stored peers. */
module Kademlia {
  import opened Arithmetic
  import opened BigEndian
  import opened Bits
  import opened ByteStrings
  import opened KademliaIds
  import opened Selection

  const BUCKETS: nat := 256
  const BUCKET_SIZE: nat := 20

  datatype Peer = Peer(id: Id, address: string, lastSeen: nat)

  // ----- one bucket

  ghost predicate DistinctIds(peers: seq<Peer>) {
    forall i, j :: 0 <= i < j < |peers| ==> peers[i].id != peers[j].id
  }

  /** The index of the first peer with the id, or the length. */
  function IndexOf(bucket: seq<Peer>, id: Id): (i: nat)
    ensures i <= |bucket|
    ensures i < |bucket| ==> bucket[i].id == id
    ensures forall j :: 0 <= j < i ==> bucket[j].id != id
  {
    if bucket == [] || bucket[0].id == id then 0
    else
      var i := IndexOf(bucket[1..], id);
      assert forall j :: 1 <= j < i + 1 ==> bucket[j] == bucket[1..][j - 1];
      i + 1
  }

  ghost predicate FirstAt(bucket: seq<Peer>, id: Id, j: nat)
    requires j < |bucket|
  {
    bucket[j].id == id && forall m :: 0 <= m < j ==> bucket[m].id != id
  }

  /** A known peer gets the new address and time; a new one is appended while there is room. */
  function Touch(bucket: seq<Peer>, peer: Peer): seq<Peer> {
    var i := IndexOf(bucket, peer.id);
    if i < |bucket| then bucket[i := bucket[i].(address := peer.address, lastSeen := peer.lastSeen)]
    else if |bucket| < BUCKET_SIZE then bucket + [peer]
    else bucket
  }

  // ----- the table

  type Table = seq<seq<Peer>>

  type BucketNo = b: nat | b < 256

  /** The bucket number as a function of the id. */
  ghost function BucketsOf(local: Id): Id -> BucketNo {
    id => BucketIndex(local, id)
  }

  ghost predicate InBucket(index: Id -> BucketNo, bucket: seq<Peer>, b: nat) {
    forall j :: 0 <= j < |bucket| ==> index(bucket[j].id) == b
  }

  /** Every peer is in its own bucket, once, and no bucket is overfull. */
  ghost predicate TableInvariant(index: Id -> BucketNo, table: Table) {
    && |table| == BUCKETS
    && forall b :: 0 <= b < |table| ==> |table[b]| <= BUCKET_SIZE && InBucket(index, table[b], b) && DistinctIds(table[b])
  }

  ghost function Added(index: Id -> BucketNo, table: Table, peer: Peer): Table
    requires |table| == BUCKETS
  {
    var b := index(peer.id);
    table[b := Touch(table[b], peer)]
  }

  lemma TouchKeepsBucket(index: Id -> BucketNo, bucket: seq<Peer>, peer: Peer, b: nat)
    requires |bucket| <= BUCKET_SIZE && InBucket(index, bucket, b) && DistinctIds(bucket) && index(peer.id) == b
    ensures |Touch(bucket, peer)| <= BUCKET_SIZE && InBucket(index, Touch(bucket, peer), b) && DistinctIds(Touch(bucket, peer))
  {
  }

  lemma AddedKeepsInvariant(index: Id -> BucketNo, table: Table, peer: Peer)
    requires TableInvariant(index, table)
    ensures TableInvariant(index, Added(index, table, peer))
  {
    TouchKeepsBucket(index, table[index(peer.id)], peer, index(peer.id));
  }

  function Empty(): Table {
    seq(BUCKETS, _ => [])
  }

  function Front(history: seq<Peer>): seq<Peer>
    requires history != []
  {
    history[..|history| - 1]
  }

  function Last(history: seq<Peer>): Peer
    requires history != []
  {
    history[|history| - 1]
  }

  /** The table after a history of additions. */
  ghost function Build(index: Id -> BucketNo, history: seq<Peer>): (t: Table)
    ensures |t| == BUCKETS
  {
    if history == [] then Empty() else Added(index, Build(index, Front(history)), Last(history))
  }

  lemma {:induction false} BuildInvariant(index: Id -> BucketNo, history: seq<Peer>)
    ensures TableInvariant(index, Build(index, history))
  {
    if history != [] {
      BuildInvariant(index, Front(history));
      AddedKeepsInvariant(index, Build(index, Front(history)), Last(history));
    }
  }

  // ----- what a history leaves in a bucket

  predicate Seen(history: seq<Peer>, id: Id) {
    history != [] && (Last(history).id == id || Seen(Front(history), id))
  }

  /** The last addition with the given id. */
  function Latest(history: seq<Peer>, id: Id): (p: Peer)
    requires Seen(history, id)
    ensures p.id == id
  {
    if Last(history).id == id then Last(history) else Latest(Front(history), id)
  }

  /** The different ids of bucket b, in the order in which they were first added. */
  ghost function Arrivals(index: Id -> BucketNo, history: seq<Peer>, b: nat): seq<Id> {
    if history == [] then []
    else
      var before, id := Arrivals(index, Front(history), b), Last(history).id;
      if index(id) == b && id !in before then before + [id] else before
  }

  lemma {:induction false} ArrivalsSound(index: Id -> BucketNo, history: seq<Peer>, b: nat)
    ensures forall id :: id in Arrivals(index, history, b) <==> Seen(history, id) && index(id) == b
    ensures forall i, j :: 0 <= i < j < |Arrivals(index, history, b)| ==>
      Arrivals(index, history, b)[i] != Arrivals(index, history, b)[j]
  {
    if history != [] {
      ArrivalsSound(index, Front(history), b);
    }
  }

  /** The bucket holds, in order of arrival, the first 20 different ids that were added to it, each with the
      address and time of its latest addition. */
  ghost predicate HoldsFirstArrivals(index: Id -> BucketNo, history: seq<Peer>, b: nat, bucket: seq<Peer>) {
    var ids := Arrivals(index, history, b);
    && |bucket| == Min(|ids|, BUCKET_SIZE)
    && forall i :: 0 <= i < |bucket| ==> Seen(history, ids[i]) && bucket[i] == Latest(history, ids[i])
  }

  lemma OtherBucket(index: Id -> BucketNo, history: seq<Peer>, b: nat, bucket: seq<Peer>)
    requires history != [] && HoldsFirstArrivals(index, Front(history), b, bucket)
    requires index(Last(history).id) != b
    ensures HoldsFirstArrivals(index, history, b, bucket)
  {
    ArrivalsSound(index, Front(history), b);
  }

  lemma OwnBucket(index: Id -> BucketNo, history: seq<Peer>, b: nat, bucket: seq<Peer>)
    requires history != [] && HoldsFirstArrivals(index, Front(history), b, bucket)
    requires index(Last(history).id) == b
    ensures HoldsFirstArrivals(index, history, b, Touch(bucket, Last(history)))
  {
    var before, p := Arrivals(index, Front(history), b), Last(history);
    ArrivalsSound(index, Front(history), b);
    var i := IndexOf(bucket, p.id);
    assert forall j :: 0 <= j < |bucket| ==> bucket[j].id == before[j];
    if i < |bucket| {
      assert before[i] == p.id;
      assert bucket[i].(address := p.address, lastSeen := p.lastSeen) == p;
    } else if p.id in before {
      var j :| 0 <= j < |before| && before[j] == p.id;
      assert j >= |bucket|;
    }
  }

  /** For every history, every bucket holds the first 20 different ids that were added to it, with their latest data. */
  lemma {:induction false} BuildHolds(index: Id -> BucketNo, history: seq<Peer>, b: nat)
    requires b < BUCKETS
    ensures HoldsFirstArrivals(index, history, b, Build(index, history)[b])
  {
    if history != [] {
      BuildHolds(index, Front(history), b);
      if index(Last(history).id) == b {
        OwnBucket(index, history, b, Build(index, Front(history))[b]);
      } else {
        OtherBucket(index, history, b, Build(index, Front(history))[b]);
      }
    }
  }

  // ----- lookup

  ghost function Stored(table: Table): set<Peer> {
    set b, j | 0 <= b < |table| && 0 <= j < |table[b]| :: table[b][j]
  }

  ghost predicate UniqueIds(peers: set<Peer>) {
    forall p, q :: p in peers && q in peers && p.id == q.id ==> p == q
  }

  ghost predicate Nearer(target: Id, p: Peer, q: Peer) {
    LexLess(Xor(p.id, target), Xor(q.id, target))
  }

  ghost function NearerTo(target: Id): (Peer, Peer) -> bool {
    (p, q) => Nearer(target, p, q)
  }

  /** Distance to the target orders peers that have different ids. */
  lemma DistanceOrders(target: Id, peers: set<Peer>)
    requires UniqueIds(peers)
    ensures Ordered(NearerTo(target), peers)
  {
    forall p, q | p in peers && q in peers
      ensures !Nearer(target, p, p) && (p != q ==> Nearer(target, p, q) || Nearer(target, q, p))
    {
      DistanceCompares(target, p, q);
    }
    forall p, q, r | Nearer(target, p, q) && Nearer(target, q, r)
      ensures Nearer(target, p, r)
    {
      LexTransitive(Xor(p.id, target), Xor(q.id, target), Xor(r.id, target));
    }
  }

  lemma DistanceCompares(target: Id, p: Peer, q: Peer)
    ensures !Nearer(target, p, p)
    ensures p.id != q.id ==> Nearer(target, p, q) || Nearer(target, q, p)
  {
    LexTotal(Xor(p.id, target), Xor(q.id, target));
    LexTotal(Xor(p.id, target), Xor(p.id, target));
    if Xor(p.id, target) == Xor(q.id, target) {
      DistanceInjective(p.id, q.id, target);
    }
  }

  /** r lists the count nearest of the stored peers, or all of them, in strictly increasing distance. */
  ghost predicate IsClosest(stored: set<Peer>, target: Id, count: nat, r: seq<Peer>) {
    IsSmallest(NearerTo(target), stored, count, r)
  }

  /** The lookup has only one possible answer, which depends on the set of stored peers alone. */
  lemma ClosestUnique(stored: set<Peer>, target: Id, count: nat, r: seq<Peer>, s: seq<Peer>)
    requires UniqueIds(stored) && IsClosest(stored, target, count, r) && IsClosest(stored, target, count, s)
    ensures r == s
  {
    DistanceOrders(target, stored);
    SmallestUnique(NearerTo(target), stored, count, r, s);
  }

  /** What the closest peers are, in numbers: stored peers at strictly increasing XOR distance from the target, with
      every stored peer that is left out farther than every one in the list. */
  lemma ClosestByNumber(stored: set<Peer>, target: Id, count: nat, r: seq<Peer>)
    requires IsClosest(stored, target, count, r)
    ensures |r| == Min(count, |stored|) && forall p :: p in r ==> p in stored
    ensures forall i, j :: 0 <= i < j < |r| ==> Number(Xor(r[i].id, target)) < Number(Xor(r[j].id, target))
    ensures forall p, q :: p in stored && p !in r && q in r ==> Number(Xor(q.id, target)) < Number(Xor(p.id, target))
  {
    forall p, q | Nearer(target, p, q)
      ensures Number(Xor(p.id, target)) < Number(Xor(q.id, target))
    {
      LexIsNumber(Xor(p.id, target), Xor(q.id, target));
    }
    forall p, q | p in stored && p !in r && q in r
      ensures Number(Xor(q.id, target)) < Number(Xor(p.id, target))
    {
      assert NearerTo(target)(q, p);
    }
    forall i, j | 0 <= i < j < |r|
      ensures Number(Xor(r[i].id, target)) < Number(Xor(r[j].id, target))
    {
      assert NearerTo(target)(r[i], r[j]);
    }
  }

  /** A stored peer with the target's id comes first. */
  lemma TargetComesFirst(stored: set<Peer>, target: Id, count: nat, r: seq<Peer>, p: Peer)
    requires IsClosest(stored, target, count, r) && p in stored && p.id == target && count > 0
    ensures |r| > 0 && r[0] == p
  {
    ClosestByNumber(stored, target, count, r);
    ZeroDistanceIff(p.id, target);
    assert stored != {} && |stored| > 0 by {
      NonEmpty(stored, p);
    }
    assert r[0] in r;
    if p in r {
      var j :| 0 <= j < |r| && r[j] == p;
      assert j == 0;
    }
  }

  lemma NonEmpty(s: set<Peer>, p: Peer)
    requires p in s
    ensures |s| > 0
  {
  }

  lemma StoredUnique(index: Id -> BucketNo, table: Table)
    requires TableInvariant(index, table)
    ensures UniqueIds(Stored(table))
  {
    forall p, q | p in Stored(table) && q in Stored(table) && p.id == q.id
      ensures p == q
    {
      var b, i :| 0 <= b < |table| && 0 <= i < |table[b]| && table[b][i] == p;
      var c, j :| 0 <= c < |table| && 0 <= j < |table[c]| && table[c][j] == q;
      assert b == c;
    }
  }

  // ----- the object

  class KademliaTable {
    const localId: Id
    var buckets: Table
    ghost var history: seq<Peer>

    /** The buckets are what the additions so far leave. */
    ghost predicate Valid()
      reads this
    {
      buckets == Build(BucketsOf(localId), history)
    }

    constructor (localId: Id)
      ensures Valid() && this.localId == localId && history == [] && buckets == Empty()
    {
      this.localId := localId;
      buckets := Empty();
      history := [];
    }

    /** The loop over the bytes, stopping at the first difference. */
    method BucketOf(target: Id) returns (r: nat)
      ensures r == BucketIndex(localId, target) < BUCKETS
    {
      for i := 0 to 32
        invariant forall j :: 0 <= j < i ==> localId[j] == target[j]
      {
        var xor := XorByte(localId[i], target[i]);
        XorNonzero(localId[i], target[i]);
        if xor != 0 {
          assert FirstDifference(localId, target, 0) == i;
          ByteZerosBelow(localId, target, i);
          return i * 8 + (7 - LeadingZeros(xor, 8));
        }
      }
      assert FirstDifference(localId, target, 0) == 32;
      return 0;
    }

    /** Adds or refreshes one peer; every bucket but its own stays as it was. */
    method AddPeer(id: Id, address: string, now: nat)
      requires Valid()
      modifies this
      ensures Valid() && history == old(history) + [Peer(id, address, now)]
      ensures buckets == Added(BucketsOf(localId), old(buckets), Peer(id, address, now))
      ensures TableInvariant(BucketsOf(localId), buckets)
    {
      var peer := Peer(id, address, now);
      var b := BucketOf(id);
      var bucket := TouchBucket(buckets[b], peer);
      buckets := buckets[b := bucket];
      assert Front(history + [peer]) == history;
      history := history + [peer];
      BuildInvariant(BucketsOf(localId), history);
    }

    method TouchBucket(bucket: seq<Peer>, peer: Peer) returns (r: seq<Peer>)
      ensures r == Touch(bucket, peer)
      ensures (forall j :: 0 <= j < |bucket| ==> bucket[j].id != peer.id) ==> r == if |bucket| < 20 then bucket + [peer] else bucket
      ensures forall j :: 0 <= j < |bucket| && FirstAt(bucket, peer.id, j) ==> r == bucket[j := peer]
    {
      var i := 0;
      while i < |bucket| && bucket[i].id != peer.id
        invariant i <= |bucket| && forall j :: 0 <= j < i ==> bucket[j].id != peer.id
      {
        i := i + 1;
      }
      assert i == IndexOf(bucket, peer.id);
      if i < |bucket| {
        return bucket[i := bucket[i].(address := peer.address, lastSeen := peer.lastSeen)];
      }
      if |bucket| < BUCKET_SIZE {
        return bucket + [peer];
      }
      return bucket;
    }

    /** All peers, bucket by bucket. */
    method GetAllPeers() returns (all: seq<Peer>)
      requires Valid()
      ensures DistinctIds(all) && forall p :: p in all <==> p in Stored(buckets)
    {
      BuildInvariant(BucketsOf(localId), history);
      all := [];
      for b := 0 to |buckets|
        invariant DistinctIds(all)
        invariant forall p :: p in all <==> p in Stored(buckets[..b])
      {
        FlattenMore(BucketsOf(localId), buckets, b, all);
        all := all + buckets[b];
      }
      assert buckets[..|buckets|] == buckets;
    }

    /** The count nearest stored peers, or all of them, nearest first. */
    method FindClosest(target: Id, count: nat) returns (r: seq<Peer>)
      requires Valid()
      ensures IsClosest(Stored(buckets), target, count, r)
      ensures |r| == Min(count, |Stored(buckets)|) && forall p :: p in r ==> p in Stored(buckets)
      ensures forall i, j :: 0 <= i < j < |r| ==> Number(Xor(r[i].id, target)) < Number(Xor(r[j].id, target))
      ensures forall p, q :: p in Stored(buckets) && p !in r && q in r ==>
        Number(Xor(q.id, target)) < Number(Xor(p.id, target))
    {
      var all := GetAllPeers();
      BuildInvariant(BucketsOf(localId), history);
      StoredUnique(BucketsOf(localId), buckets);
      DistanceOrders(target, Stored(buckets));
      var sorted := SortByDistance(target, all, Stored(buckets));
      TakeIsSmallest(NearerTo(target), Stored(buckets), count, sorted);
      r := sorted[..Min(count, |sorted|)];
      ClosestByNumber(Stored(buckets), target, count, r);
    }

    method SortByDistance(target: Id, all: seq<Peer>, ghost peers: set<Peer>) returns (sorted: seq<Peer>)
      requires DistinctIds(all) && Ordered(NearerTo(target), peers) && forall p :: p in all ==> p in peers
      ensures Ascending(NearerTo(target), sorted) && forall p :: p in sorted <==> p in all
    {
      sorted := [];
      for i := 0 to |all|
        invariant Ascending(NearerTo(target), sorted)
        invariant forall p :: p in sorted <==> p in all[..i]
      {
        assert all[..i + 1] == all[..i] + [all[i]];
        InsertSorts(NearerTo(target), peers, sorted, all[i]);
        InsertMembers(NearerTo(target), sorted, all[i]);
        sorted := InsertPeer(target, sorted, all[i]);
      }
      assert all[..|all|] == all;
    }

    method InsertPeer(target: Id, sorted: seq<Peer>, p: Peer) returns (r: seq<Peer>)
      ensures r == InsertInOrder(NearerTo(target), sorted, p)
      decreases |sorted|
    {
      if |sorted| == 0 {
        return [p];
      }
      var last := sorted[|sorted| - 1];
      var before := CompareDistance(target, last, p);
      if before {
        return sorted + [p];
      }
      var rest := InsertPeer(target, sorted[..|sorted| - 1], p);
      return rest + [last];
    }

    /** Compares two distances byte by byte. */
    method CompareDistance(target: Id, p: Peer, q: Peer) returns (less: bool)
      ensures less <==> Nearer(target, p, q)
      ensures less <==> Number(Xor(p.id, target)) < Number(Xor(q.id, target))
    {
      LexIsNumber(Xor(p.id, target), Xor(q.id, target));
      var x, y := Xor(p.id, target), Xor(q.id, target);
      for i := 0 to 32
        invariant forall j :: 0 <= j < i ==> x[j] == y[j]
      {
        if x[i] != y[i] {
          assert DiffersAt(x, y, i);
          return x[i] < y[i];
        }
      }
      assert x == y;
      LexTotal(x, y);
      return false;
    }
  }

  lemma XorNonzero(x: Byte, y: Byte)
    ensures XorByte(x, y) == 0 <==> x == y
  {
    assert Pow2(8) == 256;
    XorBasics(x, y, 8);
  }

  lemma FlattenMore(index: Id -> BucketNo, table: Table, b: nat, all: seq<Peer>)
    requires TableInvariant(index, table) && b < |table|
    requires DistinctIds(all) && forall p :: p in all <==> p in Stored(table[..b])
    ensures DistinctIds(all + table[b]) && forall p :: p in all + table[b] <==> p in Stored(table[..b + 1])
  {
    forall p
      ensures p in Stored(table[..b + 1]) <==> p in Stored(table[..b]) || p in table[b]
    {
      if p in table[b] {
        var j :| 0 <= j < |table[b]| && table[b][j] == p;
        assert table[..b + 1][b][j] == p;
      }
      if p in Stored(table[..b]) {
        var c, j :| 0 <= c < b && 0 <= j < |table[..b][c]| && table[..b][c][j] == p;
        assert table[..b + 1][c][j] == p;
      }
    }
    forall i, j | 0 <= i < |all| && 0 <= j < |table[b]|
      ensures all[i].id != table[b][j].id
    {
      assert all[i] in all;
      var c, k :| 0 <= c < b && 0 <= k < |table[..b][c]| && table[..b][c][k] == all[i];
      assert table[c][k] == all[i];
    }
  }
}
