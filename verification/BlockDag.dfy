/** The block DAG as a value: nodes, the two edge directions, insertion of a block, and
    past, future, anticone and k-clusters with their bounded approximations. */
module BlockDag {
  import opened ByteStrings
  import opened Reachability

  datatype FileOperation =
    | Create(path: string, content: Bytes)
    | Delete(path: string)
    | Modify(path: string, content: Bytes)
    | Move(from: string, to: string)
    | SetPermissions(path: string, mode: nat)

  datatype Block = Block(
    hash: BlockHash,
    parentHashes: seq<BlockHash>,
    timestamp: nat,
    height: nat,
    operations: seq<FileOperation>,
    miner: string,
    nonce: nat,
    difficulty: nat)

  datatype DagNode = DagNode(block: Block, children: seq<BlockHash>, blueAnticoneSize: nat, isBlue: bool)

  type Dag = map<BlockHash, DagNode>

  function Parents(d: Dag): (g: Graph)
    ensures g.Keys == d.Keys && |g| == |d|
  {
    var g := map h | h in d :: d[h].block.parentHashes;
    assert g.Keys == d.Keys;
    assert |g| == |g.Keys| && |d| == |d.Keys|;
    g
  }

  function Children(d: Dag): (g: Graph)
    ensures g.Keys == d.Keys && |g| == |d|
  {
    var g := map h | h in d :: d[h].children;
    assert g.Keys == d.Keys;
    assert |g| == |g.Keys| && |d| == |d.Keys|;
    g
  }

  /** How often h occurs in the list. */
  function Mentions(hs: seq<BlockHash>, h: BlockHash): nat {
    multiset(hs)[h]
  }

  /** c occurs among p's children as often as p occurs among c's parents. */
  ghost predicate ChildCountExact(d: Dag, p: BlockHash, c: BlockHash)
    requires p in d
  {
    Mentions(d[p].children, c) == if c in d then Mentions(d[c].block.parentHashes, p) else 0
  }

  ghost predicate ChildIndexExact(d: Dag) {
    forall p, c :: p in d ==> ChildCountExact(d, p, c)
  }

  ghost predicate Keyed(d: Dag) {
    forall h :: h in d ==> d[h].block.hash == h
  }

  ghost predicate Ranked(d: Dag) {
    exists rank :: Ranks(Parents(d), rank)
  }

  /** What every DAG built by adding blocks satisfies. */
  ghost predicate WellFormed(d: Dag) {
    Keyed(d) && Ranked(d) && ChildIndexExact(d)
  }

  ghost function Past(d: Dag, h: BlockHash): set<BlockHash> {
    ReachSet(Parents(d), h)
  }

  ghost function Future(d: Dag, h: BlockHash): set<BlockHash> {
    ReachSet(Children(d), h)
  }

  /** The blocks that are neither h, nor an ancestor of h, nor a descendant of h. */
  ghost function Anticone(d: Dag, h: BlockHash): set<BlockHash> {
    d.Keys - {h} - Past(d, h) - Future(d, h)
  }

  ghost predicate IsKCluster(d: Dag, k: nat, s: set<BlockHash>) {
    forall h :: h in s ==> Overlap(Anticone(d, h), s) <= k
  }

  // ----- the edge directions agree, and past and future are what they should be

  lemma ChildEdges(d: Dag)
    requires WellFormed(d)
    ensures Mirror(Parents(d), Children(d))
  {
    forall c, p
      ensures Edge(Parents(d), c, p) <==> Edge(Children(d), p, c)
    {
      var rank :| Ranks(Parents(d), rank);
      if Edge(Parents(d), c, p) || Edge(Children(d), p, c) {
        assert ChildCountExact(d, p, c);
      }
    }
  }

  /** No block is its own ancestor or descendant, and both edge lists stay inside the DAG. */
  lemma DagIsAcyclic(d: Dag)
    requires WellFormed(d)
    ensures Closed(Parents(d)) && Acyclic(Parents(d))
    ensures Closed(Children(d)) && Acyclic(Children(d))
  {
    var rank :| Ranks(Parents(d), rank);
    RankedIsAcyclic(Parents(d), rank);
    ChildEdges(d);
    forall a ensures !Reaches(Children(d), a, a) {
      ReachesReversed(Parents(d), Children(d), a, a);
    }
  }

  lemma PastIffFuture(d: Dag, a: BlockHash, b: BlockHash)
    requires WellFormed(d)
    ensures a in Past(d, b) <==> b in Future(d, a)
  {
    ChildEdges(d);
    DagIsAcyclic(d);
    ReachesReversed(Parents(d), Children(d), b, a);
    if Reaches(Parents(d), b, a) {
      ReachedIsNode(Parents(d), b, a);
    }
  }

  /** Being in each other's anticone is symmetric. */
  lemma AnticoneSymmetric(d: Dag, a: BlockHash, b: BlockHash)
    requires WellFormed(d) && a in d && b in d
    ensures a in Anticone(d, b) <==> b in Anticone(d, a)
  {
    PastIffFuture(d, a, b);
    PastIffFuture(d, b, a);
  }

  /** The past of a block contains its parents and their pasts. */
  lemma PastContains(d: Dag, h: BlockHash, p: BlockHash)
    requires WellFormed(d) && h in d && p in d[h].block.parentHashes
    ensures p in Past(d, h) && p !in Past(d, p) && Past(d, p) < Past(d, h)
  {
    var g := Parents(d);
    DagIsAcyclic(d);
    assert Edge(g, h, p);
    EdgeReaches(g, h, p);
    forall x | x in Past(d, p)
      ensures x in Past(d, h)
    {
      ReachesTransitive(g, h, p, x);
    }
    assert p !in Past(d, p);
  }

  /** And nothing else. */
  lemma PastSplit(d: Dag, h: BlockHash, x: BlockHash) returns (p: BlockHash)
    requires WellFormed(d) && x in Past(d, h)
    ensures h in d && p in d[h].block.parentHashes && (x == p || x in Past(d, p))
  {
    var g := Parents(d);
    ReachesUnfold(g, h, x);
    p :| Edge(g, h, p) && (p == x || Reaches(g, p, x));
  }

  // ----- the bounded approximations

  ghost function BoundedPast(d: Dag, h: BlockHash, bound: nat): set<BlockHash> {
    BoundedReach(Parents(d), h, bound)
  }

  ghost function BoundedFuture(d: Dag, h: BlockHash, bound: nat): set<BlockHash> {
    BoundedReach(Children(d), h, bound)
  }

  ghost function BoundedAnticone(d: Dag, h: BlockHash, bound: nat): set<BlockHash> {
    if bound == 0 then {} else d.Keys - {h} - BoundedPast(d, h, bound) - BoundedFuture(d, h, bound)
  }

  ghost predicate KClusterBounded(d: Dag, k: nat, s: set<BlockHash>, bound: nat) {
    bound == 0 || forall h :: h in s ==> Overlap(BoundedAnticone(d, h, bound), s) <= k
  }

  /** For every bound, the bounded past and future are subsets of the true ones; each is exact
      or has at least bound members; with bound at least the number of blocks both are exact. */
  lemma BoundedPastAndFuture(d: Dag, h: BlockHash, bound: nat)
    requires WellFormed(d)
    ensures BoundedPast(d, h, bound) <= Past(d, h) && BoundedFuture(d, h, bound) <= Future(d, h)
    ensures BoundedPast(d, h, bound) == Past(d, h) || |BoundedPast(d, h, bound)| >= bound
    ensures BoundedFuture(d, h, bound) == Future(d, h) || |BoundedFuture(d, h, bound)| >= bound
    ensures bound >= |d| ==> BoundedPast(d, h, bound) == Past(d, h) && BoundedFuture(d, h, bound) == Future(d, h)
  {
    DagIsAcyclic(d);
    BoundedReachSound(Parents(d), h, bound);
    BoundedReachSound(Children(d), h, bound);
    if bound >= |d| {
      BoundedReachExact(Parents(d), h, bound);
      BoundedReachExact(Children(d), h, bound);
    }
  }

  /** The bound bounds the work: bounded past and future are found from at most bound + 1 blocks, and bound zero
      finds nothing. */
  lemma BoundedVisits(d: Dag, h: BlockHash, bound: nat) returns (v: set<BlockHash>, w: set<BlockHash>)
    ensures bound == 0 ==> BoundedPast(d, h, bound) == {} && BoundedFuture(d, h, bound) == {}
    ensures |v| <= bound + 1 && v <= BoundedPast(d, h, bound) + {h}
    ensures forall x :: x in BoundedPast(d, h, bound) ==> exists y :: y in v && y in d && x in d[y].block.parentHashes
    ensures |w| <= bound + 1 && w <= BoundedFuture(d, h, bound) + {h}
    ensures forall x :: x in BoundedFuture(d, h, bound) ==> exists y :: y in w && y in d && x in d[y].children
  {
    v := BoundedReachVisits(Parents(d), h, bound);
    w := BoundedReachVisits(Children(d), h, bound);
    forall x | x in BoundedPast(d, h, bound)
      ensures exists y :: y in v && y in d && x in d[y].block.parentHashes
    {
      var y :| y in v && Edge(Parents(d), y, x);
    }
    forall x | x in BoundedFuture(d, h, bound)
      ensures exists y :: y in w && y in d && x in d[y].children
    {
      var y :| y in w && Edge(Children(d), y, x);
    }
  }

  /** A nonzero bound never loses a block of the true anticone; a large one adds none. */
  lemma BoundedAnticoneSound(d: Dag, h: BlockHash, bound: nat)
    requires WellFormed(d) && bound > 0
    ensures Anticone(d, h) <= BoundedAnticone(d, h, bound)
    ensures bound >= |d| ==> BoundedAnticone(d, h, bound) == Anticone(d, h)
  {
    BoundedPastAndFuture(d, h, bound);
  }

  /** With a large enough bound the bounded anticone relation is symmetric. */
  lemma BoundedAnticoneSymmetric(d: Dag, a: BlockHash, b: BlockHash, bound: nat)
    requires WellFormed(d) && a in d && b in d && bound >= |d|
    ensures a in BoundedAnticone(d, b, bound) <==> b in BoundedAnticone(d, a, bound)
  {
    SubsetSize({a}, d.Keys);
    BoundedAnticoneSound(d, a, bound);
    BoundedAnticoneSound(d, b, bound);
    AnticoneSymmetric(d, a, b);
  }

  /** A positive answer of the bounded check is right for every nonzero bound, and the
      check decides k-clusters once the bound is at least the number of blocks. */
  lemma BoundedCheckSound(d: Dag, k: nat, s: set<BlockHash>, bound: nat)
    requires WellFormed(d) && bound > 0
    ensures KClusterBounded(d, k, s, bound) ==> IsKCluster(d, k, s)
    ensures bound >= |d| ==> (KClusterBounded(d, k, s, bound) <==> IsKCluster(d, k, s))
  {
    forall h | h in s
      ensures Overlap(Anticone(d, h), s) <= Overlap(BoundedAnticone(d, h, bound), s)
      ensures bound >= |d| ==> Anticone(d, h) == BoundedAnticone(d, h, bound)
    {
      BoundedAnticoneSound(d, h, bound);
      OverlapGrows(Anticone(d, h), s, BoundedAnticone(d, h, bound), s);
    }
  }

  /** Every subset of a k-cluster is a k-cluster. */
  lemma SubCluster(d: Dag, k: nat, s: set<BlockHash>, t: set<BlockHash>)
    requires IsKCluster(d, k, t) && s <= t
    ensures IsKCluster(d, k, s)
  {
    forall h | h in s
      ensures Overlap(Anticone(d, h), s) <= k
    {
      OverlapGrows(Anticone(d, h), s, Anticone(d, h), t);
    }
  }

  // ----- the unbounded future lists direct children only

  ghost function DirectFuture(d: Dag, h: BlockHash): set<BlockHash> {
    set c | c in d && h in d[c].block.parentHashes
  }

  ghost function WideAnticone(d: Dag, h: BlockHash): set<BlockHash> {
    d.Keys - {h} - Past(d, h) - DirectFuture(d, h)
  }

  /** The unbounded anticone always contains the true one, and equals it exactly when every
      descendant of the block is a direct child of it. */
  lemma WideAnticoneSound(d: Dag, h: BlockHash)
    requires WellFormed(d)
    ensures Anticone(d, h) <= WideAnticone(d, h)
    ensures WideAnticone(d, h) == Anticone(d, h) <==> Future(d, h) <= DirectFuture(d, h)
  {
    DagIsAcyclic(d);
    forall c | c in DirectFuture(d, h)
      ensures c in Future(d, h)
    {
      assert Edge(Parents(d), c, h);
      ChildEdges(d);
      EdgeReaches(Children(d), h, c);
    }
    forall c | c in Future(d, h)
      ensures c != h && c !in Past(d, h)
    {
      PastIffFuture(d, h, c);
      if c in Past(d, h) {
        ReachesTransitive(Parents(d), h, c, h);
      }
    }
  }

  /** A positive answer of the unbounded check is right. */
  lemma WideCheckSound(d: Dag, k: nat, s: set<BlockHash>)
    requires WellFormed(d)
    requires forall h :: h in s ==> Overlap(WideAnticone(d, h), s) <= k
    ensures IsKCluster(d, k, s)
  {
    forall h | h in s
      ensures Overlap(Anticone(d, h), s) <= k
    {
      WideAnticoneSound(d, h);
      OverlapGrows(Anticone(d, h), s, WideAnticone(d, h), s);
    }
  }

  // ----- inserting a block

  /** n copies of x. */
  function Repeat(x: BlockHash, n: nat): seq<BlockHash> {
    if n == 0 then [] else Repeat(x, n - 1) + [x]
  }

  lemma {:induction false} RepeatCount(x: BlockHash, n: nat, y: BlockHash)
    ensures multiset(Repeat(x, n))[y] == if y == x then n else 0
  {
    if n > 0 {
      RepeatCount(x, n - 1, y);
    }
  }

  /** The node of h after the block was registered with it, once per mention among its parents. */
  function Register(node: DagNode, h: BlockHash, block: Block): DagNode {
    node.(children := node.children + Repeat(block.hash, Mentions(block.parentHashes, h)))
  }

  /** The DAG with the block added and registered with each of its parents. */
  function Insert(d: Dag, block: Block): Dag {
    (map h | h in d :: Register(d[h], h, block))[block.hash := DagNode(block, [], 0, false)]
  }

  ghost predicate Insertable(d: Dag, block: Block) {
    block.hash !in d && forall p :: p in block.parentHashes ==> p in d
  }

  /** What Insert does, observed on blocks and on child counts. */
  ghost predicate Inserted(d: Dag, block: Block, d': Dag) {
    && d'.Keys == d.Keys + {block.hash}
    && |d'| == |d| + 1
    && d'[block.hash] == DagNode(block, [], 0, false)
    && (forall h :: h in d ==> d'[h].block == d[h].block)
    && (forall h, c :: h in d ==>
          Mentions(d'[h].children, c) == Mentions(d[h].children, c) + if c == block.hash then Mentions(block.parentHashes, h) else 0)
  }

  lemma InsertDoes(d: Dag, block: Block)
    requires Insertable(d, block)
    ensures Inserted(d, block, Insert(d, block))
  {
    var d' := Insert(d, block);
    assert d'.Keys == d.Keys + {block.hash};
    assert |d'| == |d'.Keys| && |d| == |d.Keys|;
    forall h, c | h in d
      ensures Mentions(d'[h].children, c) == Mentions(d[h].children, c) + if c == block.hash then Mentions(block.parentHashes, h) else 0
    {
      var n := Mentions(block.parentHashes, h);
      RepeatCount(block.hash, n, c);
      assert d'[h].children == d[h].children + Repeat(block.hash, n);
      assert multiset(d[h].children + Repeat(block.hash, n)) == multiset(d[h].children) + multiset(Repeat(block.hash, n));
    }
  }

  lemma InsertedParents(d: Dag, block: Block, d': Dag)
    requires Insertable(d, block) && Inserted(d, block, d')
    ensures Parents(d') == Parents(d)[block.hash := block.parentHashes]
  {
  }

  lemma GrownRank(g: Graph, x: BlockHash, ps: seq<BlockHash>, rank: map<BlockHash, nat>)
    requires x !in g && (forall p :: p in ps ==> p in g) && Ranks(g, rank)
    ensures Ranks(g[x := ps], rank[x := |g|])
  {
    var g', rank' := g[x := ps], rank[x := |g|];
    assert g'.Keys == g.Keys + {x};
    assert |g'| == |g'.Keys| && |g| == |g.Keys|;
    forall a, b | Edge(g', a, b)
      ensures b in rank' && rank'[b] < rank'[a]
    {
      if a != x {
        assert Edge(g, a, b);
      }
    }
  }

  lemma InsertedChildCount(d: Dag, block: Block, d': Dag, p: BlockHash, c: BlockHash)
    requires Insertable(d, block) && Inserted(d, block, d')
    requires ChildIndexExact(d) && Closed(Parents(d)) && p in d'
    ensures ChildCountExact(d', p, c)
  {
    if p == block.hash {
      assert p !in block.parentHashes;
      assert Edge(Parents(d), c, p) <==> c in d && p in d[c].block.parentHashes;
    } else {
      assert ChildCountExact(d, p, c);
    }
  }

  lemma InsertedKeepsRanked(d: Dag, block: Block, d': Dag)
    requires Ranked(d) && Insertable(d, block) && Inserted(d, block, d')
    ensures Ranked(d')
  {
    var rank :| Ranks(Parents(d), rank);
    InsertedParents(d, block, d');
    GrownRank(Parents(d), block.hash, block.parentHashes, rank);
  }

  lemma InsertedKeepsWellFormed(d: Dag, block: Block, d': Dag)
    requires WellFormed(d) && Insertable(d, block) && Inserted(d, block, d')
    ensures WellFormed(d')
  {
    DagIsAcyclic(d);
    InsertedKeepsRanked(d, block, d');
    forall p, c | p in d'
      ensures ChildCountExact(d', p, c)
    {
      InsertedChildCount(d, block, d', p, c);
    }
  }

  lemma InsertKeepsWellFormed(d: Dag, block: Block)
    requires WellFormed(d) && Insertable(d, block)
    ensures WellFormed(Insert(d, block))
  {
    InsertDoes(d, block);
    InsertedKeepsWellFormed(d, block, Insert(d, block));
  }

  /** A DAG that holds one block without parents is well formed. */
  lemma SingletonWellFormed(genesis: Block)
    requires genesis.parentHashes == []
    ensures WellFormed(map[genesis.hash := DagNode(genesis, [], 0, true)])
  {
    var d := map[genesis.hash := DagNode(genesis, [], 0, true)];
    assert Parents(d).Keys == {genesis.hash};
    assert Ranks(Parents(d), map[genesis.hash := 0]);
  }

  lemma {:induction false} WalkSurvives(g: Graph, g': Graph, a: BlockHash, b: BlockHash, n: nat)
    requires Closed(g) && a in g && forall x :: x in g ==> x in g' && g'[x] == g[x]
    ensures Walk(g, a, b, n) <==> Walk(g', a, b, n)
    decreases n
  {
    if n > 0 {
      if m :| Edge(g, a, m) && Walk(g, m, b, n - 1) {
        WalkSurvives(g, g', m, b, n - 1);
        assert Edge(g', a, m);
      }
      if m :| Edge(g', a, m) && Walk(g', m, b, n - 1) {
        assert Edge(g, a, m);
        WalkSurvives(g, g', m, b, n - 1);
      }
    }
  }

  lemma ReachSurvives(g: Graph, g': Graph, a: BlockHash)
    requires Closed(g) && a in g && forall x :: x in g ==> x in g' && g'[x] == g[x]
    ensures ReachSet(g, a) == ReachSet(g', a)
  {
    forall b
      ensures b in ReachSet(g, a) <==> b in ReachSet(g', a)
    {
      if b in ReachSet(g, a) {
        var n: nat :| n > 0 && Walk(g, a, b, n);
        WalkSurvives(g, g', a, b, n);
      }
      if b in ReachSet(g', a) {
        var n: nat :| n > 0 && Walk(g', a, b, n);
        WalkSurvives(g, g', a, b, n);
        ReachedIsNode(g, a, b);
      }
    }
  }

  /** Adding a block never changes the past of a block that was there before. */
  lemma InsertKeepsPast(d: Dag, block: Block, h: BlockHash)
    requires WellFormed(d) && Insertable(d, block) && h in d
    ensures Past(Insert(d, block), h) == Past(d, h)
  {
    DagIsAcyclic(d);
    InsertDoes(d, block);
    InsertedParents(d, block, Insert(d, block));
    ReachSurvives(Parents(d), Parents(Insert(d, block)), h);
  }

  // ----- tips and blue scores

  ghost function Childless(d: Dag): set<BlockHash> {
    set h | h in d && d[h].children == []
  }

  /** A list of all childless blocks of a DAG with a block is not empty. */
  lemma SomeTipListed(d: Dag, tips: seq<BlockHash>, h: BlockHash)
    requires WellFormed(d) && Enumerates(tips, Childless(d)) && h in d
    ensures tips != []
  {
    var rank :| Ranks(Parents(d), rank);
    var tip := TipAbove(d, rank, h);
    assert tip in tips;
  }

  ghost function BlueScore(d: Dag, blue: set<BlockHash>, h: BlockHash): nat {
    Overlap(Past(d, h), blue)
  }

  /** The score counts the blue ancestors: none without blue blocks, and one more for each blue block that is an
      ancestor. */
  lemma BlueScoreOneMore(d: Dag, blue: set<BlockHash>, x: BlockHash, h: BlockHash)
    requires x !in blue
    ensures BlueScore(d, {}, h) == 0
    ensures BlueScore(d, blue + {x}, h) == BlueScore(d, blue, h) + if x in Past(d, h) then 1 else 0
  {
    OverlapIsIntersection(Past(d, h), {});
    assert Past(d, h) * {} == {};
    OverlapOneMore(Past(d, h), blue, x);
  }

  lemma BlueScoreCounts(d: Dag, blue: set<BlockHash>, h: BlockHash)
    ensures BlueScore(d, blue, h) == |Past(d, h) * blue|
  {
    OverlapIsIntersection(Past(d, h), blue);
  }

  /** A block with a single parent scores what the parent scores, plus one if the parent is blue. */
  lemma SingleParentScore(d: Dag, blue: set<BlockHash>, p: BlockHash, c: BlockHash)
    requires WellFormed(d) && c in d && d[c].block.parentHashes == [p]
    ensures BlueScore(d, blue, c) == BlueScore(d, blue, p) + if p in blue then 1 else 0
  {
    PastContains(d, c, p);
    forall x | x in Past(d, c)
      ensures x in Past(d, p) + {p}
    {
      var q := PastSplit(d, c, x);
      assert q == p;
    }
    assert Past(d, c) == Past(d, p) + {p};
    OverlapSwapped(Past(d, c), blue);
    OverlapSwapped(Past(d, p), blue);
    OverlapOneMore(blue, Past(d, p), p);
  }

  lemma OverlapSwapped(a: set<BlockHash>, b: set<BlockHash>)
    ensures Overlap(a, b) == Overlap(b, a)
  {
    assert (set x | x in a && x in b) == (set x | x in b && x in a);
  }

  /** Every block is a tip or an ancestor of one. */
  lemma {:induction false} TipAbove(d: Dag, rank: map<BlockHash, nat>, h: BlockHash) returns (tip: BlockHash)
    requires WellFormed(d) && Ranks(Parents(d), rank) && h in d
    ensures tip in Childless(d) && (tip == h || h in Past(d, tip))
    decreases |d| - rank[h]
  {
    if d[h].children == [] {
      tip := h;
    } else {
      var c := d[h].children[0];
      ChildEdges(d);
      assert Edge(Children(d), h, c);
      assert Edge(Parents(d), c, h);
      tip := TipAbove(d, rank, c);
      EdgeReaches(Parents(d), c, h);
      if tip != c {
        ReachesTransitive(Parents(d), tip, c, h);
      }
    }
  }

  lemma GrowingOverlap(low: set<BlockHash>, high: set<BlockHash>, blue: set<BlockHash>, x: BlockHash)
    requires low <= high && x in high - low
    ensures Overlap(high, blue) >= Overlap(low, blue) + if x in blue then 1 else 0
  {
    var lower, upper := set y | y in low && y in blue, set y | y in high && y in blue;
    SubsetSize(lower, upper);
    if x in blue {
      SubsetSize(lower + {x}, upper);
    }
  }

  /** Blue score never falls from parent to child, and rises when the parent is blue. */
  lemma BlueScoreGrows(d: Dag, blue: set<BlockHash>, parent: BlockHash, child: BlockHash)
    requires WellFormed(d) && child in d && parent in d[child].block.parentHashes
    ensures BlueScore(d, blue, child) >= BlueScore(d, blue, parent) + if parent in blue then 1 else 0
  {
    PastContains(d, child, parent);
    GrowingOverlap(Past(d, parent), Past(d, child), blue, parent);
  }

  lemma BlueScoreOfDescendant(d: Dag, blue: set<BlockHash>, h: BlockHash, tip: BlockHash)
    requires WellFormed(d) && h in Past(d, tip)
    ensures BlueScore(d, blue, h) <= BlueScore(d, blue, tip)
  {
    DagIsAcyclic(d);
    forall x | x in Past(d, h)
      ensures x in Past(d, tip)
    {
      ReachesTransitive(Parents(d), tip, h, x);
    }
    OverlapGrows(Past(d, h), blue, Past(d, tip), blue);
  }

  /** best is the first entry of the list with the highest blue score. */
  ghost predicate FirstBest(d: Dag, blue: set<BlockHash>, tips: seq<BlockHash>, best: BlockHash) {
    exists i :: 0 <= i < |tips| && best == tips[i]
      && (forall j :: 0 <= j < |tips| ==> BlueScore(d, blue, tips[j]) <= BlueScore(d, blue, best))
      && (forall j :: 0 <= j < i ==> BlueScore(d, blue, tips[j]) < BlueScore(d, blue, best))
  }

  /** The numbers are the blue scores of the first listed tips. */
  ghost predicate Scored(d: Dag, blue: set<BlockHash>, tips: seq<BlockHash>, scores: seq<nat>) {
    |scores| <= |tips| && forall j :: 0 <= j < |scores| ==> scores[j] == BlueScore(d, blue, tips[j])
  }

  lemma ScoredMore(d: Dag, blue: set<BlockHash>, tips: seq<BlockHash>, scores: seq<nat>, score: nat)
    requires Scored(d, blue, tips, scores) && |scores| < |tips| && score == BlueScore(d, blue, tips[|scores|])
    ensures Scored(d, blue, tips, scores + [score])
  {
  }

  lemma FirstBestByScores(d: Dag, blue: set<BlockHash>, tips: seq<BlockHash>, scores: seq<nat>, i: nat)
    requires Scored(d, blue, tips, scores) && |scores| == |tips| && FirstMaximum(scores, i)
    ensures FirstBest(d, blue, tips, tips[i])
  {
    forall j | 0 <= j < |tips|
      ensures BlueScore(d, blue, tips[j]) == scores[j]
    {
    }
  }

  /** The best tip has the highest blue score of all blocks, not only of the tips. */
  lemma BestTipIsBestBlock(d: Dag, blue: set<BlockHash>, tips: seq<BlockHash>, best: BlockHash, h: BlockHash)
    requires WellFormed(d) && Enumerates(tips, Childless(d)) && FirstBest(d, blue, tips, best) && h in d
    ensures BlueScore(d, blue, h) <= BlueScore(d, blue, best)
  {
    var rank :| Ranks(Parents(d), rank);
    var tip := TipAbove(d, rank, h);
    assert tip in tips;
    if tip != h {
      BlueScoreOfDescendant(d, blue, h, tip);
    }
  }

  lemma BestTipIsBest(d: Dag, blue: set<BlockHash>, tips: seq<BlockHash>, best: BlockHash)
    requires WellFormed(d) && Enumerates(tips, Childless(d)) && FirstBest(d, blue, tips, best)
    ensures forall h :: h in d ==> BlueScore(d, blue, h) <= BlueScore(d, blue, best)
  {
    forall h | h in d
      ensures BlueScore(d, blue, h) <= BlueScore(d, blue, best)
    {
      BestTipIsBestBlock(d, blue, tips, best, h);
    }
  }

  /** The best tip in terms of the sets: the first listed tip with the most blue ancestors. */
  lemma BestTipCounts(d: Dag, blue: set<BlockHash>, tips: seq<BlockHash>, best: BlockHash) returns (at: nat)
    requires FirstBest(d, blue, tips, best)
    ensures at < |tips| && tips[at] == best
    ensures forall j :: 0 <= j < |tips| ==> |Past(d, tips[j]) * blue| <= |Past(d, best) * blue|
    ensures forall j :: 0 <= j < at ==> |Past(d, tips[j]) * blue| < |Past(d, best) * blue|
  {
    at :| 0 <= at < |tips| && best == tips[at]
      && (forall j :: 0 <= j < |tips| ==> BlueScore(d, blue, tips[j]) <= BlueScore(d, blue, best))
      && (forall j :: 0 <= j < at ==> BlueScore(d, blue, tips[j]) < BlueScore(d, blue, best));
    BlueScoreCounts(d, blue, best);
    forall j | 0 <= j < |tips|
      ensures BlueScore(d, blue, tips[j]) == |Past(d, tips[j]) * blue|
    {
      BlueScoreCounts(d, blue, tips[j]);
    }
  }

  lemma BestTipCountsMost(d: Dag, blue: set<BlockHash>, tips: seq<BlockHash>, best: BlockHash)
    requires WellFormed(d) && Enumerates(tips, Childless(d)) && FirstBest(d, blue, tips, best)
    ensures forall h :: h in d ==> |Past(d, h) * blue| <= |Past(d, best) * blue|
  {
    BlueScoreCounts(d, blue, best);
    forall h | h in d
      ensures |Past(d, h) * blue| <= |Past(d, best) * blue|
    {
      BestTipIsBestBlock(d, blue, tips, best, h);
      BlueScoreCounts(d, blue, h);
    }
  }

  // ----- registering one parent at a time

  /** The DAG after the block's node was inserted and registered with the listed parents. */
  ghost function RegisteredWith(d: Dag, block: Block, parents: seq<BlockHash>): Dag {
    (map h | h in d :: Register(d[h], h, block.(parentHashes := parents)))[block.hash := DagNode(block, [], 0, false)]
  }

  lemma RegisterNone(d: Dag, block: Block)
    requires block.hash !in d
    ensures RegisteredWith(d, block, []) == d[block.hash := DagNode(block, [], 0, false)]
  {
    var a, b := RegisteredWith(d, block, []), d[block.hash := DagNode(block, [], 0, false)];
    assert a.Keys == b.Keys;
    forall h | h in b
      ensures a[h] == b[h]
    {
      if h != block.hash {
        assert Repeat(block.hash, 0) == [];
        assert d[h].children + [] == d[h].children;
      }
    }
  }

  lemma RegisterMore(node: DagNode, h: BlockHash, block: Block, parents: seq<BlockHash>, p: BlockHash)
    ensures
      var before := Register(node, h, block.(parentHashes := parents));
      Register(node, h, block.(parentHashes := parents + [p])) ==
        if h == p then before.(children := before.children + [block.hash]) else before
  {
    var n := Mentions(parents, h);
    assert Mentions(parents + [p], h) == n + if h == p then 1 else 0;
    assert node.children + Repeat(block.hash, n + 1) == node.children + Repeat(block.hash, n) + [block.hash];
  }

  /** The DAG with one more entry in the parent's child list, if the parent is there. */
  function WithChild(d: Dag, parent: BlockHash, child: BlockHash): Dag {
    if parent in d then d[parent := d[parent].(children := d[parent].children + [child])] else d
  }

  lemma WithChildIs(d: Dag, parent: BlockHash, child: BlockHash, d': Dag)
    requires parent in d && d'.Keys == d.Keys
    requires forall h :: h in d ==>
      d'[h] == if h == parent then d[h].(children := d[h].children + [child]) else d[h]
    ensures d' == WithChild(d, parent, child)
  {
  }

  lemma RegisterNext(d: Dag, block: Block, parents: seq<BlockHash>, p: BlockHash)
    requires block.hash !in d && p in d
    ensures RegisteredWith(d, block, parents + [p]) == WithChild(RegisteredWith(d, block, parents), p, block.hash)
  {
    var now, after := RegisteredWith(d, block, parents), RegisteredWith(d, block, parents + [p]);
    assert now.Keys == d.Keys + {block.hash} == after.Keys;
    forall h | h in now
      ensures after[h] == if h == p then now[h].(children := now[h].children + [block.hash]) else now[h]
    {
      if h in d {
        RegisterMore(d[h], h, block, parents, p);
      }
    }
    WithChildIs(now, p, block.hash, after);
  }

  /** The loop over the first n parents. */
  function RegisteredUpTo(d: Dag, block: Block, n: nat): Dag
    requires n <= |block.parentHashes|
  {
    if n == 0 then d[block.hash := DagNode(block, [], 0, false)]
    else WithChild(RegisteredUpTo(d, block, n - 1), block.parentHashes[n - 1], block.hash)
  }

  lemma {:induction false} RegisteredIs(d: Dag, block: Block, n: nat)
    requires Insertable(d, block) && n <= |block.parentHashes|
    ensures RegisteredUpTo(d, block, n) == RegisteredWith(d, block, block.parentHashes[..n])
  {
    if n == 0 {
      RegisteredStart(d, block);
    } else {
      RegisteredIs(d, block, n - 1);
      RegisterAt(d, block, n - 1);
    }
  }

  lemma RegisteredStart(d: Dag, block: Block)
    requires block.hash !in d
    ensures RegisteredWith(d, block, block.parentHashes[..0]) == d[block.hash := DagNode(block, [], 0, false)]
  {
    RegisterNone(d, block);
    assert block.parentHashes[..0] == [];
  }

  lemma RegisterAt(d: Dag, block: Block, i: nat)
    requires Insertable(d, block) && i < |block.parentHashes|
    ensures RegisteredWith(d, block, block.parentHashes[..i + 1]) ==
      WithChild(RegisteredWith(d, block, block.parentHashes[..i]), block.parentHashes[i], block.hash)
  {
    RegisterNext(d, block, block.parentHashes[..i], block.parentHashes[i]);
    assert block.parentHashes[..i] + [block.parentHashes[i]] == block.parentHashes[..i + 1];
  }

  /** After all parents it is the DAG with the block inserted. */
  lemma RegisteredAll(d: Dag, block: Block)
    requires Insertable(d, block)
    ensures RegisteredUpTo(d, block, |block.parentHashes|) == Insert(d, block)
  {
    RegisteredIs(d, block, |block.parentHashes|);
    assert block.parentHashes[..|block.parentHashes|] == block.parentHashes;
  }
}
