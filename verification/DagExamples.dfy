/** Small DAGs, over any distinct hashes, on which two plausible claims about the consensus code fail. */
module DagExamples {
  import opened ByteStrings
  import opened Reachability
  import opened BlockDag
  import opened BlueSet
  import opened Colouring
  import opened DagRuns
  import opened GhostDag
  import opened LongestChain

  function Plain(hash: BlockHash, parents: seq<BlockHash>): Block {
    Block(hash, parents, 0, 0, [], "", 0, 1)
  }

  function Genesis(g: BlockHash): Dag {
    map[g := DagNode(Plain(g, []), [], 0, true)]
  }

  /** Genesis g, its children a and b, and c, a child of a. */
  function Fork(g: BlockHash, a: BlockHash, b: BlockHash, c: BlockHash): Dag {
    Insert(Insert(Insert(Genesis(g), Plain(a, [g])), Plain(b, [g])), Plain(c, [a]))
  }

  /** g, its child a, and a's child b. */
  function Line(g: BlockHash, a: BlockHash, b: BlockHash): Dag {
    Insert(Insert(Genesis(g), Plain(a, [g])), Plain(b, [a]))
  }

  ghost predicate HasParents(d: Dag, h: BlockHash, parents: seq<BlockHash>) {
    h in d && d[h].block.parentHashes == parents
  }

  ghost predicate IsFork(d: Dag, g: BlockHash, a: BlockHash, b: BlockHash, c: BlockHash) {
    && g != a && g != b && g != c && a != b && a != c && b != c
    && WellFormed(d) && d.Keys == {g, a, b, c} && |d| == 4
    && HasParents(d, g, []) && HasParents(d, a, [g]) && HasParents(d, b, [g]) && HasParents(d, c, [a])
  }

  ghost predicate IsLine(d: Dag, g: BlockHash, a: BlockHash, b: BlockHash) {
    && WellFormed(d) && d.Keys == {g, a, b}
    && HasParents(d, g, []) && HasParents(d, a, [g]) && HasParents(d, b, [a])
  }

  /** d' is d with one more block h whose only parent is p. */
  ghost predicate Grown(d: Dag, h: BlockHash, p: BlockHash, d': Dag) {
    && WellFormed(d') && d'.Keys == d.Keys + {h} && |d'| == |d| + 1
    && HasParents(d', h, [p]) && forall x :: x in d ==> HasParents(d', x, d[x].block.parentHashes)
  }

  lemma GrownIfInserted(d: Dag, h: BlockHash, p: BlockHash, d': Dag)
    requires Inserted(d, Plain(h, [p]), d') && WellFormed(d')
    ensures Grown(d, h, p, d')
  {
  }

  lemma Grow(d: Dag, h: BlockHash, p: BlockHash)
    requires WellFormed(d) && h !in d && p in d
    ensures Insertable(d, Plain(h, [p])) && Grown(d, h, p, Insert(d, Plain(h, [p])))
  {
    InsertKeepsWellFormed(d, Plain(h, [p]));
    InsertDoes(d, Plain(h, [p]));
    GrownIfInserted(d, h, p, Insert(d, Plain(h, [p])));
  }

  ghost predicate IsPair(d: Dag, g: BlockHash, a: BlockHash) {
    && g != a
    && WellFormed(d) && d.Keys == {g, a} && |d| == 2
    && HasParents(d, g, []) && HasParents(d, a, [g])
  }

  ghost predicate IsTriple(d: Dag, g: BlockHash, a: BlockHash, b: BlockHash) {
    && g != a && g != b && a != b
    && WellFormed(d) && d.Keys == {g, a, b} && |d| == 3
    && HasParents(d, g, []) && HasParents(d, a, [g]) && HasParents(d, b, [g])
  }

  lemma GrownPair(d: Dag, g: BlockHash, a: BlockHash, d': Dag)
    requires g != a && d.Keys == {g} && |d| == 1 && HasParents(d, g, []) && Grown(d, a, g, d')
    ensures IsPair(d', g, a)
  {
  }

  lemma GrownTriple(d: Dag, g: BlockHash, a: BlockHash, b: BlockHash, d': Dag)
    requires IsPair(d, g, a) && b != g && b != a && Grown(d, b, g, d')
    ensures IsTriple(d', g, a, b)
  {
  }

  lemma GrownFork(d: Dag, g: BlockHash, a: BlockHash, b: BlockHash, c: BlockHash, d': Dag)
    requires IsTriple(d, g, a, b) && c != g && c != a && c != b && Grown(d, c, a, d')
    ensures IsFork(d', g, a, b, c)
  {
  }

  lemma MakePair(g: BlockHash, a: BlockHash)
    requires g != a
    ensures IsPair(Insert(Genesis(g), Plain(a, [g])), g, a)
  {
    SingletonWellFormed(Plain(g, []));
    assert Genesis(g).Keys == {g} && |Genesis(g)| == |Genesis(g).Keys|;
    assert HasParents(Genesis(g), g, []);
    Grow(Genesis(g), a, g);
    GrownPair(Genesis(g), g, a, Insert(Genesis(g), Plain(a, [g])));
  }

  lemma PairToTriple(d: Dag, g: BlockHash, a: BlockHash, b: BlockHash)
    requires IsPair(d, g, a) && b != g && b != a
    ensures IsTriple(Insert(d, Plain(b, [g])), g, a, b)
  {
    Grow(d, b, g);
    GrownTriple(d, g, a, b, Insert(d, Plain(b, [g])));
  }

  lemma TripleToFork(d: Dag, g: BlockHash, a: BlockHash, b: BlockHash, c: BlockHash)
    requires IsTriple(d, g, a, b) && c != g && c != a && c != b
    ensures IsFork(Insert(d, Plain(c, [a])), g, a, b, c)
  {
    Grow(d, c, a);
    GrownFork(d, g, a, b, c, Insert(d, Plain(c, [a])));
  }

  lemma PairToLine(d: Dag, g: BlockHash, a: BlockHash, b: BlockHash)
    requires IsPair(d, g, a) && b != g && b != a
    ensures IsLine(Insert(d, Plain(b, [a])), g, a, b)
  {
    Grow(d, b, a);
  }

  lemma ForkShape(g: BlockHash, a: BlockHash, b: BlockHash, c: BlockHash)
    requires g != a && g != b && g != c && a != b && a != c && b != c
    ensures IsFork(Fork(g, a, b, c), g, a, b, c)
  {
    MakePair(g, a);
    PairToTriple(Insert(Genesis(g), Plain(a, [g])), g, a, b);
    TripleToFork(Insert(Insert(Genesis(g), Plain(a, [g])), Plain(b, [g])), g, a, b, c);
  }

  lemma LineShape(g: BlockHash, a: BlockHash, b: BlockHash)
    requires g != a && g != b && a != b
    ensures IsLine(Line(g, a, b), g, a, b)
  {
    MakePair(g, a);
    PairToLine(Insert(Genesis(g), Plain(a, [g])), g, a, b);
  }

  lemma PastOfRoot(d: Dag, h: BlockHash)
    requires WellFormed(d) && HasParents(d, h, [])
    ensures Past(d, h) == {}
  {
    if x :| x in Past(d, h) {
      var p := PastSplit(d, h, x);
      assert false;
    }
  }

  lemma PastOfSingle(d: Dag, h: BlockHash, p: BlockHash)
    requires WellFormed(d) && HasParents(d, h, [p])
    ensures Past(d, h) == Past(d, p) + {p}
  {
    PastContains(d, h, p);
    forall x | x in Past(d, h)
      ensures x in Past(d, p) + {p}
    {
      var q := PastSplit(d, h, x);
      assert q == p;
    }
  }

  /** Two blocks are in each other's anticone when neither is in the past of the other. */
  ghost predicate Unrelated(d: Dag, x: BlockHash, y: BlockHash) {
    y != x && y !in Past(d, x) && x !in Past(d, y)
  }

  lemma AnticoneFromPasts(d: Dag, x: BlockHash, s: set<BlockHash>)
    requires WellFormed(d) && s <= d.Keys
    requires forall y :: y in d ==> (y in s <==> Unrelated(d, x, y))
    ensures Anticone(d, x) == s
  {
    forall y | y in d
      ensures y in Anticone(d, x) <==> Unrelated(d, x, y)
    {
      PastIffFuture(d, x, y);
    }
  }

  ghost predicate ForkPasts(d: Dag, g: BlockHash, a: BlockHash, b: BlockHash, c: BlockHash) {
    && g != a && g != b && g != c && a != b && a != c && b != c && d.Keys == {g, a, b, c}
    && Past(d, g) == {} && Past(d, a) == {g} && Past(d, b) == {g} && Past(d, c) == {g, a}
  }

  lemma ForkHasPasts(d: Dag, g: BlockHash, a: BlockHash, b: BlockHash, c: BlockHash)
    requires IsFork(d, g, a, b, c)
    ensures ForkPasts(d, g, a, b, c)
  {
    PastOfRoot(d, g);
    PastOfSingle(d, a, g);
    PastOfSingle(d, b, g);
    PastOfSingle(d, c, a);
  }

  lemma ForkUnrelated(d: Dag, g: BlockHash, a: BlockHash, b: BlockHash, c: BlockHash, y: BlockHash)
    requires ForkPasts(d, g, a, b, c) && y in d
    ensures !Unrelated(d, g, y) && (Unrelated(d, a, y) <==> y == b) && (Unrelated(d, b, y) <==> y in {a, c})
  {
  }

  ghost predicate ForkAnticones(d: Dag, g: BlockHash, a: BlockHash, b: BlockHash, c: BlockHash) {
    && g != a && g != b && g != c && a != b && a != c && b != c
    && Anticone(d, g) == {} && Anticone(d, a) == {b} && Anticone(d, b) == {a, c}
  }

  lemma ForkAnticoneOf(d: Dag, g: BlockHash, a: BlockHash, b: BlockHash, c: BlockHash, x: BlockHash, s: set<BlockHash>)
    requires WellFormed(d) && ForkPasts(d, g, a, b, c)
    requires (x == g && s == {}) || (x == a && s == {b}) || (x == b && s == {a, c})
    ensures Anticone(d, x) == s
  {
    forall y | y in d
      ensures y in s <==> Unrelated(d, x, y)
    {
      ForkUnrelated(d, g, a, b, c, y);
    }
    AnticoneFromPasts(d, x, s);
  }

  lemma ForkHasAnticones(d: Dag, g: BlockHash, a: BlockHash, b: BlockHash, c: BlockHash)
    requires WellFormed(d) && ForkPasts(d, g, a, b, c)
    ensures ForkAnticones(d, g, a, b, c)
  {
    ForkAnticoneOf(d, g, a, b, c, g, {});
    ForkAnticoneOf(d, g, a, b, c, a, {b});
    ForkAnticoneOf(d, g, a, b, c, b, {a, c});
  }

  lemma OverlapIs(a: set<BlockHash>, b: set<BlockHash>, both: set<BlockHash>)
    requires forall x :: x in both <==> x in a && x in b
    ensures Overlap(a, b) == |both|
  {
    assert (set x | x in a && x in b) == both;
  }

  lemma ForkCluster(d: Dag, g: BlockHash, a: BlockHash, b: BlockHash, c: BlockHash)
    requires ForkAnticones(d, g, a, b, c)
    ensures IsKCluster(d, 1, {g, a, b})
  {
    OverlapIs(Anticone(d, g), {g, a, b}, {});
    OverlapIs(Anticone(d, a), {g, a, b}, {b});
    OverlapIs(Anticone(d, b), {g, a, b}, {a});
  }

  lemma ForkNoCluster(d: Dag, g: BlockHash, a: BlockHash, b: BlockHash, c: BlockHash)
    requires ForkAnticones(d, g, a, b, c)
    ensures !IsKCluster(d, 1, {g, a, b, c})
  {
    OverlapIs(Anticone(d, b), {g, a, b, c}, {a, c});
    assert b in {g, a, b, c};
  }

  lemma SameIndex(order: seq<BlockHash>, h: BlockHash, i: nat, j: nat)
    requires Enumerates(order, {h}) && i < |order| && j < |order|
    ensures order[i] == h && i == j
  {
    assert order[i] in order && order[j] in order;
  }

  lemma OnlyOrder(order: seq<BlockHash>, h: BlockHash)
    requires Enumerates(order, {h})
    ensures order == [h]
  {
    assert h in order;
    SameIndex(order, h, 0, |order| - 1);
  }

  lemma ExtendedSingle(accepts: set<BlockHash> -> bool, base: set<BlockHash>, h: BlockHash, blue: set<BlockHash>)
    requires Extended(accepts, {h}, base, blue) && accepts(base + {h})
    ensures blue == base + {h}
  {
    var order :| Enumerates(order, {h}) && blue == Greedy(accepts, base, order, |order|);
    OnlyOrder(order, h);
    assert Greedy(accepts, base, order, 0) == base;
  }

  /** When the anticone is one block that fits, the greedy loop adds exactly that block. */
  lemma SingleOffer(d: Dag, k: nat, x: BlockHash, bound: nat, base: set<BlockHash>, h: BlockHash, blue: set<BlockHash>)
    requires WellFormed(d) && |d| <= bound && 0 < bound && Anticone(d, x) == {h} && IsKCluster(d, k, base + {h})
    requires Extended(BoundedCheck(d, k, bound), BoundedAnticone(d, x, bound), base, blue)
    ensures blue == base + {h}
  {
    BoundedAnticoneSound(d, x, bound);
    BoundedCheckSound(d, k, base + {h}, bound);
    ExtendedSingle(BoundedCheck(d, k, bound), base, h, blue);
  }

  lemma ForkBlueFromBase(d: Dag, g: BlockHash, a: BlockHash, b: BlockHash, c: BlockHash, bound: nat, blue: set<BlockHash>)
    requires WellFormed(d) && |d| == 4 && ForkAnticones(d, g, a, b, c) && bound >= 4
    requires Extended(BoundedCheck(d, 1, bound), BoundedAnticone(d, a, bound), {g, a}, blue)
    ensures blue == {g, a, b}
  {
    ForkCluster(d, g, a, b, c);
    assert {g, a} + {b} == {g, a, b};
    SingleOffer(d, 1, a, bound, {g, a}, b, blue);
  }

  ghost predicate Lists(g: Graph, h: BlockHash, parents: seq<BlockHash>) {
    h in g && g[h] == parents
  }

  lemma BlueOfRoot(env: Env, g: BlockHash, visited: set<BlockHash>, depth: nat, blue: set<BlockHash>)
    requires Lists(env.parents, g, []) && g !in visited && depth > 0 && BlueSetOf(env, g, visited, depth, blue)
    ensures blue == {g}
  {
  }

  lemma BlueOfChild(env: Env, g: BlockHash, a: BlockHash, visited: set<BlockHash>, depth: nat, blue: set<BlockHash>)
    requires Lists(env.parents, g, []) && Lists(env.parents, a, [g])
    requires g != a && g !in visited && a !in visited && depth > 1 && BlueSetOf(env, a, visited, depth, blue)
    ensures Extended(env.accepts(depth / 2), env.candidates(a, depth / 2), {g, a}, blue)
  {
    var parent, base := BlueSetUnwind(env, a, visited, depth, blue);
    BlueOfRoot(env, g, visited + {a}, depth - 1, base);
    assert base + {a} == {g, a};
  }

  /** Along g, a, c the recursion extends {g, a} first, and what that gives together with c afterwards. */
  lemma BlueOfGrandchild(env: Env, g: BlockHash, a: BlockHash, c: BlockHash, depth: nat, blue: set<BlockHash>) returns (base: set<BlockHash>)
    requires Lists(env.parents, g, []) && Lists(env.parents, a, [g]) && Lists(env.parents, c, [a])
    requires g != a && g != c && a != c && depth > 2 && BlueSetOf(env, c, {}, depth, blue)
    ensures Extended(env.accepts((depth - 1) / 2), env.candidates(a, (depth - 1) / 2), {g, a}, base)
    ensures Extended(env.accepts(depth / 2), env.candidates(c, depth / 2), base + {c}, blue)
  {
    var parent;
    parent, base := BlueSetUnwind(env, c, {}, depth, blue);
    BlueOfChild(env, g, a, {} + {c}, depth - 1, base);
  }

  lemma ForkUnwind(d: Dag, g: BlockHash, a: BlockHash, c: BlockHash, depth: nat, blue: set<BlockHash>) returns (base: set<BlockHash>)
    requires HasParents(d, g, []) && HasParents(d, a, [g]) && HasParents(d, c, [a])
    requires g != a && g != c && a != c && depth > 2 && BlueSetOf(EnvOf(d, 1), c, {}, depth, blue)
    ensures Extended(BoundedCheck(d, 1, (depth - 1) / 2), BoundedAnticone(d, a, (depth - 1) / 2), {g, a}, base)
    ensures Extended(BoundedCheck(d, 1, depth / 2), BoundedAnticone(d, c, depth / 2), base + {c}, blue)
  {
    assert Lists(Parents(d), g, []) && Lists(Parents(d), a, [g]) && Lists(Parents(d), c, [a]);
    base := BlueOfGrandchild(EnvOf(d, 1), g, a, c, depth, blue);
  }

  lemma ForkClose(d: Dag, g: BlockHash, a: BlockHash, b: BlockHash, c: BlockHash, low: nat, high: nat, base: set<BlockHash>, blue: set<BlockHash>)
    requires WellFormed(d) && |d| == 4 && ForkAnticones(d, g, a, b, c) && low >= 4
    requires Extended(BoundedCheck(d, 1, low), BoundedAnticone(d, a, low), {g, a}, base)
    requires Extended(BoundedCheck(d, 1, high), BoundedAnticone(d, c, high), base + {c}, blue)
    ensures !IsKCluster(d, 1, blue)
  {
    ForkBlueFromBase(d, g, a, b, c, low, base);
    assert base + {c} == {g, a, b, c};
    ForkEnd(d, g, a, b, c, high, blue);
  }

  lemma ForkBlueOfC(d: Dag, g: BlockHash, a: BlockHash, b: BlockHash, c: BlockHash, depth: nat, blue: set<BlockHash>)
    requires IsFork(d, g, a, b, c) && depth >= 9 && BlueSetOf(EnvOf(d, 1), c, {}, depth, blue)
    ensures !IsKCluster(d, 1, blue)
  {
    ForkHasPasts(d, g, a, b, c);
    ForkHasAnticones(d, g, a, b, c);
    var base := ForkUnwind(d, g, a, c, depth, blue);
    ForkClose(d, g, a, b, c, (depth - 1) / 2, depth / 2, base, blue);
  }

  lemma ForkEnd(d: Dag, g: BlockHash, a: BlockHash, b: BlockHash, c: BlockHash, bound: nat, blue: set<BlockHash>)
    requires WellFormed(d) && ForkAnticones(d, g, a, b, c)
    requires Extended(BoundedCheck(d, 1, bound), BoundedAnticone(d, c, bound), {g, a, b, c}, blue)
    ensures !IsKCluster(d, 1, blue)
  {
    GreedyCluster(d, 1, c, bound, {g, a, b, c}, blue);
    ForkNoCluster(d, g, a, b, c);
  }

  /** The blue set is not always a k-cluster: on the fork, with k = 1 and any depth of at least 9, no
      blue set of c is one, because b has both a and c outside its past and future. */
  lemma BlueSetNotAlwaysCluster(g: BlockHash, a: BlockHash, b: BlockHash, c: BlockHash, depth: nat, blue: set<BlockHash>)
    requires g != a && g != b && g != c && a != b && a != c && b != c
    requires depth >= 9 && BlueSetOf(EnvOf(Fork(g, a, b, c), 1), c, {}, depth, blue)
    ensures !IsKCluster(Fork(g, a, b, c), 1, blue)
  {
    ForkShape(g, a, b, c);
    ForkBlueOfC(Fork(g, a, b, c), g, a, b, c, depth, blue);
  }

  ghost predicate LinePasts(d: Dag, g: BlockHash, a: BlockHash, b: BlockHash) {
    && g != a && g != b && a != b && d.Keys == {g, a, b}
    && Past(d, g) == {} && Past(d, a) == {g} && Past(d, b) == {g, a}
  }

  lemma LineHasPasts(d: Dag, g: BlockHash, a: BlockHash, b: BlockHash)
    requires IsLine(d, g, a, b) && g != a && g != b && a != b
    ensures LinePasts(d, g, a, b)
  {
    PastOfRoot(d, g);
    PastOfSingle(d, a, g);
    PastOfSingle(d, b, a);
  }

  lemma LineAnticone(d: Dag, g: BlockHash, a: BlockHash, b: BlockHash)
    requires WellFormed(d) && LinePasts(d, g, a, b)
    ensures Anticone(d, g) == {}
  {
    AnticoneFromPasts(d, g, {});
  }

  lemma LineAnticones(d: Dag, g: BlockHash, a: BlockHash, b: BlockHash)
    requires IsLine(d, g, a, b) && g != a && g != b && a != b
    ensures b in WideAnticone(d, g) && Anticone(d, g) == {}
  {
    LineHasPasts(d, g, a, b);
    LineAnticone(d, g, a, b);
  }

  /** The unbounded anticone is not exact: on the line it puts the grandchild b into the anticone of g. */
  lemma WideAnticoneNotExact(g: BlockHash, a: BlockHash, b: BlockHash)
    requires g != a && g != b && a != b
    ensures WellFormed(Line(g, a, b)) && b in WideAnticone(Line(g, a, b), g) && Anticone(Line(g, a, b), g) == {}
  {
    LineShape(g, a, b);
    LineAnticones(Line(g, a, b), g, a, b);
  }

  // ----- the fork as a run

  lemma HasChild(d: Dag, p: BlockHash, c: BlockHash)
    requires WellFormed(d) && p in d && c in d && p in d[c].block.parentHashes
    ensures p !in Childless(d)
  {
    assert ChildCountExact(d, p, c);
  }

  lemma HasNoChild(d: Dag, h: BlockHash)
    requires WellFormed(d) && h in d && forall c :: c in d ==> h !in d[c].block.parentHashes
    ensures h in Childless(d)
  {
    if d[h].children != [] {
      ListedIsChild(d, h, d[h].children[0]);
    }
  }

  lemma ListedIsChild(d: Dag, p: BlockHash, c: BlockHash)
    requires WellFormed(d) && p in d && c in d[p].children
    ensures c in d && p in d[c].block.parentHashes
  {
    assert ChildCountExact(d, p, c);
  }

  ghost predicate TripleAnticones(d: Dag, g: BlockHash, a: BlockHash, b: BlockHash) {
    Anticone(d, g) == {} && Anticone(d, a) == {b} && Anticone(d, b) == {a}
  }

  ghost predicate TriplePasts(d: Dag, g: BlockHash, a: BlockHash, b: BlockHash) {
    && g != a && g != b && a != b && d.Keys == {g, a, b}
    && Past(d, g) == {} && Past(d, a) == {g} && Past(d, b) == {g}
  }

  lemma TripleHasPasts(d: Dag, g: BlockHash, a: BlockHash, b: BlockHash)
    requires IsTriple(d, g, a, b)
    ensures TriplePasts(d, g, a, b)
  {
    PastOfRoot(d, g);
    PastOfSingle(d, a, g);
    PastOfSingle(d, b, g);
  }

  lemma TripleAnticoneOf(d: Dag, g: BlockHash, a: BlockHash, b: BlockHash, x: BlockHash, s: set<BlockHash>)
    requires WellFormed(d) && TriplePasts(d, g, a, b)
    requires (x == g && s == {}) || (x == a && s == {b}) || (x == b && s == {a})
    ensures Anticone(d, x) == s
  {
    AnticoneFromPasts(d, x, s);
  }

  lemma TripleHasAnticones(d: Dag, g: BlockHash, a: BlockHash, b: BlockHash)
    requires IsTriple(d, g, a, b)
    ensures TripleAnticones(d, g, a, b)
  {
    TripleHasPasts(d, g, a, b);
    TripleAnticoneOf(d, g, a, b, g, {});
    TripleAnticoneOf(d, g, a, b, a, {b});
    TripleAnticoneOf(d, g, a, b, b, {a});
  }

  lemma OverlapAtMost(s: set<BlockHash>, t: set<BlockHash>, k: nat)
    requires |s| <= k
    ensures Overlap(s, t) <= k
  {
    SubsetSize((set x | x in s && x in t), s);
  }

  lemma TripleCluster(d: Dag, g: BlockHash, a: BlockHash, b: BlockHash)
    requires TripleAnticones(d, g, a, b)
    ensures IsKCluster(d, 1, {g, a, b})
  {
    forall h | h in {g, a, b}
      ensures Overlap(Anticone(d, h), {g, a, b}) <= 1
    {
      OverlapAtMost(Anticone(d, h), {g, a, b}, 1);
    }
  }

  lemma BlueOfChildInDag(d: Dag, g: BlockHash, a: BlockHash, depth: nat, blue: set<BlockHash>)
    requires HasParents(d, g, []) && HasParents(d, a, [g]) && g != a
    requires depth > 1 && BlueSetOf(EnvOf(d, 1), a, {}, depth, blue)
    ensures Extended(BoundedCheck(d, 1, depth / 2), BoundedAnticone(d, a, depth / 2), {g, a}, blue)
  {
    assert Lists(Parents(d), g, []) && Lists(Parents(d), a, [g]);
    BlueOfChild(EnvOf(d, 1), g, a, {}, depth, blue);
  }

  /** With k = 1, genesis and its two children are the blue set of either child. */
  lemma TripleBlue(d: Dag, g: BlockHash, a: BlockHash, b: BlockHash, depth: nat, blue: set<BlockHash>)
    requires IsTriple(d, g, a, b) && depth >= 6 && BlueSetOf(EnvOf(d, 1), a, {}, depth, blue)
    ensures blue == {g, a, b}
  {
    BlueOfChildInDag(d, g, a, depth, blue);
    TripleHasAnticones(d, g, a, b);
    TripleBlueFromBase(d, g, a, b, depth / 2, blue);
  }

  lemma TripleBlueFromBase(d: Dag, g: BlockHash, a: BlockHash, b: BlockHash, bound: nat, blue: set<BlockHash>)
    requires WellFormed(d) && |d| == 3 && bound >= 3 && g != a && g != b && a != b
    requires TripleAnticones(d, g, a, b)
    requires Extended(BoundedCheck(d, 1, bound), BoundedAnticone(d, a, bound), {g, a}, blue)
    ensures blue == {g, a, b}
  {
    TripleCluster(d, g, a, b);
    assert {g, a} + {b} == {g, a, b};
    SingleOffer(d, 1, a, bound, {g, a}, b, blue);
  }

  lemma BlueOfSomeTip(c: Config, s: State, s': State) returns (best: BlockHash)
    requires Enumerates(s'.tips, Childless(s'.dag)) && Recoloured(c, s, s')
    ensures best in Childless(s'.dag) && BlueSetOf(EnvOf(s'.dag, c.k), best, {}, DEPTH_LIMIT, s'.blue)
  {
    best :| FirstBest(s'.dag, s.blue, s'.tips, best) && BlueSetOf(EnvOf(s'.dag, c.k), best, {}, DEPTH_LIMIT, s'.blue);
    BestTipIsTip(s'.dag, s.blue, s'.tips, best);
  }

  /** The state after genesis and its two children. */
  lemma TripleRecoloured(c: Config, s: State, s': State, g: BlockHash, a: BlockHash, b: BlockHash)
    requires c.k == 1 && IsTriple(s'.dag, g, a, b) && Enumerates(s'.tips, Childless(s'.dag)) && Recoloured(c, s, s')
    ensures s'.blue == {g, a, b}
  {
    var best := BlueOfSomeTip(c, s, s');
    TripleTips(s'.dag, g, a, b, best);
    TripleBlueOfTip(s'.dag, g, a, b, best, s'.blue);
  }

  lemma TripleTips(d: Dag, g: BlockHash, a: BlockHash, b: BlockHash, tip: BlockHash)
    requires IsTriple(d, g, a, b) && tip in Childless(d)
    ensures tip in {a, b}
  {
    HasChild(d, g, a);
  }

  lemma TripleBlueOfTip(d: Dag, g: BlockHash, a: BlockHash, b: BlockHash, tip: BlockHash, blue: set<BlockHash>)
    requires IsTriple(d, g, a, b) && tip in {a, b} && BlueSetOf(EnvOf(d, 1), tip, {}, DEPTH_LIMIT, blue)
    ensures blue == {g, a, b}
  {
    if tip == a {
      TripleBlue(d, g, a, b, DEPTH_LIMIT, blue);
    } else {
      TripleSwapped(d, g, a, b);
      TripleBlue(d, g, b, a, DEPTH_LIMIT, blue);
      assert {g, b, a} == {g, a, b};
    }
  }

  lemma TripleSwapped(d: Dag, g: BlockHash, a: BlockHash, b: BlockHash)
    requires IsTriple(d, g, a, b)
    ensures IsTriple(d, g, b, a)
  {
  }

  /** With all blocks before c blue, c is the best tip of the fork. */
  lemma ForkBestTip(d: Dag, g: BlockHash, a: BlockHash, b: BlockHash, c: BlockHash, tips: seq<BlockHash>, best: BlockHash)
    requires IsFork(d, g, a, b, c) && Enumerates(tips, Childless(d)) && FirstBest(d, {g, a, b}, tips, best)
    ensures best == c
  {
    ForkHasPasts(d, g, a, b, c);
    OverlapIs(Past(d, b), {g, a, b}, {g});
    OverlapIs(Past(d, c), {g, a, b}, {g, a});
    BestTipIsTip(d, {g, a, b}, tips, best);
    HasChild(d, g, a);
    HasChild(d, a, c);
    HasNoChild(d, c);
    assert c in tips;
  }

  lemma ForkRecoloured(c: Config, s: State, s': State, g: BlockHash, a: BlockHash, b: BlockHash, h: BlockHash)
    requires c.k == 1 && IsFork(s'.dag, g, a, b, h) && Enumerates(s'.tips, Childless(s'.dag)) && Recoloured(c, s, s')
    requires s.blue == {g, a, b}
    ensures !IsKCluster(s'.dag, 1, s'.blue)
  {
    var best :| FirstBest(s'.dag, s.blue, s'.tips, best) && BlueSetOf(EnvOf(s'.dag, 1), best, {}, DEPTH_LIMIT, s'.blue);
    ForkBestTip(s'.dag, g, a, b, h, s'.tips, best);
    ForkBlueOfC(s'.dag, g, a, b, h, DEPTH_LIMIT, s'.blue);
  }

  lemma StepInserts(c: Config, s: State, h: BlockHash, p: BlockHash, s': State)
    requires c.zeroBytes(1) == 0 && WellFormed(s.dag) && h !in s.dag && p in s.dag && Step(c, s, Plain(h, [p]), s')
    ensures s'.dag == Insert(s.dag, Plain(h, [p])) && Enumerates(s'.tips, Childless(s'.dag)) && Recoloured(c, s, s')
  {
    AcceptedIff(c, s.dag, Plain(h, [p]));
  }

  lemma StepToPair(c: Config, g: BlockHash, a: BlockHash, s: State, s': State)
    requires c.zeroBytes(1) == 0 && g != a && s == Initial(Plain(g, [])) && Step(c, s, Plain(a, [g]), s')
    ensures IsPair(s'.dag, g, a)
  {
    SingletonWellFormed(Plain(g, []));
    StepInserts(c, s, a, g, s');
    MakePair(g, a);
  }

  lemma StepToTriple(c: Config, g: BlockHash, a: BlockHash, b: BlockHash, s: State, s': State)
    requires c.k == 1 && c.zeroBytes(1) == 0 && IsPair(s.dag, g, a) && b != g && b != a && Step(c, s, Plain(b, [g]), s')
    ensures IsTriple(s'.dag, g, a, b) && s'.blue == {g, a, b}
  {
    StepInserts(c, s, b, g, s');
    PairToTriple(s.dag, g, a, b);
    TripleRecoloured(c, s, s', g, a, b);
  }

  lemma StepToFork(c: Config, g: BlockHash, a: BlockHash, b: BlockHash, h: BlockHash, s: State, s': State)
    requires c.k == 1 && c.zeroBytes(1) == 0 && IsTriple(s.dag, g, a, b) && s.blue == {g, a, b}
    requires h != g && h != a && h != b && Step(c, s, Plain(h, [a]), s')
    ensures IsFork(s'.dag, g, a, b, h) && !IsKCluster(s'.dag, 1, s'.blue)
  {
    StepInserts(c, s, h, a, s');
    TripleToFork(s.dag, g, a, b, h);
    ForkRecoloured(c, s, s', g, a, b, h);
  }

  lemma StepOfRun(c: Config, genesis: Block, blocks: seq<Block>, states: seq<State>, i: nat)
    requires Run(c, genesis, blocks, states) && i < |blocks|
    ensures i + 1 < |states| && Step(c, states[i], blocks[i], states[i + 1])
  {
  }

  /** With k = 1, every run that adds a and b on genesis and then h on a stores a blue set that is no k-cluster. */
  lemma RunStoresNoCluster(c: Config, g: BlockHash, a: BlockHash, b: BlockHash, h: BlockHash, states: seq<State>)
    requires g != a && g != b && g != h && a != b && a != h && b != h
    requires c.k == 1 && c.zeroBytes(1) == 0
    requires Run(c, Plain(g, []), [Plain(a, [g]), Plain(b, [g]), Plain(h, [a])], states)
    ensures IsFork(states[3].dag, g, a, b, h) && !IsKCluster(states[3].dag, 1, states[3].blue)
  {
    var genesis, blocks := Plain(g, []), [Plain(a, [g]), Plain(b, [g]), Plain(h, [a])];
    StepOfRun(c, genesis, blocks, states, 0);
    StepOfRun(c, genesis, blocks, states, 1);
    StepOfRun(c, genesis, blocks, states, 2);
    StepToPair(c, g, a, states[0], states[1]);
    StepToTriple(c, g, a, b, states[1], states[2]);
    StepToFork(c, g, a, b, h, states[2], states[3]);
  }

  /** Four distinct hashes. */
  method DistinctHashes() returns (g: BlockHash, a: BlockHash, b: BlockHash, c: BlockHash)
    ensures g != a && g != b && g != c && a != b && a != c && b != c
  {
    g, a := BlockHash(seq(32, _ => 0)), BlockHash(seq(32, _ => 1));
    b, c := BlockHash(seq(32, _ => 2)), BlockHash(seq(32, _ => 3));
    assert g.bytes[0] == 0 && a.bytes[0] == 1 && b.bytes[0] == 2 && c.bytes[0] == 3;
  }

  /** And there is such a run: adding those blocks to the object leads there. */
  method AddFork(c: Config) returns (o: GhostDAG)
    requires c.k == 1 && c.zeroBytes(1) == 0
    ensures o.Valid() && o.config == c && !IsKCluster(o.dag, 1, o.blueBlocks)
  {
    var g, a, b, h := DistinctHashes();
    o := AddFirst(c, g, a);
    AddSecond(o, g, a, b);
    AddThird(o, g, a, b, h);
  }

  method AddFirst(c: Config, g: BlockHash, a: BlockHash) returns (o: GhostDAG)
    requires c.zeroBytes(1) == 0 && g != a
    ensures fresh(o) && o.Valid() && o.config == c && IsPair(o.dag, g, a)
  {
    o := new GhostDAG(c, Plain(g, []));
    ghost var start := o.Snapshot();
    var r := o.AddBlock(Plain(a, [g]));
    StepToPair(c, g, a, start, o.Snapshot());
  }

  method AddSecond(o: GhostDAG, g: BlockHash, a: BlockHash, b: BlockHash)
    requires o.Valid() && o.config.k == 1 && o.config.zeroBytes(1) == 0 && IsPair(o.dag, g, a) && b != g && b != a
    modifies o
    ensures o.Valid() && IsTriple(o.dag, g, a, b) && o.blueBlocks == {g, a, b}
  {
    ghost var pair := o.Snapshot();
    var r := o.AddBlock(Plain(b, [g]));
    StepToTriple(o.config, g, a, b, pair, o.Snapshot());
  }

  method AddThird(o: GhostDAG, g: BlockHash, a: BlockHash, b: BlockHash, h: BlockHash)
    requires o.Valid() && o.config.k == 1 && o.config.zeroBytes(1) == 0
    requires IsTriple(o.dag, g, a, b) && o.blueBlocks == {g, a, b} && h != g && h != a && h != b
    modifies o
    ensures o.Valid() && IsFork(o.dag, g, a, b, h) && !IsKCluster(o.dag, 1, o.blueBlocks)
  {
    ghost var triple := o.Snapshot();
    var r := o.AddBlock(Plain(h, [a]));
    StepToFork(o.config, g, a, b, h, triple, o.Snapshot());
  }

  // ----- the larger branch is chosen, whichever parent is listed first

  /** A branch of two blocks and a branch of one on g, joined by x, which lists the shorter branch first. */
  ghost predicate IsJoin(g: Graph, r: BlockHash, a: BlockHash, a2: BlockHash, b: BlockHash, x: BlockHash) {
    Lists(g, r, []) && Lists(g, a, [r]) && Lists(g, a2, [a]) && Lists(g, b, [r]) && Lists(g, x, [b, a2])
  }

  lemma ChainOfOne(env: Env, h: BlockHash, p: BlockHash, visited: set<BlockHash>, depth: nat, blue: set<BlockHash>)
      returns (base: set<BlockHash>)
    requires AddsNothing(env) && Acyclic(env.parents) && Lists(env.parents, h, [p])
    requires h !in visited && depth > 0 && BlueSetOf(env, h, visited, depth, blue)
    ensures BlueSetOf(env, p, visited + {h}, depth - 1, base) && blue == base + {h} && |blue| == |base| + 1
  {
    var parent;
    parent, base := BlueIsOneMore(env, h, visited, depth, blue);
  }

  lemma ShortBranch(env: Env, r: BlockHash, b: BlockHash, visited: set<BlockHash>, depth: nat, blue: set<BlockHash>)
    requires AddsNothing(env) && Acyclic(env.parents) && Lists(env.parents, r, []) && Lists(env.parents, b, [r])
    requires r != b && r !in visited && b !in visited && depth > 1 && BlueSetOf(env, b, visited, depth, blue)
    ensures blue == {r, b} && |blue| == 2
  {
    var base := ChainOfOne(env, b, r, visited, depth, blue);
    BlueSetEmptyIff(env, r, visited + {b}, depth - 1, base);
  }

  lemma LongBranch(env: Env, r: BlockHash, a: BlockHash, a2: BlockHash, visited: set<BlockHash>, depth: nat,
                   blue: set<BlockHash>)
    requires AddsNothing(env) && Acyclic(env.parents)
    requires Lists(env.parents, r, []) && Lists(env.parents, a, [r]) && Lists(env.parents, a2, [a])
    requires r != a && r != a2 && a != a2 && {r, a, a2} !! visited && depth > 2
    requires BlueSetOf(env, a2, visited, depth, blue)
    ensures blue == {r, a, a2}
  {
    var base := ChainOfOne(env, a2, a, visited, depth, blue);
    ShortBranch(env, r, a, visited + {a2}, depth - 1, base);
  }

  lemma JoinIsLong(g: Graph, r: BlockHash, a: BlockHash, a2: BlockHash, b: BlockHash, x: BlockHash)
    requires IsJoin(g, r, a, a2, b, x)
    ensures WalksOn(g, x, 3)
  {
    WalkStart(g, a, r);
    WalkLonger(g, a2, a, 1);
    WalkLonger(g, x, a2, 2);
  }

  /** With k = 0 every blue set of the join is the longer branch and the join itself. */
  lemma JoinTakesLongBranch(d: Dag, r: BlockHash, a: BlockHash, a2: BlockHash, b: BlockHash, x: BlockHash, depth: nat,
                            blue: set<BlockHash>)
    requires WellFormed(d) && IsJoin(Parents(d), r, a, a2, b, x)
    requires r != a && r != a2 && a != a2 && r != b && {r, a, a2, b} !! {x}
    requires depth > 3 && BlueSetOf(EnvOf(d, 0), x, {}, depth, blue)
    ensures blue == {r, a, a2, x}
  {
    DagIsAcyclic(d);
    ZeroAddsNothing(d);
    JoinIsLong(Parents(d), r, a, a2, b, x);
    ZeroBlueSetIsLongest(d, x, depth, blue, 3);
    JoinUnwind(EnvOf(d, 0), r, a, a2, b, x, depth, blue);
  }

  lemma JoinUnwind(env: Env, r: BlockHash, a: BlockHash, a2: BlockHash, b: BlockHash, x: BlockHash, depth: nat,
                   blue: set<BlockHash>)
    requires AddsNothing(env) && Acyclic(env.parents) && IsJoin(env.parents, r, a, a2, b, x)
    requires r != a && r != a2 && a != a2 && r != b && {r, a, a2, b} !! {x}
    requires depth > 3 && BlueSetOf(env, x, {}, depth, blue) && |blue| > 3
    ensures blue == {r, a, a2, x}
  {
    var parent, base := BlueIsOneMore(env, x, {}, depth, blue);
    if parent == b {
      ShortBranch(env, r, b, {} + {x}, depth - 1, base);
    } else {
      LongBranch(env, r, a, a2, {} + {x}, depth - 1, base);
    }
  }

  /** The same blocks with the same parents, and one more. */
  ghost predicate Continues(d: Dag, h: BlockHash, parents: seq<BlockHash>, d': Dag) {
    WellFormed(d') && d'.Keys == d.Keys + {h} && Parents(d') == Parents(d)[h := parents]
  }

  lemma Continue(d: Dag, h: BlockHash, parents: seq<BlockHash>) returns (d': Dag)
    requires WellFormed(d) && h !in d && forall p :: p in parents ==> p in d
    ensures Continues(d, h, parents, d')
  {
    d' := Insert(d, Plain(h, parents));
    InsertKeepsWellFormed(d, Plain(h, parents));
    InsertDoes(d, Plain(h, parents));
    InsertedParents(d, Plain(h, parents), d');
  }

  lemma Start(g: BlockHash) returns (d: Dag)
    ensures WellFormed(d) && d.Keys == {g} && Lists(Parents(d), g, [])
  {
    d := Genesis(g);
    SingletonWellFormed(Plain(g, []));
  }

  lemma KeepsList(d: Dag, h: BlockHash, parents: seq<BlockHash>, d': Dag, x: BlockHash, list: seq<BlockHash>)
    requires Continues(d, h, parents, d') && h !in d
    ensures Lists(Parents(d'), h, parents)
    ensures Lists(Parents(d), x, list) ==> Lists(Parents(d'), x, list)
  {
  }

  ghost predicate IsBranch(g: Graph, r: BlockHash, a: BlockHash, a2: BlockHash) {
    Lists(g, r, []) && Lists(g, a, [r]) && Lists(g, a2, [a])
  }

  lemma BranchExists(g: BlockHash, a: BlockHash, a2: BlockHash) returns (d: Dag)
    requires g != a && g != a2 && a != a2
    ensures WellFormed(d) && d.Keys == {g, a, a2} && IsBranch(Parents(d), g, a, a2)
  {
    var d0 := Start(g);
    var d1 := Continue(d0, a, [g]);
    KeepsList(d0, a, [g], d1, g, []);
    d := Continue(d1, a2, [a]);
    KeepsList(d1, a2, [a], d, g, []);
    KeepsList(d1, a2, [a], d, a, [g]);
  }

  lemma BranchStays(d: Dag, h: BlockHash, parents: seq<BlockHash>, d': Dag, g: BlockHash, a: BlockHash, a2: BlockHash)
    requires Continues(d, h, parents, d') && h !in d && IsBranch(Parents(d), g, a, a2)
    ensures IsBranch(Parents(d'), g, a, a2) && Lists(Parents(d'), h, parents)
  {
    KeepsList(d, h, parents, d', g, []);
    KeepsList(d, h, parents, d', a, [g]);
    KeepsList(d, h, parents, d', a2, [a]);
  }

  /** Such a DAG exists: five insertions build it. */
  lemma JoinExists(g: BlockHash, a: BlockHash, a2: BlockHash, b: BlockHash, x: BlockHash) returns (d: Dag)
    requires g != a && g != a2 && a != a2 && b !in {g, a, a2} && x !in {g, a, a2, b}
    ensures WellFormed(d) && IsJoin(Parents(d), g, a, a2, b, x)
  {
    var d2 := BranchExists(g, a, a2);
    var d3 := Continue(d2, b, [g]);
    BranchStays(d2, b, [g], d3, g, a, a2);
    d := Continue(d3, x, [b, a2]);
    BranchStays(d3, x, [b, a2], d, g, a, a2);
    KeepsList(d3, x, [b, a2], d, b, [g]);
  }
}
