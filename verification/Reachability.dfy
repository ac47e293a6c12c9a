/** Finite directed graphs over block hashes: walks, the set reached by one or more
    edges, and the depth-limited stack search that the DAG code runs over parent
    lists and over child lists. */
module Reachability {
  import opened ByteStrings

  /** Successor lists, in the order the program stores them; duplicates are allowed. */
  type Graph = map<BlockHash, seq<BlockHash>>

  ghost predicate Edge(g: Graph, a: BlockHash, b: BlockHash) {
    a in g && b in g[a]
  }

  /** There is a walk of exactly n edges from a to b. */
  ghost predicate Walk(g: Graph, a: BlockHash, b: BlockHash, n: nat)
    decreases n
  {
    if n == 0 then a == b
    else exists m :: Edge(g, a, m) && Walk(g, m, b, n - 1)
  }

  /** Some walk of n edges starts at a. */
  ghost predicate WalksOn(g: Graph, a: BlockHash, n: nat) {
    exists b :: Walk(g, a, b, n)
  }

  /** b is reached from a by one or more edges. */
  ghost predicate Reaches(g: Graph, a: BlockHash, b: BlockHash) {
    exists n: nat :: n > 0 && Walk(g, a, b, n)
  }

  /** Every listed successor is itself a node. */
  ghost predicate Closed(g: Graph) {
    forall a, b :: Edge(g, a, b) ==> b in g
  }

  ghost function ReachSet(g: Graph, a: BlockHash): set<BlockHash> {
    set b | b in g.Keys && Reaches(g, a, b)
  }

  ghost predicate Acyclic(g: Graph) {
    forall a :: !Reaches(g, a, a)
  }

  /** A rank that falls along every edge and stays below the number of nodes. */
  ghost predicate Ranks(g: Graph, rank: map<BlockHash, nat>) {
    && rank.Keys == g.Keys
    && (forall a :: a in rank ==> rank[a] < |g|)
    && (forall a, b :: Edge(g, a, b) ==> b in rank && rank[b] < rank[a])
  }

  /** h lists exactly the edges of g the other way round. */
  ghost predicate Mirror(g: Graph, h: Graph) {
    g.Keys == h.Keys && forall a, b :: Edge(g, a, b) <==> Edge(h, b, a)
  }

  // ----- walks

  lemma {:induction false} WalkConcat(g: Graph, a: BlockHash, b: BlockHash, c: BlockHash, m: nat, n: nat)
    requires Walk(g, a, b, m) && Walk(g, b, c, n)
    ensures Walk(g, a, c, m + n)
    decreases m
  {
    if m > 0 {
      var x :| Edge(g, a, x) && Walk(g, x, b, m - 1);
      WalkConcat(g, x, b, c, m - 1, n);
    }
  }

  lemma ReachesTransitive(g: Graph, a: BlockHash, b: BlockHash, c: BlockHash)
    requires Reaches(g, a, b) && Reaches(g, b, c)
    ensures Reaches(g, a, c)
  {
    var m: nat :| m > 0 && Walk(g, a, b, m);
    var n: nat :| n > 0 && Walk(g, b, c, n);
    WalkConcat(g, a, b, c, m, n);
  }

  lemma EdgeReaches(g: Graph, a: BlockHash, b: BlockHash)
    requires Edge(g, a, b)
    ensures Reaches(g, a, b)
  {
    assert Walk(g, b, b, 0);
    assert Walk(g, a, b, 1);
  }

  /** What a reaches is its successors and what they reach. */
  lemma ReachesUnfold(g: Graph, a: BlockHash, b: BlockHash)
    ensures Reaches(g, a, b) <==> exists m :: Edge(g, a, m) && (m == b || Reaches(g, m, b))
  {
    if Reaches(g, a, b) {
      var n: nat :| n > 0 && Walk(g, a, b, n);
      var m :| Edge(g, a, m) && Walk(g, m, b, n - 1);
      assert m == b || Reaches(g, m, b);
    }
    if m :| Edge(g, a, m) && (m == b || Reaches(g, m, b)) {
      EdgeReaches(g, a, m);
      if m != b {
        ReachesTransitive(g, a, m, b);
      }
    }
  }

  lemma {:induction false} WalkReversed(g: Graph, h: Graph, a: BlockHash, b: BlockHash, n: nat)
    requires Mirror(g, h) && Walk(g, a, b, n)
    ensures Walk(h, b, a, n)
    decreases n
  {
    if n > 0 {
      var m :| Edge(g, a, m) && Walk(g, m, b, n - 1);
      WalkReversed(g, h, m, b, n - 1);
      assert Walk(h, a, a, 0);
      assert Walk(h, m, a, 1);
      WalkConcat(h, b, m, a, n - 1, 1);
    }
  }

  lemma ReachesReversed(g: Graph, h: Graph, a: BlockHash, b: BlockHash)
    requires Mirror(g, h)
    ensures Reaches(g, a, b) <==> Reaches(h, b, a)
  {
    if Reaches(g, a, b) {
      var n: nat :| n > 0 && Walk(g, a, b, n);
      WalkReversed(g, h, a, b, n);
    }
    if Reaches(h, b, a) {
      var n: nat :| n > 0 && Walk(h, b, a, n);
      WalkReversed(h, g, b, a, n);
    }
  }

  lemma {:induction false} WalkStaysInside(g: Graph, s: set<BlockHash>, a: BlockHash, b: BlockHash, n: nat)
    requires forall x, y :: x in s && Edge(g, x, y) ==> y in s
    requires a in s && Walk(g, a, b, n)
    ensures b in s
    decreases n
  {
    if n > 0 {
      var m :| Edge(g, a, m) && Walk(g, m, b, n - 1);
      WalkStaysInside(g, s, m, b, n - 1);
    }
  }

  lemma ReachedIsNode(g: Graph, a: BlockHash, b: BlockHash)
    requires Closed(g) && Reaches(g, a, b)
    ensures a in g && b in g
  {
    var n: nat :| n > 0 && Walk(g, a, b, n);
    WalkStaysInside(g, g.Keys, a, b, n);
  }

  // ----- ranks rule out cycles and bound every walk

  lemma {:induction false} WalkLosesRank(g: Graph, rank: map<BlockHash, nat>, a: BlockHash, b: BlockHash, n: nat)
    requires Ranks(g, rank) && a in g && Walk(g, a, b, n)
    ensures b in g && rank[b] + n <= rank[a]
    decreases n
  {
    if n > 0 {
      var m :| Edge(g, a, m) && Walk(g, m, b, n - 1);
      WalkLosesRank(g, rank, m, b, n - 1);
    }
  }

  lemma RankedIsAcyclic(g: Graph, rank: map<BlockHash, nat>)
    requires Ranks(g, rank)
    ensures Acyclic(g)
  {
    forall a ensures !Reaches(g, a, a) {
      if Reaches(g, a, a) {
        var n: nat :| n > 0 && Walk(g, a, a, n);
        WalkLosesRank(g, rank, a, a, n);
      }
    }
  }

  // ----- the queue search

  /** What the queue loop keeps true of the blocks it has taken and of those it still holds. */
  ghost predicate Exploring(g: Graph, root: BlockHash, past: set<BlockHash>, queue: seq<BlockHash>) {
    && (forall x :: x in past || x in queue ==> Reaches(g, root, x))
    && (forall x :: Edge(g, root, x) ==> x in past || x in queue)
    && (forall x, y :: x in past && Edge(g, x, y) ==> y in past || y in queue)
  }

  lemma ExploringStart(g: Graph, root: BlockHash)
    ensures Exploring(g, root, {}, if root in g then g[root] else [])
  {
    forall x | Edge(g, root, x)
      ensures Reaches(g, root, x)
    {
      EdgeReaches(g, root, x);
    }
    assert root in g ==> forall x :: x in g[root] ==> Edge(g, root, x);
  }

  lemma ExploringStep(g: Graph, root: BlockHash, past: set<BlockHash>, queue: seq<BlockHash>)
    requires queue != [] && Exploring(g, root, past, queue)
    ensures queue[0] in past ==> Exploring(g, root, past, queue[1..])
    ensures Exploring(g, root, past + {queue[0]}, queue[1..] + if queue[0] in g then g[queue[0]] else [])
  {
    var x, rest := queue[0], queue[1..];
    assert forall y :: y in queue <==> y == x || y in rest;
    forall y | Edge(g, x, y)
      ensures Reaches(g, root, y)
    {
      EdgeReaches(g, x, y);
      ReachesTransitive(g, root, x, y);
    }
    assert x in g ==> forall y :: y in g[x] ==> Edge(g, x, y);
  }

  /** An empty queue means that exactly what the root reaches was taken. */
  lemma ExploringDone(g: Graph, root: BlockHash, past: set<BlockHash>)
    requires Exploring(g, root, past, []) && Closed(g)
    ensures past == ReachSet(g, root)
  {
    forall x | Reaches(g, root, x)
      ensures x in past
    {
      var n: nat :| n > 0 && Walk(g, root, x, n);
      var m :| Edge(g, root, m) && Walk(g, m, x, n - 1);
      WalkStaysInside(g, past, m, x, n - 1);
    }
    forall x | x in past
      ensures x in g
    {
      ReachedIsNode(g, root, x);
    }
  }

  // ----- the depth-limited search

  /** The first n entries of xs that are not in seen, in order. */
  function Unseen(xs: seq<BlockHash>, n: nat, seen: set<BlockHash>): seq<BlockHash>
    requires n <= |xs|
  {
    if n == 0 then []
    else if xs[n - 1] in seen then Unseen(xs, n - 1, seen)
    else Unseen(xs, n - 1, seen) + [xs[n - 1]]
  }

  lemma {:induction false} UnseenMembers(xs: seq<BlockHash>, n: nat, seen: set<BlockHash>)
    requires n <= |xs|
    ensures forall x :: x in Unseen(xs, n, seen) <==> x in xs[..n] && x !in seen
  {
    if n > 0 {
      UnseenMembers(xs, n - 1, seen);
      assert xs[..n] == xs[..n - 1] + [xs[n - 1]];
    }
  }

  /** What a visit to node top pushes: its successors that are not in seen. */
  function Pushed(g: Graph, top: BlockHash, seen: set<BlockHash>): seq<BlockHash> {
    if top in g then Unseen(g[top], |g[top]|, seen) else []
  }

  lemma PushedMembers(g: Graph, top: BlockHash, seen: set<BlockHash>)
    ensures forall x :: x in Pushed(g, top, seen) <==> Edge(g, top, x) && x !in seen
  {
    if top in g {
      UnseenMembers(g[top], |g[top]|, seen);
      assert g[top][..|g[top]|] == g[top];
    }
  }

  /** The state of the stack loop, run to the end: pop a node; skip it when it was visited
      or when more than bound nodes were visited; otherwise visit it and push and record
      every successor that was not visited yet. */
  ghost function Search(g: Graph, stack: seq<BlockHash>, visited: set<BlockHash>, found: set<BlockHash>, bound: nat)
      : set<BlockHash>
    decreases g.Keys - visited, |stack|
  {
    if stack == [] then found
    else
      var top, rest := stack[|stack| - 1], stack[..|stack| - 1];
      if top in visited || |visited| > bound then Search(g, rest, visited, found, bound)
      else
        var seen := visited + {top};
        var pushed := Pushed(g, top, seen);
        assert top !in g ==> g.Keys - seen == g.Keys - visited;
        assert top in g ==> top in g.Keys - visited && top !in g.Keys - seen;
        Search(g, rest + pushed, seen, found + (set x | x in pushed), bound)
  }

  /** What the search from root returns; bound zero is answered with the empty set. */
  ghost function BoundedReach(g: Graph, root: BlockHash, bound: nat): set<BlockHash> {
    if bound == 0 then {} else Search(g, [root], {}, {}, bound)
  }

  /** What the loop keeps true of its stack, visited set and found set. */
  ghost predicate Searching(g: Graph, root: BlockHash, stack: seq<BlockHash>, visited: set<BlockHash>, found: set<BlockHash>) {
    && (forall x :: x in found ==> Reaches(g, root, x))
    && (forall x :: x in stack ==> x == root || x in found)
    && visited <= found + {root}
    && (forall x :: x in found + {root} ==> x in visited || x in stack)
    && (forall x, y :: x in visited && Edge(g, x, y) ==> y in found + {root})
    && root !in found
    && (root in visited || (visited == {} && stack == [root]))
  }

  lemma SearchingStep(g: Graph, root: BlockHash, stack: seq<BlockHash>, visited: set<BlockHash>, found: set<BlockHash>)
    requires stack != [] && Searching(g, root, stack, visited, found)
    requires stack[|stack| - 1] !in visited
    ensures
      var top, rest := stack[|stack| - 1], stack[..|stack| - 1];
      var seen := visited + {top};
      var pushed := Pushed(g, top, seen);
      Searching(g, root, rest + pushed, seen, found + (set x | x in pushed))
  {
    var top, rest := stack[|stack| - 1], stack[..|stack| - 1];
    var seen := visited + {top};
    var pushed := Pushed(g, top, seen);
    PushedMembers(g, top, seen);
    forall y | y in pushed
      ensures Reaches(g, root, y)
    {
      assert Edge(g, top, y);
      EdgeReaches(g, top, y);
      if top != root {
        ReachesTransitive(g, root, top, y);
      }
    }
    forall x | x in found + (set x | x in pushed) + {root}
      ensures x in seen || x in rest + pushed
    {
      if x in stack && x != top {
        assert x in rest;
      }
    }
  }

  /** A search answer: only nodes the root reaches, never the root, and either all of
      them or at least bound of them. */
  ghost predicate Answer(g: Graph, root: BlockHash, bound: nat, r: set<BlockHash>) {
    && root !in r
    && (forall x :: x in r ==> Reaches(g, root, x))
    && ((forall x :: Reaches(g, root, x) && x != root ==> x in r) || |r| >= bound)
  }

  lemma SearchFinished(g: Graph, root: BlockHash, visited: set<BlockHash>, found: set<BlockHash>, bound: nat)
    requires Searching(g, root, [], visited, found)
    ensures Answer(g, root, bound, found)
  {
    forall x | Reaches(g, root, x) && x != root
      ensures x in found
    {
      var n: nat :| n > 0 && Walk(g, root, x, n);
      WalkStaysInside(g, found + {root}, root, x, n);
    }
  }

  lemma SearchGivesUp(g: Graph, root: BlockHash, stack: seq<BlockHash>, visited: set<BlockHash>, found: set<BlockHash>, bound: nat)
    requires Searching(g, root, stack, visited, found) && |visited| > bound
    ensures Answer(g, root, bound, found)
  {
    SubsetSize(visited, found + {root});
    assert |found + {root}| == |found| + 1;
  }

  lemma SearchingSkip(g: Graph, root: BlockHash, stack: seq<BlockHash>, visited: set<BlockHash>, found: set<BlockHash>)
    requires stack != [] && Searching(g, root, stack, visited, found) && stack[|stack| - 1] in visited
    ensures Searching(g, root, stack[..|stack| - 1], visited, found)
  {
    assert forall x :: x in stack ==> x in stack[..|stack| - 1] || x == stack[|stack| - 1];
  }

  lemma {:induction false} SearchCorrect(g: Graph, root: BlockHash, stack: seq<BlockHash>,
                                         visited: set<BlockHash>, found: set<BlockHash>, bound: nat)
    requires Searching(g, root, stack, visited, found)
    ensures Answer(g, root, bound, Search(g, stack, visited, found, bound))
    decreases g.Keys - visited, |stack|
  {
    if stack == [] {
      SearchFinished(g, root, visited, found, bound);
    } else {
      var top, rest := stack[|stack| - 1], stack[..|stack| - 1];
      if top in visited {
        SearchingSkip(g, root, stack, visited, found);
        SearchCorrect(g, root, rest, visited, found, bound);
      } else if |visited| > bound {
        SearchExhausted(g, stack, visited, found, bound);
        SearchGivesUp(g, root, stack, visited, found, bound);
      } else {
        var seen := visited + {top};
        var pushed := Pushed(g, top, seen);
        SearchingStep(g, root, stack, visited, found);
        assert top !in g ==> g.Keys - seen == g.Keys - visited;
        assert top in g ==> top in g.Keys - visited && top !in g.Keys - seen;
        SearchCorrect(g, root, rest + pushed, seen, found + (set x | x in pushed), bound);
      }
    }
  }

  /** Once more than bound nodes are visited nothing is found any more. */
  lemma {:induction false} SearchExhausted(g: Graph, stack: seq<BlockHash>, visited: set<BlockHash>, found: set<BlockHash>, bound: nat)
    requires |visited| > bound
    ensures Search(g, stack, visited, found, bound) == found
    decreases |stack|
  {
    if stack != [] {
      SearchExhausted(g, stack[..|stack| - 1], visited, found, bound);
    }
  }

  /** Every node of found is a successor of a visited one, and every visited one is the root or found. */
  ghost predicate Fed(g: Graph, root: BlockHash, visited: set<BlockHash>, found: set<BlockHash>) {
    && visited <= found + {root}
    && forall x :: x in found ==> exists y :: y in visited && Edge(g, y, x)
  }

  lemma FedMore(g: Graph, root: BlockHash, top: BlockHash, visited: set<BlockHash>, found: set<BlockHash>)
    requires Fed(g, root, visited, found) && top in found + {root}
    ensures Fed(g, root, visited + {top}, found + (set x | x in Pushed(g, top, visited + {top})))
  {
    PushedMembers(g, top, visited + {top});
    var more := found + (set x | x in Pushed(g, top, visited + {top}));
    forall x | x in more
      ensures exists y :: y in visited + {top} && Edge(g, y, x)
    {
      if x in found {
        var y :| y in visited && Edge(g, y, x);
        assert y in visited + {top};
      } else {
        assert Edge(g, top, x);
      }
    }
  }

  ghost predicate Visiting(g: Graph, root: BlockHash, stack: seq<BlockHash>, visited: set<BlockHash>, found: set<BlockHash>) {
    Fed(g, root, visited, found) && forall x :: x in stack ==> x in found + {root}
  }

  lemma VisitingSkip(g: Graph, root: BlockHash, stack: seq<BlockHash>, visited: set<BlockHash>, found: set<BlockHash>)
    requires stack != [] && Visiting(g, root, stack, visited, found)
    ensures Visiting(g, root, stack[..|stack| - 1], visited, found)
  {
    assert forall x :: x in stack[..|stack| - 1] ==> x in stack;
  }

  lemma VisitingStep(g: Graph, root: BlockHash, stack: seq<BlockHash>, visited: set<BlockHash>, found: set<BlockHash>)
    requires stack != [] && Visiting(g, root, stack, visited, found)
    ensures
      var top, rest := stack[|stack| - 1], stack[..|stack| - 1];
      var pushed := Pushed(g, top, visited + {top});
      Visiting(g, root, rest + pushed, visited + {top}, found + (set x | x in pushed))
  {
    var top, rest := stack[|stack| - 1], stack[..|stack| - 1];
    assert top in stack && forall x :: x in rest ==> x in stack;
    FedMore(g, root, top, visited, found);
  }

  /** One turn of the loop in a search that goes on, as far as visiting is concerned. */
  lemma VisitingNext(g: Graph, root: BlockHash, stack: seq<BlockHash>, visited: set<BlockHash>, found: set<BlockHash>,
                     bound: nat, r: set<BlockHash>)
      returns (stack': seq<BlockHash>, visited': set<BlockHash>, found': set<BlockHash>)
    requires stack != [] && Visiting(g, root, stack, visited, found) && |visited| <= bound
    requires r == Search(g, stack, visited, found, bound)
    ensures Visiting(g, root, stack', visited', found') && |visited'| <= bound + 1
    ensures r == Search(g, stack', visited', found', bound)
    ensures g.Keys - visited' < g.Keys - visited || (g.Keys - visited' == g.Keys - visited && |stack'| < |stack|)
  {
    var top, rest := stack[|stack| - 1], stack[..|stack| - 1];
    if top in visited {
      VisitingSkip(g, root, stack, visited, found);
      stack', visited', found' := rest, visited, found;
    } else {
      var pushed := Pushed(g, top, visited + {top});
      VisitingStep(g, root, stack, visited, found);
      stack', visited', found' := rest + pushed, visited + {top}, found + (set x | x in pushed);
      assert top !in g ==> g.Keys - visited' == g.Keys - visited;
      assert top in g ==> top in g.Keys - visited && top !in g.Keys - visited';
    }
  }

  /** The limit is on visited nodes: what the search finds, it finds from at most bound + 1 of them. */
  lemma {:induction false} SearchVisits(g: Graph, root: BlockHash, stack: seq<BlockHash>, visited: set<BlockHash>,
                                        found: set<BlockHash>, bound: nat, r: set<BlockHash>) returns (v: set<BlockHash>)
    requires Visiting(g, root, stack, visited, found) && |visited| <= bound + 1
    requires r == Search(g, stack, visited, found, bound)
    ensures |v| <= bound + 1 && Fed(g, root, v, r)
    decreases g.Keys - visited, |stack|
  {
    if stack == [] {
      v := visited;
    } else if |visited| > bound {
      SearchExhausted(g, stack, visited, found, bound);
      v := visited;
    } else {
      var stack', visited', found' := VisitingNext(g, root, stack, visited, found, bound, r);
      v := SearchVisits(g, root, stack', visited', found', bound, r);
    }
  }

  lemma {:induction false} SubsetSize<T>(a: set<T>, b: set<T>)
    requires a <= b
    ensures |a| <= |b|
    ensures |a| == |b| ==> a == b
    decreases |a|
  {
    if a != {} {
      var x :| x in a;
      SubsetSize(a - {x}, b - {x});
      assert a == a - {x} + {x} && b == b - {x} + {x};
    } else if |b| == 0 {
      assert b == {};
    }
  }

  /** For every bound the search finds only true reachable nodes, and it is complete or
      finds at least bound of them; so it is exact once the bound reaches their number. */
  lemma BoundedReachSound(g: Graph, root: BlockHash, bound: nat)
    requires Closed(g) && Acyclic(g)
    ensures BoundedReach(g, root, bound) <= ReachSet(g, root)
    ensures BoundedReach(g, root, bound) == ReachSet(g, root) || |BoundedReach(g, root, bound)| >= bound
    ensures bound >= |ReachSet(g, root)| ==> BoundedReach(g, root, bound) == ReachSet(g, root)
  {
    var r := BoundedReach(g, root, bound);
    if bound > 0 {
      SearchCorrect(g, root, [root], {}, {}, bound);
    }
    forall x | x in r
      ensures x in ReachSet(g, root)
    {
      ReachedIsNode(g, root, x);
    }
    SubsetSize(r, ReachSet(g, root));
  }

  /** With at least as many nodes allowed as the graph has, the search is exact. */
  lemma BoundedReachExact(g: Graph, root: BlockHash, bound: nat)
    requires Closed(g) && Acyclic(g) && bound >= |g|
    ensures BoundedReach(g, root, bound) == ReachSet(g, root)
  {
    SubsetSize(ReachSet(g, root), g.Keys);
    BoundedReachSound(g, root, bound);
  }

  /** Bound zero finds nothing, and any other bound only successors of at most bound + 1 nodes, which are the root
      or found themselves. */
  lemma BoundedReachVisits(g: Graph, root: BlockHash, bound: nat) returns (v: set<BlockHash>)
    ensures bound == 0 ==> BoundedReach(g, root, bound) == {}
    ensures |v| <= bound + 1 && v <= BoundedReach(g, root, bound) + {root}
    ensures forall x :: x in BoundedReach(g, root, bound) ==> exists y :: y in v && Edge(g, y, x)
  {
    v := {};
    if bound > 0 {
      v := SearchVisits(g, root, [root], {}, {}, bound, BoundedReach(g, root, bound));
    }
  }

  // ----- sizes of intersections

  /** How many members two sets share. */
  ghost function Overlap(a: set<BlockHash>, b: set<BlockHash>): nat {
    |set x | x in a && x in b|
  }

  lemma OverlapIsIntersection(a: set<BlockHash>, b: set<BlockHash>)
    ensures Overlap(a, b) == |a * b|
  {
    assert (set x | x in a && x in b) == a * b;
  }

  lemma OverlapGrows(a: set<BlockHash>, b: set<BlockHash>, a': set<BlockHash>, b': set<BlockHash>)
    requires a <= a' && b <= b'
    ensures Overlap(a, b) <= Overlap(a', b')
  {
    SubsetSize(set x | x in a && x in b, set x | x in a' && x in b');
  }

  lemma OverlapOneMore(a: set<BlockHash>, b: set<BlockHash>, x: BlockHash)
    requires x !in b
    ensures Overlap(a, b + {x}) == Overlap(a, b) + if x in a then 1 else 0
  {
    var old', new' := set y | y in a && y in b, set y | y in a && y in b + {x};
    if x in a {
      assert new' == old' + {x};
    } else {
      assert new' == old';
    }
  }

  // ----- lists

  /** The list enumerates the set without repetition, in any order. */
  ghost predicate Enumerates(list: seq<BlockHash>, s: set<BlockHash>) {
    && (forall h :: h in list <==> h in s)
    && (forall i, j :: 0 <= i < j < |list| ==> list[i] != list[j])
  }

  lemma EnumeratesMore(list: seq<BlockHash>, s: set<BlockHash>, h: BlockHash)
    requires Enumerates(list, s) && h !in s
    ensures Enumerates(list + [h], s + {h})
  {
  }

  /** Index i holds the first largest number. */
  ghost predicate FirstMaximum(ns: seq<nat>, i: nat) {
    && i < |ns|
    && (forall j :: 0 <= j < |ns| ==> ns[j] <= ns[i])
    && (forall j :: 0 <= j < i ==> ns[j] < ns[i])
  }

  lemma FirstMaximumMore(ns: seq<nat>, i: nat, n: nat)
    requires FirstMaximum(ns, i)
    ensures FirstMaximum(ns + [n], if n > ns[i] then |ns| else i)
  {
  }

  // ----- walks of a given length

  lemma WalkStart(g: Graph, a: BlockHash, b: BlockHash)
    requires Edge(g, a, b)
    ensures WalksOn(g, a, 1)
  {
    assert Walk(g, b, b, 0);
    assert Walk(g, a, b, 1);
  }

  lemma WalkLonger(g: Graph, a: BlockHash, b: BlockHash, n: nat)
    requires Edge(g, a, b) && WalksOn(g, b, n)
    ensures WalksOn(g, a, n + 1)
  {
    var c :| Walk(g, b, c, n);
    assert Walk(g, a, c, n + 1);
  }
}
