/** Blue sets for k = 0. No block beside the chain of chosen parents is ever accepted then, so the size of a blue set
    is the length of that chain, and choosing the largest blue set is choosing the longest parent path. */
module LongestChain {
  import opened ByteStrings
  import opened Reachability
  import opened BlockDag
  import opened BlueSet
  import opened Colouring

  /** The greedy loop never adds anything to a set that holds the tip. */
  ghost predicate AddsNothing(env: Env) {
    forall tip, bound: nat, base, blue :: tip in base && Extended(env.accepts(bound), env.candidates(tip, bound), base, blue)
      ==> blue == base
  }

  /** With k = 0 every offered block is in the anticone of the tip that the set holds, so it fails the check. */
  lemma ZeroRefuses(d: Dag, tip: BlockHash, bound: nat, base: set<BlockHash>, h: BlockHash)
    requires tip in base && h in BoundedAnticone(d, tip, bound)
    ensures !BoundedCheck(d, 0, bound)(base + {h})
  {
    assert bound > 0;
    var both := set x | x in BoundedAnticone(d, tip, bound) && x in base + {h};
    assert h in both;
    SubsetSize({h}, both);
    assert tip in base + {h} && Overlap(BoundedAnticone(d, tip, bound), base + {h}) == |both|;
  }

  lemma ZeroStays(d: Dag, tip: BlockHash, bound: nat, base: set<BlockHash>, blue: set<BlockHash>)
    requires tip in base && Extended(BoundedCheck(d, 0, bound), BoundedAnticone(d, tip, bound), base, blue)
    ensures blue == base
  {
    var accepts, candidates := BoundedCheck(d, 0, bound), BoundedAnticone(d, tip, bound);
    var order :| Enumerates(order, candidates) && blue == Greedy(accepts, base, order, |order|);
    forall h | h in order
      ensures !accepts(base + {h})
    {
      ZeroRefuses(d, tip, bound, base, h);
    }
    GreedyStays(accepts, base, order, |order|);
  }

  lemma ZeroAddsNothing(d: Dag)
    ensures AddsNothing(EnvOf(d, 0))
  {
    var env := EnvOf(d, 0);
    forall tip, bound: nat, base, blue
      | tip in base && Extended(env.accepts(bound), env.candidates(tip, bound), base, blue)
      ensures blue == base
    {
      ZeroStays(d, tip, bound, base, blue);
    }
  }

  // ----- the sizes

  /** A blue set is then the tip and its ancestors at most. */
  lemma {:induction false} BlueIsBelow(env: Env, tip: BlockHash, visited: set<BlockHash>, depth: nat, blue: set<BlockHash>)
    requires AddsNothing(env) && BlueSetOf(env, tip, visited, depth, blue)
    ensures forall x :: x in blue ==> x == tip || Reaches(env.parents, tip, x)
    decreases depth
  {
    if Interior(env.parents, tip, visited, depth) {
      var parent, base := BlueSetUnwind(env, tip, visited, depth, blue);
      assert blue == base + {tip};
      BlueIsBelow(env, parent, visited + {tip}, depth - 1, base);
      forall x | x in base
        ensures Reaches(env.parents, tip, x)
      {
        EdgeReaches(env.parents, tip, parent);
        if x != parent {
          ReachesTransitive(env.parents, tip, parent, x);
        }
      }
    }
  }

  /** One call: the blue set is one larger than that of the chosen parent. */
  lemma BlueIsOneMore(env: Env, tip: BlockHash, visited: set<BlockHash>, depth: nat, blue: set<BlockHash>)
      returns (parent: BlockHash, base: set<BlockHash>)
    requires AddsNothing(env) && Acyclic(env.parents)
    requires Interior(env.parents, tip, visited, depth) && BlueSetOf(env, tip, visited, depth, blue)
    ensures Edge(env.parents, tip, parent) && Chosen(env, tip, visited, depth, parent, base)
    ensures blue == base + {tip} && |blue| == |base| + 1
  {
    parent, base := BlueSetUnwind(env, tip, visited, depth, blue);
    assert blue == base + {tip};
    BlueIsBelow(env, parent, visited + {tip}, depth - 1, base);
    if tip in base {
      EdgeReaches(env.parents, tip, parent);
      if tip != parent {
        ReachesTransitive(env.parents, tip, parent, tip);
      }
    }
  }

  /** What the size of a blue set says about paths, up to the depth. */
  ghost predicate Measures(g: Graph, tip: BlockHash, depth: nat, blue: set<BlockHash>) {
    forall n: nat :: n < depth ==> (|blue| > n <==> WalksOn(g, tip, n))
  }

  lemma RootMeasures(g: Graph, tip: BlockHash, depth: nat)
    requires tip in g && g[tip] == []
    ensures Measures(g, tip, depth, {tip})
  {
    forall n: nat
      ensures WalksOn(g, tip, n) <==> n == 0
    {
      if n == 0 {
        assert Walk(g, tip, tip, 0);
      } else if WalksOn(g, tip, n) {
        var m := FirstStep(g, tip, n);
      }
    }
  }

  lemma FirstStep(g: Graph, a: BlockHash, n: nat) returns (m: BlockHash)
    requires n > 0 && WalksOn(g, a, n)
    ensures Edge(g, a, m) && WalksOn(g, m, n - 1)
  {
    var b :| Walk(g, a, b, n);
    m :| Edge(g, a, m) && Walk(g, m, b, n - 1);
  }

  /** If all the parents' blue sets measure, so does the set built on one of the largest. */
  lemma LargestMeasures(g: Graph, tip: BlockHash, depth: nat, family: seq<set<BlockHash>>, at: nat, base: set<BlockHash>,
                        blue: set<BlockHash>)
    requires depth > 0 && tip in g && |family| == |g[tip]| && at < |family|
    requires forall j :: 0 <= j < |family| ==> Measures(g, g[tip][j], depth - 1, family[j]) && |family[j]| <= |family[at]|
    requires Measures(g, g[tip][at], depth - 1, base) && |blue| == |base| + 1
    ensures Measures(g, tip, depth, blue)
  {
    forall n: nat | n < depth
      ensures |blue| > n <==> WalksOn(g, tip, n)
    {
      if n == 0 {
        assert Walk(g, tip, tip, 0);
      } else {
        StepMeasures(g, tip, n, family, at, base);
      }
    }
  }

  lemma StepMeasures(g: Graph, tip: BlockHash, n: nat, family: seq<set<BlockHash>>, at: nat, base: set<BlockHash>)
    requires n > 0 && tip in g && |family| == |g[tip]| && at < |family|
    requires forall j :: 0 <= j < |family| ==>
      (|family[j]| > n - 1 <==> WalksOn(g, g[tip][j], n - 1)) && |family[j]| <= |family[at]|
    requires |base| > n - 1 <==> WalksOn(g, g[tip][at], n - 1)
    ensures |base| > n - 1 <==> WalksOn(g, tip, n)
  {
    if |base| > n - 1 {
      WalkLonger(g, tip, g[tip][at], n - 1);
    }
    if WalksOn(g, tip, n) {
      var m := FirstStep(g, tip, n);
      var j :| 0 <= j < |family| && g[tip][j] == m;
    }
  }

  /** Every blue set measures the parent paths from its tip: it has more than n members exactly if n parent edges can be
      walked in a row, for every n below the depth. */
  lemma {:induction false} BlueMeasures(env: Env, tip: BlockHash, visited: set<BlockHash>, depth: nat, blue: set<BlockHash>)
    requires AddsNothing(env) && Acyclic(env.parents) && Closed(env.parents) && AllAbove(env.parents, visited, tip)
    requires tip in env.parents && BlueSetOf(env, tip, visited, depth, blue)
    ensures Measures(env.parents, tip, depth, blue)
    decreases depth
  {
    var g := env.parents;
    NotAboveItself(g, visited, tip);
    if depth > 0 && g[tip] == [] {
      RootMeasures(g, tip, depth);
    } else if depth > 0 {
      var parent, base := BlueIsOneMore(env, tip, visited, depth, blue);
      var family, at := PreferredIsLargest(env, tip, visited, depth, parent);
      forall j | 0 <= j < |family|
        ensures Measures(g, g[tip][j], depth - 1, family[j])
      {
        assert Edge(g, tip, g[tip][j]);
        GuardNeverFires(g, visited, tip, g[tip][j]);
        BlueMeasures(env, g[tip][j], visited + {tip}, depth - 1, family[j]);
      }
      GuardNeverFires(g, visited, tip, parent);
      BlueMeasures(env, parent, visited + {tip}, depth - 1, base);
      LargestMeasures(g, tip, depth, family, at, base, blue);
    }
  }

  /** On every DAG, with k = 0: the blue set of a tip has more than n members exactly if a parent path of n edges starts at
      the tip. So the chain that the choice of parents follows is a longest one, for every iteration order. */
  lemma ZeroBlueSetIsLongest(d: Dag, tip: BlockHash, depth: nat, blue: set<BlockHash>, n: nat)
    requires WellFormed(d) && tip in d && BlueSetOf(EnvOf(d, 0), tip, {}, depth, blue) && n < depth
    ensures |blue| > n <==> WalksOn(Parents(d), tip, n)
  {
    ZeroAddsNothing(d);
    DagIsAcyclic(d);
    BlueMeasures(EnvOf(d, 0), tip, {}, depth, blue);
  }
}
