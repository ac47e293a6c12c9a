/** The blue set recursion on the block DAG: the bounded check and the bounded anticone it works with,
    and how its answers relate to true k-clusters. */
module Colouring {
  import opened ByteStrings
  import opened Reachability
  import opened BlockDag
  import opened BlueSet

  /** The bounded k-cluster check as a test on sets. */
  ghost function BoundedCheck(d: Dag, k: nat, bound: nat): set<BlockHash> -> bool {
    s => KClusterBounded(d, k, s, bound)
  }

  /** What the recursion is given on a block DAG. */
  ghost function EnvOf(d: Dag, k: nat): Env {
    Env(Parents(d), (bound: nat) => BoundedCheck(d, k, bound), (h, bound: nat) => BoundedAnticone(d, h, bound))
  }

  /** The tip was added to the blue set of the parent chosen for it, and nothing else was. */
  ghost predicate PlusTip(d: Dag, k: nat, tip: BlockHash, visited: set<BlockHash>, depth: nat, blue: set<BlockHash>) {
    depth > 0 && tip in Parents(d) && exists parent, base :: Chosen(EnvOf(d, k), tip, visited, depth, parent, base) && blue == base + {tip}
  }

  lemma SmallCluster(d: Dag, k: nat, s: set<BlockHash>, tip: BlockHash)
    requires s <= {tip}
    ensures IsKCluster(d, k, s)
  {
    forall h | h in s
      ensures Overlap(Anticone(d, h), s) <= k
    {
      assert (set x | x in Anticone(d, h) && x in s) == {};
    }
  }

  /** If the greedy loop added any block, the starting set and the result are true k-clusters, although
      every single check was an approximation; so the result is a k-cluster exactly when the start is. */
  lemma GreedyCluster(d: Dag, k: nat, tip: BlockHash, bound: nat, base: set<BlockHash>, blue: set<BlockHash>)
    requires WellFormed(d) && Extended(BoundedCheck(d, k, bound), BoundedAnticone(d, tip, bound), base, blue)
    ensures blue == base || IsKCluster(d, k, blue)
    ensures IsKCluster(d, k, blue) <==> IsKCluster(d, k, base)
  {
    ExtendedOutcome(BoundedCheck(d, k, bound), BoundedAnticone(d, tip, bound), base, blue);
    if blue != base {
      assert bound > 0;
      BoundedCheckSound(d, k, blue, bound);
    }
    if IsKCluster(d, k, blue) {
      SubCluster(d, k, base, blue);
    }
  }

  /** With a bound of at least the number of blocks the greedy loop leaves out nothing that would have fitted: no
      block of the tip's anticone can be added to the result. */
  lemma GreedyMaximal(d: Dag, k: nat, tip: BlockHash, bound: nat, base: set<BlockHash>, blue: set<BlockHash>, h: BlockHash)
    requires WellFormed(d) && Extended(BoundedCheck(d, k, bound), BoundedAnticone(d, tip, bound), base, blue)
    requires bound >= |d| && h in Anticone(d, tip) && h !in blue
    ensures !IsKCluster(d, k, blue + {h})
  {
    SubsetSize({h}, d.Keys);
    BoundedAnticoneSound(d, tip, bound);
    var m := ExtendedRefused(BoundedCheck(d, k, bound), BoundedAnticone(d, tip, bound), base, blue, h);
    BoundedCheckSound(d, k, m + {h}, bound);
    if IsKCluster(d, k, blue + {h}) {
      SubCluster(d, k, m + {h}, blue + {h});
    }
  }

  /** Every blue set is a true k-cluster, or exactly the chosen parent's blue set plus the tip. */
  lemma BlueSetDichotomy(d: Dag, k: nat, tip: BlockHash, visited: set<BlockHash>, depth: nat, blue: set<BlockHash>)
    requires WellFormed(d) && BlueSetOf(EnvOf(d, k), tip, visited, depth, blue)
    ensures IsKCluster(d, k, blue) || PlusTip(d, k, tip, visited, depth, blue)
  {
    if Interior(Parents(d), tip, visited, depth) {
      var parent, base := BlueSetUnwind(EnvOf(d, k), tip, visited, depth, blue);
      GreedyCluster(d, k, tip, depth / 2, base + {tip}, blue);
    } else {
      SmallCluster(d, k, blue, tip);
    }
  }

  lemma OneMore(d: Dag, base: set<BlockHash>, x: BlockHash, h: BlockHash)
    requires WellFormed(d) && base <= d.Keys && x in d && x !in base && h in base
    ensures Overlap(Anticone(d, h), base + {x}) == Overlap(Anticone(d, h), base) + if h in Anticone(d, x) then 1 else 0
  {
    AnticoneSymmetric(d, h, x);
    OverlapOneMore(Anticone(d, h), base, x);
  }

  /** x has room in the cluster, and so has every member of the cluster in its anticone. */
  ghost predicate Room(d: Dag, k: nat, base: set<BlockHash>, x: BlockHash) {
    && Overlap(Anticone(d, x), base) <= k
    && forall h :: h in base && h in Anticone(d, x) ==> Overlap(Anticone(d, h), base) < k
  }

  lemma RoomSuffices(d: Dag, k: nat, base: set<BlockHash>, x: BlockHash)
    requires WellFormed(d) && IsKCluster(d, k, base) && base <= d.Keys && x in d && x !in base && Room(d, k, base, x)
    ensures IsKCluster(d, k, base + {x})
  {
    forall h | h in base + {x}
      ensures Overlap(Anticone(d, h), base + {x}) <= k
    {
      if h == x {
        OverlapOneMore(Anticone(d, x), base, x);
      } else {
        OneMore(d, base, x, h);
      }
    }
  }

  lemma RoomNeeded(d: Dag, k: nat, base: set<BlockHash>, x: BlockHash)
    requires WellFormed(d) && base <= d.Keys && x in d && x !in base && IsKCluster(d, k, base + {x})
    ensures IsKCluster(d, k, base) && Room(d, k, base, x)
  {
    SubCluster(d, k, base, base + {x});
    OverlapOneMore(Anticone(d, x), base, x);
    assert x in base + {x};
    forall h | h in base && h in Anticone(d, x)
      ensures Overlap(Anticone(d, h), base) < k
    {
      assert h in base + {x};
      OneMore(d, base, x, h);
    }
  }

  /** The check that the unchecked insertion of the tip leaves out: adding x gives a k-cluster exactly when
      there was one and x is in it already or has room in it. */
  lemma UncheckedInsertion(d: Dag, k: nat, base: set<BlockHash>, x: BlockHash)
    requires WellFormed(d) && base <= d.Keys && x in d
    ensures IsKCluster(d, k, base + {x}) <==> IsKCluster(d, k, base) && Unharmed(d, k, Insertion(x, base))
  {
    if x in base {
      assert base + {x} == base;
    } else if IsKCluster(d, k, base + {x}) {
      RoomNeeded(d, k, base, x);
    } else if IsKCluster(d, k, base) && Room(d, k, base, x) {
      RoomSuffices(d, k, base, x);
    }
  }

  // ----- when a blue set is a k-cluster

  /** A tip that the recursion inserted into the blue set of the parent chosen for it. */
  datatype Insertion = Insertion(tip: BlockHash, base: set<BlockHash>)

  ghost predicate Unharmed(d: Dag, k: nat, i: Insertion) {
    i.tip in i.base || Room(d, k, i.base, i.tip)
  }

  /** The insertions on the way down the chain of chosen parents, the last one first. */
  ghost predicate IsTrace(d: Dag, k: nat, tip: BlockHash, visited: set<BlockHash>, depth: nat, blue: set<BlockHash>,
                          trace: seq<Insertion>)
    decreases depth
  {
    if !Interior(Parents(d), tip, visited, depth) then
      trace == [] && BlueSetOf(EnvOf(d, k), tip, visited, depth, blue)
    else
      && trace != [] && trace[0].tip == tip
      && ResultsFrom(d, k, tip, depth, trace[0].base, blue)
      && exists parent ::
           && Chosen(EnvOf(d, k), tip, visited, depth, parent, trace[0].base)
           && IsTrace(d, k, parent, visited + {tip}, depth - 1, trace[0].base, trace[1..])
  }

  /** The blue set comes from base by inserting the tip and offering the bounded anticone. */
  ghost predicate ResultsFrom(d: Dag, k: nat, tip: BlockHash, depth: nat, base: set<BlockHash>, blue: set<BlockHash>) {
    Extended(BoundedCheck(d, k, depth / 2), BoundedAnticone(d, tip, depth / 2), base + {tip}, blue)
  }

  /** Every blue set has a trace. */
  lemma {:induction false} BlueSetHasTrace(d: Dag, k: nat, tip: BlockHash, visited: set<BlockHash>, depth: nat,
                                           blue: set<BlockHash>)
      returns (trace: seq<Insertion>)
    requires BlueSetOf(EnvOf(d, k), tip, visited, depth, blue)
    ensures IsTrace(d, k, tip, visited, depth, blue, trace)
    decreases depth
  {
    if Interior(Parents(d), tip, visited, depth) {
      var parent, base := BlueSetUnwind(EnvOf(d, k), tip, visited, depth, blue);
      var rest := BlueSetHasTrace(d, k, parent, visited + {tip}, depth - 1, base);
      trace := [Insertion(tip, base)] + rest;
      assert trace[1..] == rest;
    } else {
      trace := [];
    }
  }

  /** The blue set of a tip with parents is a k-cluster exactly when the chosen parent's blue set is one and
      the tip, which is inserted unchecked, does no harm to it; the blocks added afterwards never matter. */
  lemma BlueSetClusterStep(d: Dag, k: nat, tip: BlockHash, depth: nat, base: set<BlockHash>, blue: set<BlockHash>)
    requires WellFormed(d) && tip in d && base <= d.Keys && ResultsFrom(d, k, tip, depth, base, blue)
    ensures IsKCluster(d, k, blue) <==> IsKCluster(d, k, base) && Unharmed(d, k, Insertion(tip, base))
  {
    GreedyCluster(d, k, tip, depth / 2, base + {tip}, blue);
    UncheckedInsertion(d, k, base, tip);
  }

  ghost predicate NoHarm(d: Dag, k: nat, trace: seq<Insertion>) {
    forall i :: 0 <= i < |trace| ==> Unharmed(d, k, trace[i])
  }

  lemma NoHarmSplit(d: Dag, k: nat, trace: seq<Insertion>)
    requires trace != []
    ensures NoHarm(d, k, trace) <==> Unharmed(d, k, trace[0]) && NoHarm(d, k, trace[1..])
  {
    assert forall i :: 0 < i < |trace| ==> trace[i] == trace[1..][i - 1];
  }

  /** One call taken off a trace. */
  lemma TraceUnfold(d: Dag, k: nat, tip: BlockHash, visited: set<BlockHash>, depth: nat, blue: set<BlockHash>,
                    trace: seq<Insertion>)
      returns (parent: BlockHash)
    requires WellFormed(d) && Interior(Parents(d), tip, visited, depth)
    requires IsTrace(d, k, tip, visited, depth, blue, trace)
    ensures Follows(d, k, tip, depth, blue, trace)
    ensures IsTrace(d, k, parent, visited + {tip}, depth - 1, trace[0].base, trace[1..])
  {
    parent :| Chosen(EnvOf(d, k), tip, visited, depth, parent, trace[0].base)
      && IsTrace(d, k, parent, visited + {tip}, depth - 1, trace[0].base, trace[1..]);
    BlueSetInside(EnvOf(d, k), parent, visited + {tip}, depth - 1, trace[0].base);
  }

  /** The blue set results from the first insertion of the trace, which was into known blocks. */
  ghost predicate Follows(d: Dag, k: nat, tip: BlockHash, depth: nat, blue: set<BlockHash>, trace: seq<Insertion>) {
    && trace != [] && trace[0].tip == tip && tip in d && trace[0].base <= d.Keys
    && ResultsFrom(d, k, tip, depth, trace[0].base, blue)
  }

  /** Whether the blue set is a k-cluster is whether no insertion of the trace did harm. */
  ghost predicate Decides(d: Dag, k: nat, blue: set<BlockHash>, trace: seq<Insertion>) {
    IsKCluster(d, k, blue) <==> NoHarm(d, k, trace)
  }

  lemma DecidesNext(d: Dag, k: nat, tip: BlockHash, depth: nat, blue: set<BlockHash>, trace: seq<Insertion>)
    requires WellFormed(d) && Follows(d, k, tip, depth, blue, trace) && Decides(d, k, trace[0].base, trace[1..])
    ensures Decides(d, k, blue, trace)
  {
    BlueSetClusterStep(d, k, tip, depth, trace[0].base, blue);
    NoHarmSplit(d, k, trace);
  }

  lemma DecidesEnd(d: Dag, k: nat, tip: BlockHash, visited: set<BlockHash>, depth: nat, blue: set<BlockHash>,
                   trace: seq<Insertion>)
    requires !Interior(Parents(d), tip, visited, depth) && IsTrace(d, k, tip, visited, depth, blue, trace)
    ensures Decides(d, k, blue, trace)
  {
    SmallCluster(d, k, blue, tip);
  }

  /** A blue set is a k-cluster exactly when no insertion down its chain of chosen parents did harm: each tip
      was in the parent's blue set already, or had room in it. */
  lemma {:induction false} BlueSetClusterIff(d: Dag, k: nat, tip: BlockHash, visited: set<BlockHash>, depth: nat,
                                             blue: set<BlockHash>, trace: seq<Insertion>)
    requires WellFormed(d) && IsTrace(d, k, tip, visited, depth, blue, trace)
    ensures Decides(d, k, blue, trace)
    decreases depth
  {
    if Interior(Parents(d), tip, visited, depth) {
      var parent := TraceUnfold(d, k, tip, visited, depth, blue, trace);
      BlueSetClusterIff(d, k, parent, visited + {tip}, depth - 1, trace[0].base, trace[1..]);
      DecidesNext(d, k, tip, depth, blue, trace);
    } else {
      DecidesEnd(d, k, tip, visited, depth, blue, trace);
    }
  }

  /** Blue sets hold only blocks of the DAG, and the tip among them. */
  lemma BlueInDag(d: Dag, k: nat, tip: BlockHash, depth: nat, blue: set<BlockHash>)
    requires WellFormed(d) && BlueSetOf(EnvOf(d, k), tip, {}, depth, blue)
    ensures blue <= d.Keys
    ensures depth > 0 && tip in d ==> tip in blue
  {
    BlueSetInside(EnvOf(d, k), tip, {}, depth, blue);
  }

  /** In every DAG the visited guard of the recursion is redundant: for any visited set of strict
      descendants of the tip the blue sets are those of the empty visited set. */
  lemma VisitedRedundant(d: Dag, k: nat, tip: BlockHash, visited: set<BlockHash>, depth: nat, blue: set<BlockHash>)
    requires WellFormed(d) && forall v :: v in visited ==> tip in Past(d, v)
    ensures BlueSetOf(EnvOf(d, k), tip, visited, depth, blue) <==> BlueSetOf(EnvOf(d, k), tip, {}, depth, blue)
  {
    DagIsAcyclic(d);
    if BlueSetOf(EnvOf(d, k), tip, visited, depth, blue) {
      VisitedIrrelevant(EnvOf(d, k), tip, visited, {}, depth, blue);
    }
    if BlueSetOf(EnvOf(d, k), tip, {}, depth, blue) {
      VisitedIrrelevant(EnvOf(d, k), tip, {}, visited, depth, blue);
    }
  }

  /** A depth of at least the number of blocks exceeds every parent path. */
  lemma DepthExceedsPaths(d: Dag, tip: BlockHash, depth: nat)
    requires WellFormed(d) && tip in d && depth >= |d|
    ensures !WalksOn(Parents(d), tip, depth)
  {
    var rank :| Ranks(Parents(d), rank);
    if WalksOn(Parents(d), tip, depth) {
      var b :| Walk(Parents(d), tip, b, depth);
      WalkLosesRank(Parents(d), rank, tip, b, depth);
    }
  }

  /** With a depth above the longest parent path, which any depth of at least the number of blocks is,
      the blue set holds a chain of chosen parents from the tip down to a block without parents. */
  lemma BlueSetReachesRoot(d: Dag, k: nat, tip: BlockHash, depth: nat, blue: set<BlockHash>) returns (chain: seq<BlockHash>)
    requires WellFormed(d) && tip in d && depth > 0
    requires !WalksOn(Parents(d), tip, depth) || depth >= |d|
    requires BlueSetOf(EnvOf(d, k), tip, {}, depth, blue)
    ensures SelectedChain(EnvOf(d, k), chain, {}, depth) && chain[0] == tip
    ensures forall h :: h in chain ==> h in blue && h in d
    ensures d[chain[|chain| - 1]].block.parentHashes == []
  {
    DagIsAcyclic(d);
    if depth >= |d| {
      DepthExceedsPaths(d, tip, depth);
    }
    chain := FullChain(EnvOf(d, k), tip, depth, blue);
  }
}
