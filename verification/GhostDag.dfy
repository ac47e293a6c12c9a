/** The consensus object: the program's fields and methods, each proved against the
    definitions of BlockDag, BlueSet and DagRuns. */
module GhostDag {
  import opened ByteStrings
  import opened Reachability
  import opened BlockDag
  import opened BlueSet
  import opened Colouring
  import opened DagRuns
  import opened Wrappers

  /** The program reports a duplicate as success. */
  datatype AddResult = Ok | Err(reason: Verdict)

  datatype Summary = Summary(totalBlocks: nat, blueBlocks: nat, redBlocks: int, tips: nat,
                             bestTip: Option<BlockHash>, difficulty: nat, k: nat)

  class GhostDAG {
    var dag: Dag
    var tips: seq<BlockHash>
    var blueBlocks: set<BlockHash>
    var difficulty: nat
    const config: Config

    function Snapshot(): State
      reads this
    {
      State(dag, tips, blueBlocks)
    }

    ghost predicate Valid()
      reads this
    {
      Invariant(config, Snapshot())
    }

    constructor (config: Config, genesis: Block)
      requires genesis.parentHashes == []
      ensures Valid() && Snapshot() == Initial(genesis) && this.config == config && difficulty == 1
    {
      this.config := config;
      dag := map[genesis.hash := DagNode(genesis, [], 0, true)];
      tips := [genesis.hash];
      blueBlocks := {genesis.hash};
      difficulty := 1;
      new;
      InitialInvariant(config, genesis);
    }

    /** Breadth-first search over parents; the queue may hold a block more than once. */
    method ComputePast(target: BlockHash) returns (past: set<BlockHash>)
      requires WellFormed(dag)
      ensures past == Past(dag, target)
      ensures target !in past
    {
      ghost var g := Parents(dag);
      past := {};
      var queue: seq<BlockHash> := if target in dag then dag[target].block.parentHashes else [];
      ExploringStart(g, target);
      while queue != []
        invariant Exploring(g, target, past, queue)
        decreases dag.Keys - past, |queue|
      {
        var hash := queue[0];
        ExploringStep(g, target, past, queue);
        queue := queue[1..];
        if hash !in past {
          ghost var untaken := dag.Keys - past;
          past := past + {hash};
          if hash in dag {
            assert hash in untaken && hash !in dag.Keys - past;
            queue := queue + dag[hash].block.parentHashes;
          } else {
            assert dag.Keys - past == untaken && queue + [] == queue;
          }
        }
      }
      DagIsAcyclic(dag);
      ExploringDone(g, target, past);
    }

    /** Lists the direct children only, in any iteration order. */
    method ComputeFuture(target: BlockHash) returns (future: set<BlockHash>)
      ensures future == DirectFuture(dag, target)
      ensures forall c :: c in future <==> c in dag && target in dag[c].block.parentHashes
    {
      future := {};
      var remaining := dag.Keys;
      while remaining != {}
        invariant remaining <= dag.Keys
        invariant future == set c | c in dag && c !in remaining && target in dag[c].block.parentHashes
      {
        var hash :| hash in remaining;
        if target in dag[hash].block.parentHashes {
          future := future + {hash};
        }
        remaining := remaining - {hash};
      }
    }

    method ComputeAnticone(target: BlockHash) returns (anticone: set<BlockHash>)
      requires WellFormed(dag)
      ensures anticone == WideAnticone(dag, target)
    {
      var past := ComputePast(target);
      var future := ComputeFuture(target);
      anticone := Outside(target, past, future);
    }

    /** The keys that are neither the target nor in one of the two sets, in any iteration order. */
    method Outside(target: BlockHash, past: set<BlockHash>, future: set<BlockHash>) returns (r: set<BlockHash>)
      ensures r == dag.Keys - {target} - past - future
    {
      r := {};
      var remaining := dag.Keys;
      while remaining != {}
        invariant remaining <= dag.Keys
        invariant r == dag.Keys - remaining - {target} - past - future
      {
        var hash :| hash in remaining;
        if hash != target && hash !in past && hash !in future {
          r := r + {hash};
        }
        remaining := remaining - {hash};
      }
    }

    method AnticoneSize(hash: BlockHash, subset: set<BlockHash>) returns (size: nat)
      requires WellFormed(dag)
      ensures size == Overlap(WideAnticone(dag, hash), subset)
    {
      var anticone := ComputeAnticone(hash);
      OverlapIsIntersection(anticone, subset);
      size := |anticone * subset|;
    }

    /** A positive answer is right; it uses anticones that may be too large. */
    method CheckKCluster(subset: set<BlockHash>) returns (ok: bool)
      requires WellFormed(dag)
      ensures ok <==> forall h :: h in subset ==> Overlap(WideAnticone(dag, h), subset) <= config.k
      ensures ok ==> IsKCluster(dag, config.k, subset)
    {
      var remaining := subset;
      while remaining != {}
        invariant remaining <= subset
        invariant forall h :: h in subset - remaining ==> Overlap(WideAnticone(dag, h), subset) <= config.k
      {
        var hash :| hash in remaining;
        var size := AnticoneSize(hash, subset);
        if size > config.k {
          return false;
        }
        remaining := remaining - {hash};
      }
      WideCheckSound(dag, config.k, subset);
      return true;
    }

    method ComputeBlueScore(hash: BlockHash) returns (score: nat)
      requires WellFormed(dag)
      ensures score == BlueScore(dag, blueBlocks, hash) == |Past(dag, hash) * blueBlocks|
    {
      var past := ComputePast(hash);
      OverlapIsIntersection(past, blueBlocks);
      score := |past * blueBlocks|;
    }

    /** The first best tip; when the tips are the childless blocks, no block scores higher. */
    method SelectBestTip() returns (tip: Option<BlockHash>, ghost at: nat)
      requires WellFormed(dag)
      ensures tip.None? <==> tips == []
      ensures tip.Some? ==> FirstBest(dag, blueBlocks, tips, tip.value)
      ensures tip.Some? ==> at < |tips| && tips[at] == tip.value
      ensures tip.Some? ==> forall j :: 0 <= j < |tips| ==>
        |Past(dag, tips[j]) * blueBlocks| <= |Past(dag, tip.value) * blueBlocks|
      ensures tip.Some? ==> forall j :: 0 <= j < at ==>
        |Past(dag, tips[j]) * blueBlocks| < |Past(dag, tip.value) * blueBlocks|
      ensures tip.Some? && Enumerates(tips, Childless(dag)) ==>
        forall h :: h in dag ==> |Past(dag, h) * blueBlocks| <= |Past(dag, tip.value) * blueBlocks|
    {
      if tips == [] {
        return None, 0;
      }
      var best := BestOfTips();
      at := BestTipCounts(dag, blueBlocks, tips, best);
      if Enumerates(tips, Childless(dag)) {
        BestTipCountsMost(dag, blueBlocks, tips, best);
      }
      return Some(best), at;
    }

    /** The loop over the tips. */
    method BestOfTips() returns (best: BlockHash)
      requires WellFormed(dag) && tips != []
      ensures FirstBest(dag, blueBlocks, tips, best)
    {
      best := tips[0];
      var bestScore := ComputeBlueScore(best);
      ghost var d, blue := dag, blueBlocks;
      ghost var scores, at := [bestScore], 0;
      for i := 1 to |tips|
        invariant |scores| == i && Scored(d, blue, tips, scores)
        invariant FirstMaximum(scores, at) && best == tips[at] && bestScore == scores[at]
      {
        var score := ComputeBlueScore(tips[i]);
        ScoredMore(d, blue, tips, scores, score);
        FirstMaximumMore(scores, at, score);
        scores := scores + [score];
        if score > bestScore {
          best, bestScore, at := tips[i], score, i;
        }
      }
      FirstBestByScores(d, blue, tips, scores, at);
    }

    // ----- the bounded searches

    /** Records and pushes every listed block that was not visited. */
    method PushUnvisited(list: seq<BlockHash>, visited: set<BlockHash>, stack: seq<BlockHash>, found: set<BlockHash>)
        returns (stack': seq<BlockHash>, found': set<BlockHash>)
      ensures stack' == stack + Unseen(list, |list|, visited)
      ensures found' == found + set x | x in Unseen(list, |list|, visited)
    {
      stack', found' := stack, found;
      for i := 0 to |list|
        invariant stack' == stack + Unseen(list, i, visited)
        invariant found' == found + set x | x in Unseen(list, i, visited)
      {
        if list[i] !in visited {
          found' := found' + {list[i]};
          stack' := stack' + [list[i]];
        }
      }
    }

    method ComputePastBounded(target: BlockHash, maxDepth: nat) returns (past: set<BlockHash>)
      ensures past == BoundedPast(dag, target, maxDepth)
      ensures maxDepth == 0 ==> past == {}
    {
      past := {};
      if maxDepth == 0 {
        return;
      }
      ghost var g, nodes := Parents(dag), dag.Keys;
      var visited: set<BlockHash> := {};
      var stack := [target];
      while stack != []
        invariant Search(g, stack, visited, past, maxDepth) == BoundedPast(dag, target, maxDepth)
        decreases nodes - visited, |stack|
      {
        var current := stack[|stack| - 1];
        stack := stack[..|stack| - 1];
        if current in visited || |visited| > maxDepth {
          continue;
        }
        ghost var unvisited := nodes - visited;
        visited := visited + {current};
        if current in dag {
          assert current in unvisited && current !in nodes - visited;
          stack, past := PushUnvisited(dag[current].block.parentHashes, visited, stack, past);
        } else {
          assert nodes - visited == unvisited;
          assert stack + [] == stack && past + (set x | x in []) == past;
        }
      }
    }

    method ComputeFutureBounded(target: BlockHash, maxDepth: nat) returns (future: set<BlockHash>)
      ensures future == BoundedFuture(dag, target, maxDepth)
      ensures maxDepth == 0 ==> future == {}
    {
      future := {};
      if maxDepth == 0 {
        return;
      }
      ghost var g, nodes := Children(dag), dag.Keys;
      var visited: set<BlockHash> := {};
      var stack := [target];
      while stack != []
        invariant Search(g, stack, visited, future, maxDepth) == BoundedFuture(dag, target, maxDepth)
        decreases nodes - visited, |stack|
      {
        var current := stack[|stack| - 1];
        stack := stack[..|stack| - 1];
        if current in visited || |visited| > maxDepth {
          continue;
        }
        ghost var unvisited := nodes - visited;
        visited := visited + {current};
        if current in dag {
          assert current in unvisited && current !in nodes - visited;
          stack, future := PushUnvisited(dag[current].children, visited, stack, future);
        } else {
          assert nodes - visited == unvisited;
          assert stack + [] == stack && future + (set x | x in []) == future;
        }
      }
    }

    method ComputeAnticoneBounded(target: BlockHash, maxDepth: nat) returns (anticone: set<BlockHash>)
      ensures anticone == BoundedAnticone(dag, target, maxDepth)
      ensures maxDepth == 0 ==> anticone == {}
    {
      if maxDepth == 0 {
        return {};
      }
      var past := ComputePastBounded(target, maxDepth);
      var future := ComputeFutureBounded(target, maxDepth);
      anticone := Outside(target, past, future);
    }

    method CheckKClusterBounded(subset: set<BlockHash>, maxDepth: nat) returns (ok: bool)
      ensures ok <==> KClusterBounded(dag, config.k, subset, maxDepth)
      ensures maxDepth == 0 ==> ok
    {
      if maxDepth == 0 {
        return true;
      }
      var remaining := subset;
      while remaining != {}
        invariant remaining <= subset
        invariant forall h :: h in subset - remaining ==> Overlap(BoundedAnticone(dag, h, maxDepth), subset) <= config.k
      {
        var hash :| hash in remaining;
        var anticone := ComputeAnticoneBounded(hash, maxDepth);
        OverlapIsIntersection(anticone, subset);
        if |anticone * subset| > config.k {
          return false;
        }
        remaining := remaining - {hash};
      }
      return true;
    }

    // ----- the blue set

    method ComputeBlueSet(tip: BlockHash) returns (blue: set<BlockHash>)
      ensures BlueSetOf(EnvOf(dag, config.k), tip, {}, 1000, blue)
    {
      blue := ComputeBlueSetBounded(tip, {}, DEPTH_LIMIT);
    }

    method ComputeBlueSetBounded(tip: BlockHash, visited: set<BlockHash>, maxDepth: nat) returns (blue: set<BlockHash>)
      ensures BlueSetOf(EnvOf(dag, config.k), tip, visited, maxDepth, blue)
      decreases maxDepth, 1
    {
      if maxDepth == 0 || tip in visited || tip !in dag {
        return {};
      }
      if dag[tip].block.parentHashes == [] {
        return {tip};
      }
      var parent, family, at := ChooseParent(tip, visited, maxDepth);
      var base := ComputeBlueSetBounded(parent, visited + {tip}, maxDepth - 1);
      blue := AddFromAnticone(tip, base + {tip}, maxDepth / 2);
      assert Chosen(EnvOf(dag, config.k), tip, visited, maxDepth, parent, base);
    }

    /** The first parent whose blue set is largest. */
    method ChooseParent(tip: BlockHash, visited: set<BlockHash>, maxDepth: nat)
        returns (bestParent: BlockHash, ghost family: seq<set<BlockHash>>, ghost at: nat)
      requires maxDepth > 0 && tip in dag && dag[tip].block.parentHashes != []
      ensures Preferred(EnvOf(dag, config.k), tip, visited, maxDepth, bestParent)
      ensures |family| == |dag[tip].block.parentHashes| && at < |family| && bestParent == dag[tip].block.parentHashes[at]
      ensures forall j :: 0 <= j < |family| ==> |family[j]| <= |family[at]|
      ensures forall j :: 0 <= j < |family| ==>
        BlueSetOf(EnvOf(dag, config.k), dag[tip].block.parentHashes[j], visited + {tip}, maxDepth - 1, family[j])
      ensures forall j :: 0 <= j < at ==> |family[j]| < |family[at]|
      decreases maxDepth, 0
    {
      ghost var env := EnvOf(dag, config.k);
      var parents, seen := dag[tip].block.parentHashes, visited + {tip};
      var bestScore: nat := 0;
      bestParent := parents[0];
      family, at := [], 0;
      for i := 0 to |parents|
        invariant |family| == i && Choosing(env, parents, seen, maxDepth - 1, family, at, bestScore)
        invariant at < |parents| && bestParent == parents[at]
      {
        var parentBlue := ComputeBlueSetBounded(parents[i], seen, maxDepth - 1);
        ChoosingNext(env, parents, seen, maxDepth - 1, family, at, bestScore, parentBlue);
        if |parentBlue| > bestScore {
          bestParent, bestScore, at := parents[i], |parentBlue|, i;
        }
        family := family + [parentBlue];
      }
      ChoosingDone(env, tip, visited, maxDepth, family, at, bestScore);
    }

    /** Offers every block of the bounded anticone once, in any order, and keeps it when the bounded
        check accepts it. */
    method AddFromAnticone(tip: BlockHash, start: set<BlockHash>, bound: nat) returns (blue: set<BlockHash>)
      ensures Extended(BoundedCheck(dag, config.k, bound), BoundedAnticone(dag, tip, bound), start, blue)
    {
      ghost var accepts := BoundedCheck(dag, config.k, bound);
      blue := start;
      var remaining := ComputeAnticoneBounded(tip, bound);
      ghost var anticone, order: seq<BlockHash> := remaining, [];
      while remaining != {}
        invariant Offered(accepts, anticone, start, remaining, order, blue)
      {
        var candidate :| candidate in remaining;
        OfferedNext(accepts, anticone, start, remaining, order, blue, candidate);
        var ok := CheckKClusterBounded(blue + {candidate}, bound);
        if ok {
          blue := blue + {candidate};
        }
        remaining := remaining - {candidate};
        order := order + [candidate];
      }
      OfferedAll(accepts, anticone, start, order, blue);
    }

    // ----- adding a block

    /** Adds the block as Step allows and reports the verdict; a rejected block changes nothing. */
    method AddBlock(block: Block) returns (r: AddResult)
      requires Valid()
      modifies this`dag, this`tips, this`blueBlocks
      ensures Valid()
      ensures Step(config, old(Snapshot()), block, Snapshot())
      ensures var v := Judge(config, old(dag), block);
        r == if v == Accepted || v == Duplicate then Ok else Err(v)
    {
      AcceptedIff(config, dag, block);
      if block.hash in dag {
        return Ok;
      }
      for i := 0 to |block.parentHashes|
        invariant forall j :: 0 <= j < i ==> block.parentHashes[j] in dag
      {
        if block.parentHashes[i] !in dag {
          assert FirstMissing(dag, block.parentHashes) == i;
          return Err(ParentNotFound(block.parentHashes[i]));
        }
      }
      assert FirstMissing(dag, block.parentHashes) == |block.parentHashes|;
      if !MeetsDifficulty(config, block) {
        return Err(DifficultyNotMet);
      }
      Accept(block);
      return Ok;
    }

    /** Inserts the block, lists the tips again and recomputes the blue set from the best of them. */
    method Accept(block: Block)
      requires Valid() && Judge(config, dag, block) == Accepted
      modifies this`dag, this`tips, this`blueBlocks
      ensures Valid() && Step(config, old(Snapshot()), block, Snapshot())
    {
      ghost var s := Snapshot();
      AcceptedIff(config, dag, block);
      InsertKeepsWellFormed(dag, block);
      InsertNode(block);
      UpdateTips();
      SomeTipListed(dag, tips, block.hash);
      ghost var best := Recolour();
      AcceptedStep(config, s, block, Snapshot(), best);
    }

    /** Recomputes the blue set from the best tip under the old one. */
    method Recolour() returns (ghost best: BlockHash)
      requires WellFormed(dag) && tips != []
      modifies this`blueBlocks
      ensures FirstBest(dag, old(blueBlocks), tips, best)
      ensures BlueSetOf(EnvOf(dag, config.k), best, {}, DEPTH_LIMIT, blueBlocks)
    {
      var bestTip, at := SelectBestTip();
      if bestTip.Some? {
        var newBlueSet := ComputeBlueSet(bestTip.value);
        blueBlocks := newBlueSet;
      }
      best := bestTip.value;
    }

    /** Inserts the node and pushes its hash on each parent's child list. */
    method InsertNode(block: Block)
      requires Insertable(dag, block)
      modifies this`dag
      ensures dag == Insert(old(dag), block)
    {
      ghost var d := dag;
      dag := dag[block.hash := DagNode(block, [], 0, false)];
      for i := 0 to |block.parentHashes|
        invariant dag == RegisteredUpTo(d, block, i)
      {
        PushChild(block.parentHashes[i], block.hash);
      }
      RegisteredAll(d, block);
    }

    method PushChild(parent: BlockHash, child: BlockHash)
      modifies this`dag
      ensures dag == WithChild(old(dag), parent, child)
    {
      if parent in dag {
        dag := dag[parent := dag[parent].(children := dag[parent].children + [child])];
      }
    }

    /** Collects the childless blocks, in any iteration order. */
    method UpdateTips()
      modifies this`tips
      ensures Enumerates(tips, Childless(dag))
    {
      var found: seq<BlockHash> := [];
      var remaining := dag.Keys;
      while remaining != {}
        invariant remaining <= dag.Keys
        invariant Enumerates(found, Childless(dag) - remaining)
      {
        var hash :| hash in remaining;
        if dag[hash].children == [] {
          ghost var before := found;
          found := found + [hash];
          assert forall h :: h in found <==> h in before || h == hash;
        }
        remaining := remaining - {hash};
      }
      tips := found;
    }

    /** The counts of the summary; the red count is never negative. */
    method GetStateSummary() returns (s: Summary)
      requires Valid()
      ensures s.totalBlocks == |dag| && s.blueBlocks == |blueBlocks| && s.tips == |tips|
      ensures s.redBlocks == |dag.Keys - blueBlocks| >= 0
      ensures s.bestTip.Some? && FirstBest(dag, blueBlocks, tips, s.bestTip.value)
      ensures s.difficulty == difficulty && s.k == config.k
    {
      BlueInside(config, Snapshot());
      var best, at := SelectBestTip();
      s := Summary(|dag|, |blueBlocks|, |dag| - |blueBlocks|, |tips|, best, difficulty, config.k);
    }
  }
}
