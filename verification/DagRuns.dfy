/** The consensus state as a state machine: what adding one block may do, and what holds in
    every state of every run. */
module DagRuns {
  import opened ByteStrings
  import opened Reachability
  import opened BlockDag
  import opened BlueSet
  import opened Colouring

  /** The depth limit that the program gives the blue set recursion. */
  const DEPTH_LIMIT: nat := 1000

  /** k, and how many leading zero bytes a difficulty asks for. */
  datatype Config = Config(k: nat, zeroBytes: nat -> nat)

  datatype State = State(dag: Dag, tips: seq<BlockHash>, blue: set<BlockHash>)

  datatype Verdict = Accepted | Duplicate | ParentNotFound(parent: BlockHash) | DifficultyNotMet

  predicate MeetsDifficulty(c: Config, block: Block) {
    forall i :: 0 <= i < |block.hash.bytes| && i < c.zeroBytes(block.difficulty) ==> block.hash.bytes[i] == 0
  }

  /** The first listed parent that is not in the DAG. */
  function FirstMissing(d: Dag, parents: seq<BlockHash>): (i: nat)
    ensures i <= |parents|
    ensures forall j :: 0 <= j < i ==> parents[j] in d
    ensures i < |parents| ==> parents[i] !in d
  {
    if parents == [] || parents[0] !in d then 0
    else
      var i := FirstMissing(d, parents[1..]);
      assert forall j :: 1 <= j < i + 1 ==> parents[j] == parents[1..][j - 1];
      i + 1
  }

  function Judge(c: Config, d: Dag, block: Block): Verdict {
    var i := FirstMissing(d, block.parentHashes);
    if block.hash in d then Duplicate
    else if i < |block.parentHashes| then ParentNotFound(block.parentHashes[i])
    else if !MeetsDifficulty(c, block) then DifficultyNotMet
    else Accepted
  }

  /** A block is accepted exactly when it is new, its parents are known and it meets its difficulty. */
  lemma AcceptedIff(c: Config, d: Dag, block: Block)
    ensures Judge(c, d, block) == Accepted <==> Insertable(d, block) && MeetsDifficulty(c, block)
    ensures MeetsDifficulty(c, block) <==> forall i :: 0 <= i < 32 && i < c.zeroBytes(block.difficulty) ==> block.hash.bytes[i] == 0
  {
    var i := FirstMissing(d, block.parentHashes);
    if i == |block.parentHashes| {
      assert forall p :: p in block.parentHashes ==> p in d;
    } else {
      assert block.parentHashes[i] in block.parentHashes;
    }
  }

  ghost predicate FirstMissingAt(d: Dag, parents: seq<BlockHash>, i: int) {
    0 <= i < |parents| && parents[i] !in d && forall j :: 0 <= j < i ==> parents[j] in d
  }

  /** What each verdict means. A known block is a duplicate whatever else is wrong with it; of a new block the first
      missing parent is reported, and the difficulty only if none is missing. */
  lemma VerdictIff(c: Config, d: Dag, block: Block)
    ensures Judge(c, d, block) == Duplicate <==> block.hash in d
    ensures forall p :: Judge(c, d, block) == ParentNotFound(p) <==>
      block.hash !in d && exists i :: FirstMissingAt(d, block.parentHashes, i) && block.parentHashes[i] == p
    ensures Judge(c, d, block) == DifficultyNotMet <==>
      && block.hash !in d && (forall p :: p in block.parentHashes ==> p in d)
      && exists i :: 0 <= i < 32 && i < c.zeroBytes(block.difficulty) && block.hash.bytes[i] != 0
  {
    var i := FirstMissing(d, block.parentHashes);
    if i == |block.parentHashes| {
      assert forall p :: p in block.parentHashes ==> p in d;
    } else {
      assert block.parentHashes[i] in block.parentHashes;
    }
  }

  function Initial(genesis: Block): State {
    State(map[genesis.hash := DagNode(genesis, [], 0, true)], [genesis.hash], {genesis.hash})
  }

  /** The new blue set is computed from a tip that is best by the scores under the old one. */
  ghost predicate Recoloured(c: Config, s: State, s': State) {
    exists best :: FirstBest(s'.dag, s.blue, s'.tips, best) && BlueSetOf(EnvOf(s'.dag, c.k), best, {}, DEPTH_LIMIT, s'.blue)
  }

  /** Adding the block in state s may lead to s'. */
  ghost predicate Step(c: Config, s: State, block: Block, s': State) {
    if Judge(c, s.dag, block) == Accepted then
      && s'.dag == Insert(s.dag, block)
      && Enumerates(s'.tips, Childless(s'.dag))
      && Recoloured(c, s, s')
    else s' == s
  }

  /** The blue set was computed from some tip. */
  ghost predicate Coloured(c: Config, s: State) {
    exists tip :: tip in Childless(s.dag) && BlueSetOf(EnvOf(s.dag, c.k), tip, {}, DEPTH_LIMIT, s.blue)
  }

  ghost predicate Invariant(c: Config, s: State) {
    && WellFormed(s.dag)
    && s.tips != [] && Enumerates(s.tips, Childless(s.dag))
    && Coloured(c, s)
  }

  lemma InitialInvariant(c: Config, genesis: Block)
    requires genesis.parentHashes == []
    ensures Invariant(c, Initial(genesis))
  {
    var s := Initial(genesis);
    SingletonWellFormed(genesis);
    assert genesis.hash in Childless(s.dag);
    assert BlueSetOf(EnvOf(s.dag, c.k), genesis.hash, {}, DEPTH_LIMIT, s.blue);
  }

  lemma BestTipIsTip(d: Dag, blue: set<BlockHash>, tips: seq<BlockHash>, best: BlockHash)
    requires FirstBest(d, blue, tips, best)
    ensures best in tips
  {
  }

  lemma StepKeepsInvariant(c: Config, s: State, block: Block, s': State)
    requires Invariant(c, s) && Step(c, s, block, s')
    ensures Invariant(c, s')
  {
    AcceptedIff(c, s.dag, block);
    if Judge(c, s.dag, block) == Accepted {
      InsertKeepsWellFormed(s.dag, block);
      var best :| FirstBest(s'.dag, s.blue, s'.tips, best) && BlueSetOf(EnvOf(s'.dag, c.k), best, {}, DEPTH_LIMIT, s'.blue);
      BestTipIsTip(s'.dag, s.blue, s'.tips, best);
      assert best in Childless(s'.dag);
    }
  }

  /** The parts of an accepted addition make a step. */
  lemma AcceptedStep(c: Config, s: State, block: Block, s': State, best: BlockHash)
    requires Invariant(c, s) && Judge(c, s.dag, block) == Accepted
    requires s'.dag == Insert(s.dag, block) && Enumerates(s'.tips, Childless(s'.dag))
    requires FirstBest(s'.dag, s.blue, s'.tips, best)
    requires BlueSetOf(EnvOf(s'.dag, c.k), best, {}, DEPTH_LIMIT, s'.blue)
    ensures Step(c, s, block, s') && Invariant(c, s')
  {
    StepKeepsInvariant(c, s, block, s');
  }

  /** The states of a run that offers the blocks one after the other. */
  ghost predicate Run(c: Config, genesis: Block, blocks: seq<Block>, states: seq<State>) {
    && |states| == |blocks| + 1
    && states[0] == Initial(genesis)
    && forall i {:trigger blocks[i]} :: 0 <= i < |blocks| ==> Step(c, states[i], blocks[i], states[i + 1])
  }

  /** The invariant holds in every state of every run. */
  lemma {:induction false} RunKeepsInvariant(c: Config, genesis: Block, blocks: seq<Block>, states: seq<State>, i: nat)
    requires genesis.parentHashes == [] && Run(c, genesis, blocks, states) && i < |states|
    ensures Invariant(c, states[i])
  {
    if i == 0 {
      InitialInvariant(c, genesis);
    } else {
      RunKeepsInvariant(c, genesis, blocks, states, i - 1);
      StepKeepsInvariant(c, states[i - 1], blocks[i - 1], states[i]);
    }
  }

  /** So in every reachable state: no block is its own ancestor; parents are known blocks; children
      mirror parents with multiplicity; the tips are the childless blocks, at least one and each once;
      and the blue blocks lie inside the DAG, so there are never more of them than blocks. */
  lemma ReachableStates(c: Config, genesis: Block, blocks: seq<Block>, states: seq<State>, i: nat)
    requires genesis.parentHashes == [] && Run(c, genesis, blocks, states) && i < |states|
    ensures
      var s := states[i];
      && (forall h :: h !in Past(s.dag, h))
      && (forall c, p :: c in s.dag && p in s.dag[c].block.parentHashes ==> p in s.dag)
      && (forall p, c :: p in s.dag && c in s.dag ==>
            Mentions(s.dag[p].children, c) == Mentions(s.dag[c].block.parentHashes, p))
      && s.tips != [] && Enumerates(s.tips, Childless(s.dag))
      && s.blue != {} && s.blue <= s.dag.Keys && |s.blue| <= |s.dag|
  {
    RunKeepsInvariant(c, genesis, blocks, states, i);
    InvariantFacts(c, states[i]);
  }

  lemma BlueInside(c: Config, s: State)
    requires Invariant(c, s)
    ensures s.blue != {} && s.blue <= s.dag.Keys && |s.dag| - |s.blue| == |s.dag.Keys - s.blue|
  {
    var tip :| tip in Childless(s.dag) && BlueSetOf(EnvOf(s.dag, c.k), tip, {}, DEPTH_LIMIT, s.blue);
    BlueInDag(s.dag, c.k, tip, DEPTH_LIMIT, s.blue);
    assert s.dag.Keys == (s.dag.Keys - s.blue) + s.blue;
    assert |s.dag| == |s.dag.Keys|;
  }

  lemma InvariantFacts(c: Config, s: State)
    requires Invariant(c, s)
    ensures forall h :: h !in Past(s.dag, h)
    ensures forall c, p :: c in s.dag && p in s.dag[c].block.parentHashes ==> p in s.dag
    ensures forall p, c :: p in s.dag && c in s.dag ==>
      Mentions(s.dag[p].children, c) == Mentions(s.dag[c].block.parentHashes, p)
    ensures s.blue != {} && s.blue <= s.dag.Keys && |s.blue| <= |s.dag|
  {
    DagIsAcyclic(s.dag);
    forall c, p | c in s.dag && p in s.dag[c].block.parentHashes
      ensures p in s.dag
    {
      assert Edge(Parents(s.dag), c, p);
    }
    forall p, c | p in s.dag && c in s.dag
      ensures Mentions(s.dag[p].children, c) == Mentions(s.dag[c].block.parentHashes, p)
    {
      assert ChildCountExact(s.dag, p, c);
    }
    BlueInside(c, s);
  }

  /** In every reachable state the stored blue set is a true k-cluster, or exactly the blue set of the
      parent chosen for some tip together with that tip. */
  lemma ReachableBlueSet(c: Config, genesis: Block, blocks: seq<Block>, states: seq<State>, i: nat) returns (tip: BlockHash)
    requires genesis.parentHashes == [] && Run(c, genesis, blocks, states) && i < |states|
    ensures tip in Childless(states[i].dag)
    ensures IsKCluster(states[i].dag, c.k, states[i].blue) || PlusTip(states[i].dag, c.k, tip, {}, DEPTH_LIMIT, states[i].blue)
  {
    RunKeepsInvariant(c, genesis, blocks, states, i);
    var s := states[i];
    tip :| tip in Childless(s.dag) && BlueSetOf(EnvOf(s.dag, c.k), tip, {}, DEPTH_LIMIT, s.blue);
    BlueSetDichotomy(s.dag, c.k, tip, {}, DEPTH_LIMIT, s.blue);
  }

  /** And it is a k-cluster exactly when no insertion down the chain of chosen parents did harm. */
  lemma ReachableClusterIff(c: Config, genesis: Block, blocks: seq<Block>, states: seq<State>, i: nat)
      returns (tip: BlockHash, trace: seq<Insertion>)
    requires genesis.parentHashes == [] && Run(c, genesis, blocks, states) && i < |states|
    ensures tip in Childless(states[i].dag)
    ensures IsTrace(states[i].dag, c.k, tip, {}, DEPTH_LIMIT, states[i].blue, trace)
    ensures Decides(states[i].dag, c.k, states[i].blue, trace)
  {
    RunKeepsInvariant(c, genesis, blocks, states, i);
    var s := states[i];
    tip :| tip in Childless(s.dag) && BlueSetOf(EnvOf(s.dag, c.k), tip, {}, DEPTH_LIMIT, s.blue);
    trace := BlueSetHasTrace(s.dag, c.k, tip, {}, DEPTH_LIMIT, s.blue);
    BlueSetClusterIff(s.dag, c.k, tip, {}, DEPTH_LIMIT, s.blue, trace);
  }

  /** As long as no parent path from a tip is as long as the depth limit, the stored blue set holds a chain of
      chosen parents from a tip down to a block without parents. */
  lemma ReachableChain(c: Config, genesis: Block, blocks: seq<Block>, states: seq<State>, i: nat) returns (chain: seq<BlockHash>)
    requires genesis.parentHashes == [] && Run(c, genesis, blocks, states) && i < |states|
    requires forall tip :: tip in Childless(states[i].dag) ==> !WalksOn(Parents(states[i].dag), tip, DEPTH_LIMIT)
    ensures SelectedChain(EnvOf(states[i].dag, c.k), chain, {}, DEPTH_LIMIT) && chain[0] in Childless(states[i].dag)
    ensures forall h :: h in chain ==> h in states[i].blue && h in states[i].dag
    ensures states[i].dag[chain[|chain| - 1]].block.parentHashes == []
  {
    RunKeepsInvariant(c, genesis, blocks, states, i);
    var s := states[i];
    var tip :| tip in Childless(s.dag) && BlueSetOf(EnvOf(s.dag, c.k), tip, {}, DEPTH_LIMIT, s.blue);
    chain := BlueSetReachesRoot(s.dag, c.k, tip, DEPTH_LIMIT, s.blue);
  }

  lemma StepKeepsPast(c: Config, s: State, block: Block, s': State, h: BlockHash)
    requires WellFormed(s.dag) && Step(c, s, block, s') && h in s.dag
    ensures h in s'.dag && Past(s'.dag, h) == Past(s.dag, h)
  {
    AcceptedIff(c, s.dag, block);
    if Judge(c, s.dag, block) == Accepted {
      InsertKeepsPast(s.dag, block, h);
    }
  }

  lemma NextKeepsPast(c: Config, genesis: Block, blocks: seq<Block>, states: seq<State>, i: nat, h: BlockHash)
    requires genesis.parentHashes == [] && Run(c, genesis, blocks, states) && i < |blocks| && h in states[i].dag
    ensures h in states[i + 1].dag && Past(states[i + 1].dag, h) == Past(states[i].dag, h)
  {
    RunStepWellFormed(c, genesis, blocks, states, i);
    StepKeepsPast(c, states[i], blocks[i], states[i + 1], h);
  }

  /** Blocks are never dropped and the past of a block never changes again: two states of a run agree
      on the ancestors of every block of the earlier one. */
  lemma {:induction false} PastIsFinal(c: Config, genesis: Block, blocks: seq<Block>, states: seq<State>, i: nat, j: nat, h: BlockHash)
    requires genesis.parentHashes == [] && Run(c, genesis, blocks, states) && i <= j < |states|
    requires h in states[i].dag
    ensures h in states[j].dag && Past(states[j].dag, h) == Past(states[i].dag, h)
    decreases j
  {
    if i < j {
      PastIsFinal(c, genesis, blocks, states, i, j - 1, h);
      NextKeepsPast(c, genesis, blocks, states, j - 1, h);
    }
  }

  lemma RunStepWellFormed(c: Config, genesis: Block, blocks: seq<Block>, states: seq<State>, i: nat)
    requires genesis.parentHashes == [] && Run(c, genesis, blocks, states) && i < |blocks|
    ensures WellFormed(states[i].dag) && Step(c, states[i], blocks[i], states[i + 1])
  {
    RunKeepsInvariant(c, genesis, blocks, states, i);
  }
}
