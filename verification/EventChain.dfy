/** The global event chain: buffered events become blocks, accepted blocks extend a pruned chain and a cache of
    recent events. */
module EventChain {
  import opened ByteStrings
  import opened Wrappers
  import Difficulty

  /** The hash that a new block starts with. */
  function ZeroHash(): BlockHash {
    BlockHash(Zeros())
  }

  /** It meets the difficulty that blocks are made with, so mining them leaves it. */
  lemma MiningStopsAtOnce()
    ensures Difficulty.Meets(ZeroHash().bytes, 8)
  {
    Difficulty.MeetsEverythingIff(Zeros());
  }

  datatype Block<E> = Block(hash: BlockHash, parent: BlockHash, height: nat, events: seq<E>, timestamp: nat, proposer: string,
                            nonce: nat)

  datatype State<E> = State(chain: seq<Block<E>>, tip: BlockHash, buffer: seq<E>, recent: seq<E>)

  const MAX_BLOCKS: nat := 100
  const MAX_EVENTS: nat := 1000
  const BATCH: nat := 10

  function LastOf<T>(s: seq<T>, n: nat): seq<T> {
    if |s| <= n then s else s[|s| - n..]
  }

  lemma LastOfTwice<T>(s: seq<T>, t: seq<T>, n: nat)
    ensures LastOf(LastOf(s, n) + t, n) == LastOf(s + t, n)
  {
  }

  // ----- the operations on values

  /** A block is accepted only on top of the tip; any other leaves the state as it is. */
  function Added<E>(s: State<E>, b: Block<E>): State<E> {
    if b.parent != s.tip then s
    else State(LastOf(s.chain + [b], MAX_BLOCKS), b.hash, s.buffer, LastOf(s.recent + b.events, MAX_EVENTS))
  }

  /** The block made from the buffer. The initial hash of zeros meets the difficulty, so mining leaves it. */
  function NewBlock<E>(s: State<E>, now: nat, proposer: string): Block<E> {
    Block(ZeroHash(), s.tip, |s.chain|, s.buffer, now, proposer, 0)
  }

  function Created<E>(s: State<E>, now: nat, proposer: string): State<E> {
    if s.buffer == [] then s else Added(s.(buffer := []), NewBlock(s, now, proposer))
  }

  /** The timer's own copy of block creation: it appends without comparing the parent with the tip. */
  function Ticked<E>(s: State<E>, now: nat, proposer: string): State<E> {
    if s.buffer == [] then s
    else
      State(LastOf(s.chain + [NewBlock(s, now, proposer)], MAX_BLOCKS), ZeroHash(), [],
            LastOf(s.recent + s.buffer, MAX_EVENTS))
  }

  lemma TickIsCreate<E>(s: State<E>, now: nat, proposer: string)
    ensures Ticked(s, now, proposer) == Created(s, now, proposer)
  {
  }

  function Buffered<E>(s: State<E>, e: E): State<E> {
    s.(buffer := s.buffer + [e])
  }

  datatype Action<E> =
    | Submit(event: E, now: nat, proposer: string)
    | Create(now: nat, proposer: string)
    | Tick(now: nat, proposer: string)
    | Network(block: Block<E>)

  function Next<E>(s: State<E>, a: Action<E>): State<E> {
    match a
    case Submit(e, now, proposer) =>
      if |s.buffer| + 1 >= BATCH then Created(Buffered(s, e), now, proposer) else Buffered(s, e)
    case Create(now, proposer) => Created(s, now, proposer)
    case Tick(now, proposer) => Ticked(s, now, proposer)
    case Network(b) => Added(s, b)
  }

  // ----- histories

  /** A block offered to the chain, made here or received. */
  datatype Offer<E> = Offer(block: Block<E>, local: bool)

  /** What has happened: the accepted blocks after genesis, and the events submitted here. */
  datatype History<E> = History(accepted: seq<Offer<E>>, submitted: seq<E>)

  /** The block that an action offers, if any. */
  function Offered<E>(s: State<E>, a: Action<E>): seq<Offer<E>> {
    match a
    case Submit(e, now, proposer) =>
      if |s.buffer| + 1 >= BATCH then [Offer(NewBlock(Buffered(s, e), now, proposer), true)] else []
    case Create(now, proposer) => if s.buffer == [] then [] else [Offer(NewBlock(s, now, proposer), true)]
    case Tick(now, proposer) => if s.buffer == [] then [] else [Offer(NewBlock(s, now, proposer), true)]
    case Network(b) => [Offer(b, false)]
  }

  function Recorded<E>(s: State<E>, h: History<E>, a: Action<E>): History<E> {
    var o := Offered(s, a);
    History(if o != [] && o[0].block.parent == s.tip then h.accepted + o else h.accepted,
            if a.Submit? then h.submitted + [a.event] else h.submitted)
  }

  /** The accepted blocks from genesis on. */
  function Blocks<E>(genesis: Block<E>, accepted: seq<Offer<E>>): (r: seq<Block<E>>)
    ensures |r| == |accepted| + 1
  {
    seq(|accepted| + 1, i requires 0 <= i <= |accepted| => if i == 0 then genesis else accepted[i - 1].block)
  }

  /** The events of the accepted blocks, in order; with localOnly those of the blocks made here. */
  function Events<E>(accepted: seq<Offer<E>>, localOnly: bool): seq<E> {
    if accepted == [] then []
    else
      var o := accepted[|accepted| - 1];
      Events(accepted[..|accepted| - 1], localOnly) + if localOnly && !o.local then [] else o.block.events
  }

  function Capped(n: nat): nat {
    if n < MAX_BLOCKS then n else MAX_BLOCKS
  }

  /** A block made here carries one to ten events; its hash is all zeros, and its height stops growing at 100. */
  ghost predicate MadeHere<E>(b: Block<E>, before: nat) {
    b.hash == ZeroHash() && 0 < |b.events| <= BATCH && b.height == Capped(before + 1)
  }

  ghost predicate LocalBlocks<E>(accepted: seq<Offer<E>>) {
    forall i :: 0 <= i < |accepted| && accepted[i].local ==> MadeHere(accepted[i].block, i)
  }

  ghost predicate Linked<E>(blocks: seq<Block<E>>) {
    forall i :: 0 < i < |blocks| ==> blocks[i].parent == blocks[i - 1].hash
  }

  /** The chain is what pruning leaves of the accepted blocks, which are linked, and the tip is its end. */
  ghost predicate ChainFits<E>(genesis: Block<E>, chain: seq<Block<E>>, tip: BlockHash, accepted: seq<Offer<E>>) {
    var blocks := Blocks(genesis, accepted);
    && Linked(blocks) && LocalBlocks(accepted)
    && chain == LastOf(blocks, MAX_BLOCKS)
    && tip == blocks[|blocks| - 1].hash
  }

  /** The cache is what pruning leaves of the accepted events, and no submitted event is lost, repeated or
      reordered on its way through the buffer into the blocks made here. */
  ghost predicate EventsFit<E>(recent: seq<E>, buffer: seq<E>, h: History<E>) {
    && recent == LastOf(Events(h.accepted, false), MAX_EVENTS)
    && h.submitted == Events(h.accepted, true) + buffer
    && |buffer| < BATCH
  }

  ghost predicate Invariant<E>(genesis: Block<E>, s: State<E>, h: History<E>) {
    ChainFits(genesis, s.chain, s.tip, h.accepted) && EventsFit(s.recent, s.buffer, h)
  }

  lemma EventsMore<E>(accepted: seq<Offer<E>>, o: Offer<E>, localOnly: bool)
    ensures Events(accepted + [o], localOnly) ==
      Events(accepted, localOnly) + if localOnly && !o.local then [] else o.block.events
  {
    assert (accepted + [o])[..|accepted|] == accepted;
  }

  lemma AcceptKeepsChain<E>(genesis: Block<E>, chain: seq<Block<E>>, tip: BlockHash, accepted: seq<Offer<E>>, o: Offer<E>)
    requires ChainFits(genesis, chain, tip, accepted) && o.block.parent == tip
    requires o.local ==> MadeHere(o.block, |accepted|)
    ensures ChainFits(genesis, LastOf(chain + [o.block], MAX_BLOCKS), o.block.hash, accepted + [o])
  {
    var blocks := Blocks(genesis, accepted);
    BlocksMore(genesis, accepted, o);
    LinkedMore(blocks, o.block);
    LocalMore(accepted, o);
    LastOfTwice(blocks, [o.block], MAX_BLOCKS);
  }

  lemma BlocksMore<E>(genesis: Block<E>, accepted: seq<Offer<E>>, o: Offer<E>)
    ensures Blocks(genesis, accepted + [o]) == Blocks(genesis, accepted) + [o.block]
  {
  }

  lemma LinkedMore<E>(blocks: seq<Block<E>>, b: Block<E>)
    requires Linked(blocks) && |blocks| > 0 && b.parent == blocks[|blocks| - 1].hash
    ensures Linked(blocks + [b])
  {
  }

  lemma LocalMore<E>(accepted: seq<Offer<E>>, o: Offer<E>)
    requires LocalBlocks(accepted) && (o.local ==> MadeHere(o.block, |accepted|))
    ensures LocalBlocks(accepted + [o])
  {
  }

  /** Accepting one block, with the events that are left in the buffer afterwards. */
  lemma AcceptKeepsInvariant<E>(genesis: Block<E>, s: State<E>, h: History<E>, o: Offer<E>, buffer: seq<E>,
                                submitted: seq<E>)
    requires Invariant(genesis, s, h) && o.block.parent == s.tip && |buffer| < BATCH
    requires o.local ==> MadeHere(o.block, |h.accepted|)
    requires submitted == Events(h.accepted, true) + (if o.local then o.block.events else []) + buffer
    ensures Invariant(genesis, Added(s, o.block).(buffer := buffer), History(h.accepted + [o], submitted))
  {
    AcceptKeepsChain(genesis, s.chain, s.tip, h.accepted, o);
    EventsMore(h.accepted, o, false);
    EventsMore(h.accepted, o, true);
    LastOfTwice(Events(h.accepted, false), o.block.events, MAX_EVENTS);
  }

  /** Making a block from the buffer and what was just submitted to it. */
  lemma CreateKeepsInvariant<E>(genesis: Block<E>, s: State<E>, h: History<E>, added: seq<E>, now: nat, proposer: string)
    requires Invariant(genesis, s, h) && 0 < |s.buffer + added| <= BATCH
    ensures
      var t := s.(buffer := s.buffer + added);
      Invariant(genesis, Created(t, now, proposer),
                History(h.accepted + [Offer(NewBlock(t, now, proposer), true)], h.submitted + added))
  {
    var b := NewBlock(s.(buffer := s.buffer + added), now, proposer);
    InvariantFacts(genesis, s, h);
    CreatedIsAdded(s, s.buffer + added, now, proposer);
    Regrouped(h.submitted, Events(h.accepted, true), s.buffer, added);
    AcceptKeepsInvariant(genesis, s, h, Offer(b, true), [], h.submitted + added);
  }

  lemma Regrouped<T>(all: seq<T>, front: seq<T>, back: seq<T>, more: seq<T>)
    requires all == front + back
    ensures all + more == front + (back + more) + []
  {
  }

  /** Adding a block does not look at the buffer. */
  lemma CreatedIsAdded<E>(s: State<E>, buffer: seq<E>, now: nat, proposer: string)
    requires buffer != []
    ensures
      var t := s.(buffer := buffer);
      Created(t, now, proposer) == Added(s, NewBlock(t, now, proposer)).(buffer := [])
  {
  }

  lemma InvariantFacts<E>(genesis: Block<E>, s: State<E>, h: History<E>)
    requires Invariant(genesis, s, h)
    ensures |s.chain| == Capped(|h.accepted| + 1) > 0
  {
  }

  lemma SubmitKeepsInvariant<E>(genesis: Block<E>, s: State<E>, h: History<E>, a: Action<E>)
    requires Invariant(genesis, s, h) && a.Submit?
    ensures Invariant(genesis, Next(s, a), Recorded(s, h, a))
  {
    if |s.buffer| + 1 >= BATCH {
      CreateKeepsInvariant(genesis, s, h, [a.event], a.now, a.proposer);
    } else {
      assert h.submitted + [a.event] == Events(h.accepted, true) + (s.buffer + [a.event]);
    }
  }

  lemma BufferKeepsInvariant<E>(genesis: Block<E>, s: State<E>, h: History<E>, a: Action<E>)
    requires Invariant(genesis, s, h) && (a.Create? || a.Tick?)
    ensures Invariant(genesis, Next(s, a), Recorded(s, h, a))
  {
    TickIsCreate(s, a.now, a.proposer);
    if s.buffer != [] {
      assert s.buffer + [] == s.buffer && h.submitted + [] == h.submitted && s.(buffer := s.buffer) == s;
      CreateKeepsInvariant(genesis, s, h, [], a.now, a.proposer);
    }
  }

  lemma Unmoved<T>(all: seq<T>, front: seq<T>, back: seq<T>)
    requires all == front + back
    ensures all == front + [] + back
  {
    assert front + [] == front;
  }

  lemma NetworkAccepted<E>(s: State<E>, h: History<E>, b: Block<E>)
    requires b.parent == s.tip
    ensures Recorded(s, h, Network(b)) == History(h.accepted + [Offer(b, false)], h.submitted)
    ensures Next(s, Network(b)) == Added(s, b).(buffer := s.buffer)
  {
  }

  lemma NetworkKeepsInvariant<E>(genesis: Block<E>, s: State<E>, h: History<E>, b: Block<E>)
    requires Invariant(genesis, s, h)
    ensures Invariant(genesis, Next(s, Network(b)), Recorded(s, h, Network(b)))
  {
    if b.parent == s.tip {
      NetworkAccepted(s, h, b);
      Unmoved(h.submitted, Events(h.accepted, true), s.buffer);
      AcceptKeepsInvariant(genesis, s, h, Offer(b, false), s.buffer, h.submitted);
    }
  }

  lemma StepKeepsInvariant<E>(genesis: Block<E>, s: State<E>, h: History<E>, a: Action<E>)
    requires Invariant(genesis, s, h)
    ensures Invariant(genesis, Next(s, a), Recorded(s, h, a))
  {
    match a
    case Submit(_, _, _) => SubmitKeepsInvariant(genesis, s, h, a);
    case Create(_, _) => BufferKeepsInvariant(genesis, s, h, a);
    case Tick(_, _) => BufferKeepsInvariant(genesis, s, h, a);
    case Network(b) => NetworkKeepsInvariant(genesis, s, h, b);
  }

  datatype World<E> = World(state: State<E>, history: History<E>)

  /** The world after the first n actions of a run from genesis. */
  function After<E>(genesis: Block<E>, actions: seq<Action<E>>, n: nat): World<E>
    requires n <= |actions|
  {
    if n == 0 then World(State([genesis], genesis.hash, [], []), History([], []))
    else
      var w := After(genesis, actions, n - 1);
      World(Next(w.state, actions[n - 1]), Recorded(w.state, w.history, actions[n - 1]))
  }

  /** Every state of every run satisfies the invariant. */
  lemma {:induction false} RunKeepsInvariant<E>(genesis: Block<E>, actions: seq<Action<E>>, n: nat)
    requires n <= |actions|
    ensures var w := After(genesis, actions, n); Invariant(genesis, w.state, w.history)
  {
    if n == 0 {
      StartsInvariant(genesis);
    } else {
      RunKeepsInvariant(genesis, actions, n - 1);
      var w := After(genesis, actions, n - 1);
      StepKeepsInvariant(genesis, w.state, w.history, actions[n - 1]);
    }
  }

  lemma StartsInvariant<E>(genesis: Block<E>)
    ensures Invariant(genesis, State([genesis], genesis.hash, [], []), History([], []))
  {
    assert Blocks(genesis, []) == [genesis];
  }

  /** What readers of the state can rely on in every run: a bounded, linked chain that ends at the tip, a bounded
      cache, and fewer than ten submitted events that are not yet in a block of the chain's history. */
  lemma RunFacts<E>(genesis: Block<E>, actions: seq<Action<E>>, n: nat)
    requires n <= |actions|
    ensures var w := After(genesis, actions, n); var s, h := w.state, w.history;
      && |s.chain| == (if |h.accepted| < 100 then |h.accepted| + 1 else 100)
      && Linked(s.chain) && s.tip == s.chain[|s.chain| - 1].hash
      && |s.recent| <= 1000
      && Events(h.accepted, true) <= h.submitted && |h.submitted| < |Events(h.accepted, true)| + 10
  {
    RunKeepsInvariant(genesis, actions, n);
    var w := After(genesis, actions, n);
    LastOfLinked(Blocks(genesis, w.history.accepted), MAX_BLOCKS);
  }

  lemma LastOfLinked<E>(blocks: seq<Block<E>>, n: nat)
    requires Linked(blocks) && n > 0 && |blocks| > 0
    ensures Linked(LastOf(blocks, n)) && LastOf(blocks, n)[|LastOf(blocks, n)| - 1] == blocks[|blocks| - 1]
  {
  }

  lemma {:induction false} AllLocal<E>(accepted: seq<Offer<E>>)
    requires forall i :: 0 <= i < |accepted| ==> accepted[i].local
    ensures Events(accepted, true) == Events(accepted, false)
  {
    if accepted != [] {
      AllLocal(accepted[..|accepted| - 1]);
    }
  }

  /** While no block of the network has been accepted, the cache is the end of what was submitted, up to the buffer. */
  lemma RecentIsSubmitted<E>(genesis: Block<E>, actions: seq<Action<E>>, n: nat)
    requires n <= |actions|
    requires var h := After(genesis, actions, n).history; forall i :: 0 <= i < |h.accepted| ==> h.accepted[i].local
    ensures var w := After(genesis, actions, n);
      && |w.state.buffer| <= |w.history.submitted|
      && w.state.recent == LastOf(w.history.submitted[..|w.history.submitted| - |w.state.buffer|], MAX_EVENTS)
  {
    RunKeepsInvariant(genesis, actions, n);
    var w := After(genesis, actions, n);
    AllLocal(w.history.accepted);
    assert w.history.submitted[..|w.history.submitted| - |w.state.buffer|] == Events(w.history.accepted, true);
  }

  // ----- the object

  class GlobalEventChain<E(==)> {
    var chain: seq<Block<E>>
    var tip: BlockHash
    var eventBuffer: seq<E>
    var recentEvents: seq<E>
    ghost const genesis: Block<E>
    ghost var history: History<E>

    ghost function Contents(): State<E>
      reads this
    {
      State(chain, tip, eventBuffer, recentEvents)
    }

    ghost predicate Valid()
      reads this
    {
      Invariant(genesis, Contents(), history)
    }

    constructor (hash: BlockHash, timestamp: nat)
      ensures Valid() && history == History([], [])
      ensures genesis == Block(hash, ZeroHash(), 0, [], timestamp, "genesis", 0)
      ensures Contents() == State([genesis], hash, [], [])
    {
      var block: Block<E> := Block(hash, ZeroHash(), 0, [], timestamp, "genesis", 0);
      genesis, history := block, History([], []);
      chain, tip, eventBuffer, recentEvents := [block], hash, [], [];
      new;
      StartsInvariant(genesis);
    }

    method SubmitEvent(event: E, now: nat, proposer: string)
      requires Valid()
      modifies this
      ensures Valid()
      ensures Contents() == Next(old(Contents()), Submit(event, now, proposer))
      ensures history == Recorded(old(Contents()), old(history), Submit(event, now, proposer))
      ensures |old(eventBuffer)| < 9 ==> eventBuffer == old(eventBuffer) + [event] && chain == old(chain)
      ensures |old(eventBuffer)| == 9 ==> eventBuffer == [] && |chain| > 0
      ensures |old(eventBuffer)| == 9 ==> chain[|chain| - 1].events == old(eventBuffer) + [event]
    {
      ghost var a := Submit(event, now, proposer);
      StepKeepsInvariant(genesis, Contents(), history, a);
      InvariantFacts(genesis, Contents(), history);
      history := Recorded(Contents(), history, a);
      eventBuffer := eventBuffer + [event];
      if |eventBuffer| >= BATCH {
        CreateBlock(now, proposer);
      }
    }

    /** Takes the whole buffer into a block on the tip; an empty buffer makes no block. */
    method CreateBlock(now: nat, proposer: string)
      requires |chain| > 0
      modifies `chain, `tip, `eventBuffer, `recentEvents
      ensures Contents() == Created(old(Contents()), now, proposer)
      ensures old(eventBuffer) == [] ==> Contents() == old(Contents())
      ensures old(eventBuffer) != [] ==> eventBuffer == [] && |chain| > 0
      ensures old(eventBuffer) != [] ==>
        chain[|chain| - 1] == Block(ZeroHash(), old(tip), old(|chain|), old(eventBuffer), now, proposer, 0)
    {
      if |eventBuffer| == 0 {
        return;
      }
      var events := eventBuffer;
      eventBuffer := [];
      var parentHeight := |chain| - 1;
      AddBlock(Block(ZeroHash(), tip, parentHeight + 1, events, now, proposer, 0));
    }

    /** Validates the parent, appends, prunes the chain, moves the tip, and extends and prunes the cache. */
    method AddBlock(block: Block<E>)
      modifies `chain, `tip, `recentEvents
      ensures Contents() == Added(old(Contents()), block)
      ensures block.parent != old(tip) ==> Contents() == old(Contents())
      ensures block.parent == old(tip) ==> tip == block.hash && |chain| > 0 && chain[|chain| - 1] == block
    {
      if block.parent != tip {
        return;
      }
      PushPruned(block);
      tip := block.hash;
      CacheEvents(block.events);
    }

    method PushPruned(block: Block<E>)
      modifies `chain
      ensures chain == LastOf(old(chain) + [block], MAX_BLOCKS)
    {
      chain := chain + [block];
      if |chain| > 100 {
        var removeCount := |chain| - 100;
        chain := chain[removeCount..];
      }
    }

    method CacheEvents(events: seq<E>)
      modifies `recentEvents
      ensures recentEvents == LastOf(old(recentEvents) + events, MAX_EVENTS)
    {
      for i := 0 to |events|
        invariant recentEvents == old(recentEvents) + events[..i]
      {
        recentEvents := recentEvents + [events[i]];
      }
      assert events[..|events|] == events;
      if |recentEvents| > MAX_EVENTS {
        var removeCount := |recentEvents| - MAX_EVENTS;
        recentEvents := recentEvents[removeCount..];
      }
    }

    /** One tick of the background processor, which builds and appends its block on its own. */
    method ProcessTick(now: nat, proposer: string)
      requires Valid()
      modifies this
      ensures Valid()
      ensures Contents() == Next(old(Contents()), Tick(now, proposer))
      ensures history == Recorded(old(Contents()), old(history), Tick(now, proposer))
    {
      ghost var a := Tick(now, proposer);
      StepKeepsInvariant(genesis, Contents(), history, a);
      InvariantFacts(genesis, Contents(), history);
      history := Recorded(Contents(), history, a);
      DrainBuffer(now, proposer);
    }

    method DrainBuffer(now: nat, proposer: string)
      requires |chain| > 0
      modifies `chain, `tip, `eventBuffer, `recentEvents
      ensures Contents() == Ticked(old(Contents()), now, proposer)
    {
      if |eventBuffer| != 0 {
        var events := eventBuffer;
        eventBuffer := [];
        var parentHeight := |chain| - 1;
        var block := Block(ZeroHash(), tip, parentHeight + 1, events, now, proposer, 0);
        PushPruned(block);
        tip := block.hash;
        CacheEvents(block.events);
      }
    }

    /** A received block: data that does not decode is an error and changes nothing, a wrong parent is ignored. */
    method HandleNetworkBlock(decoded: Option<Block<E>>) returns (ok: bool)
      requires Valid()
      modifies this
      ensures Valid() && ok == decoded.Some?
      ensures ok ==> Contents() == Next(old(Contents()), Network(decoded.value))
      ensures ok ==> history == Recorded(old(Contents()), old(history), Network(decoded.value))
      ensures (!ok || decoded.value.parent != old(tip)) ==> Contents() == old(Contents()) && history == old(history)
    {
      if decoded.None? {
        return false;
      }
      ReceiveBlock(decoded.value);
      return true;
    }

    method ReceiveBlock(block: Block<E>)
      requires Valid()
      modifies this
      ensures Valid()
      ensures Contents() == Next(old(Contents()), Network(block))
      ensures history == Recorded(old(Contents()), old(history), Network(block))
    {
      ghost var a := Network(block);
      StepKeepsInvariant(genesis, Contents(), history, a);
      history := Recorded(Contents(), history, a);
      AddBlock(block);
    }

    method GetHeight() returns (height: nat)
      requires Valid()
      ensures height == Capped(|history.accepted| + 1) - 1
    {
      height := |chain| - 1;
    }

    /** The last events, at most count of them and at most a thousand. */
    method GetRecentEvents(count: nat) returns (events: seq<E>)
      requires Valid()
      ensures events == LastOf(Events(history.accepted, false), if count < 1000 then count else 1000)
    {
      var total := |recentEvents|;
      if count >= total {
        return recentEvents;
      } else {
        return recentEvents[total - count..];
      }
    }

    /** The window always starts at zero: the cache has been pruned already. */
    method GetEventWindow() returns (first: nat, end: nat)
      requires Valid()
      ensures first == 0 && end == |recentEvents|
    {
      first := if |recentEvents| >= MAX_EVENTS then |recentEvents| - MAX_EVENTS else 0;
      end := |recentEvents|;
    }
  }
}
