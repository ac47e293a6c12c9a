/** The blue set recursion as a relation: the sets it may return for any iteration order of the hash
    sets it walks. The recursion is stated over the parent lists, the test that a set has to pass and the candidate
    blocks it is given; what those are for the block DAG is fixed in module Colouring. */
module BlueSet {
  import opened ByteStrings
  import opened Reachability

  /** Parent lists, the test for a given bound, and the candidates of a block for a given bound. */
  datatype Env = Env(parents: Graph, accepts: nat -> (set<BlockHash> -> bool), candidates: (BlockHash, nat) -> set<BlockHash>)

  // ----- the greedy loop

  /** The first n candidates are offered in the given order; one is kept when the set with it is accepted. */
  ghost function Greedy(accepts: set<BlockHash> -> bool, base: set<BlockHash>, order: seq<BlockHash>, n: nat): set<BlockHash>
    requires n <= |order|
  {
    if n == 0 then base
    else
      var blue := Greedy(accepts, base, order, n - 1);
      if accepts(blue + {order[n - 1]}) then blue + {order[n - 1]} else blue
  }

  /** blue results from offering all the candidates, in some order. */
  ghost predicate Extended(accepts: set<BlockHash> -> bool, candidates: set<BlockHash>, base: set<BlockHash>, blue: set<BlockHash>) {
    exists order :: Enumerates(order, candidates) && blue == Greedy(accepts, base, order, |order|)
  }

  /** The greedy loop only adds candidates, and if it adds any, the set it ends with was accepted. */
  lemma {:induction false} GreedyOutcome(accepts: set<BlockHash> -> bool, base: set<BlockHash>, order: seq<BlockHash>, n: nat)
    requires n <= |order|
    ensures base <= Greedy(accepts, base, order, n)
    ensures forall h :: h in Greedy(accepts, base, order, n) ==> h in base || h in order
    ensures Greedy(accepts, base, order, n) == base || accepts(Greedy(accepts, base, order, n))
  {
    if n > 0 {
      GreedyOutcome(accepts, base, order, n - 1);
    }
  }

  lemma ExtendedOutcome(accepts: set<BlockHash> -> bool, candidates: set<BlockHash>, base: set<BlockHash>, blue: set<BlockHash>)
    requires Extended(accepts, candidates, base, blue)
    ensures base <= blue <= base + candidates
    ensures blue == base || accepts(blue)
  {
    var order :| Enumerates(order, candidates) && blue == Greedy(accepts, base, order, |order|);
    GreedyOutcome(accepts, base, order, |order|);
  }

  /** A candidate that is not in the result was refused: adding it to what was there then failed the test. */
  lemma {:induction false} GreedyRefused(accepts: set<BlockHash> -> bool, base: set<BlockHash>, order: seq<BlockHash>,
                                         n: nat, h: BlockHash) returns (m: set<BlockHash>)
    requires n <= |order| && h in order[..n] && h !in Greedy(accepts, base, order, n)
    ensures base <= m <= Greedy(accepts, base, order, n) && !accepts(m + {h})
  {
    GreedyOutcome(accepts, base, order, n - 1);
    if order[n - 1] == h {
      m := Greedy(accepts, base, order, n - 1);
    } else {
      assert order[..n] == order[..n - 1] + [order[n - 1]];
      m := GreedyRefused(accepts, base, order, n - 1, h);
    }
  }

  lemma ExtendedRefused(accepts: set<BlockHash> -> bool, candidates: set<BlockHash>, base: set<BlockHash>,
                        blue: set<BlockHash>, h: BlockHash) returns (m: set<BlockHash>)
    requires Extended(accepts, candidates, base, blue) && h in candidates && h !in blue
    ensures base <= m <= blue && !accepts(m + {h})
  {
    var order :| Enumerates(order, candidates) && blue == Greedy(accepts, base, order, |order|);
    assert h in order && order[..|order|] == order;
    m := GreedyRefused(accepts, base, order, |order|, h);
  }

  /** When every candidate fails the test, nothing is added. */
  lemma {:induction false} GreedyStays(accepts: set<BlockHash> -> bool, base: set<BlockHash>, order: seq<BlockHash>, n: nat)
    requires n <= |order| && forall h :: h in order ==> h in base || !accepts(base + {h})
    ensures Greedy(accepts, base, order, n) == base
  {
    if n > 0 {
      GreedyStays(accepts, base, order, n - 1);
      assert order[n - 1] in order;
      if order[n - 1] in base {
        assert base + {order[n - 1]} == base;
      }
    }
  }

  lemma {:induction false} GreedyPrefix(accepts: set<BlockHash> -> bool, base: set<BlockHash>, order: seq<BlockHash>, h: BlockHash, n: nat)
    requires n <= |order|
    ensures Greedy(accepts, base, order + [h], n) == Greedy(accepts, base, order, n)
  {
    if n > 0 {
      GreedyPrefix(accepts, base, order, h, n - 1);
    }
  }

  /** The greedy loop in progress: what remains is yet to be offered, order lists what was offered. */
  ghost predicate Offered(accepts: set<BlockHash> -> bool, candidates: set<BlockHash>, base: set<BlockHash>,
                          remaining: set<BlockHash>, order: seq<BlockHash>, blue: set<BlockHash>) {
    && remaining <= candidates && Enumerates(order, candidates - remaining)
    && blue == Greedy(accepts, base, order, |order|)
  }

  lemma OfferedNext(accepts: set<BlockHash> -> bool, candidates: set<BlockHash>, base: set<BlockHash>,
                    remaining: set<BlockHash>, order: seq<BlockHash>, blue: set<BlockHash>, h: BlockHash)
    requires Offered(accepts, candidates, base, remaining, order, blue) && h in remaining
    ensures Offered(accepts, candidates, base, remaining - {h}, order + [h], if accepts(blue + {h}) then blue + {h} else blue)
  {
    EnumeratesMore(order, candidates - remaining, h);
    assert candidates - remaining + {h} == candidates - (remaining - {h});
    GreedyPrefix(accepts, base, order, h, |order|);
  }

  lemma OfferedAll(accepts: set<BlockHash> -> bool, candidates: set<BlockHash>, base: set<BlockHash>, order: seq<BlockHash>, blue: set<BlockHash>)
    requires Offered(accepts, candidates, base, {}, order, blue)
    ensures Extended(accepts, candidates, base, blue)
  {
    assert candidates - {} == candidates;
  }

  // ----- the choice of the parent

  /** Index i holds the first largest set of the family. */
  ghost predicate FirstLargest(family: seq<set<BlockHash>>, i: nat) {
    && i < |family|
    && (forall j :: 0 <= j < |family| ==> |family[j]| <= |family[i]|)
    && (forall j :: 0 <= j < i ==> |family[j]| < |family[i]|)
  }

  // ----- the recursion

  /** The recursion goes on to the parents of the tip. */
  ghost predicate Interior(g: Graph, tip: BlockHash, visited: set<BlockHash>, depth: nat) {
    depth > 0 && tip !in visited && tip in g && g[tip] != []
  }

  /** blue is a set the recursion may return for this tip, visited set and depth. */
  ghost predicate BlueSetOf(env: Env, tip: BlockHash, visited: set<BlockHash>, depth: nat, blue: set<BlockHash>)
    decreases depth, 3
  {
    if !Interior(env.parents, tip, visited, depth) then
      blue == if depth > 0 && tip !in visited && tip in env.parents then {tip} else {}
    else
      exists parent, base ::
        && Chosen(env, tip, visited, depth, parent, base)
        && Extended(env.accepts(depth / 2), env.candidates(tip, depth / 2), base + {tip}, blue)
  }

  /** The recursion may choose this parent, and base is a blue set of it computed for the same
      visited blocks; it need not be the set that was compared, as iteration orders vary. */
  ghost predicate Chosen(env: Env, tip: BlockHash, visited: set<BlockHash>, depth: nat, parent: BlockHash, base: set<BlockHash>)
    requires depth > 0 && tip in env.parents
    decreases depth, 2
  {
    Preferred(env, tip, visited, depth, parent) && BlueSetOf(env, parent, visited + {tip}, depth - 1, base)
  }

  /** For some blue sets of the parents, this parent is the first one whose set is largest. */
  ghost predicate Preferred(env: Env, tip: BlockHash, visited: set<BlockHash>, depth: nat, parent: BlockHash)
    requires depth > 0 && tip in env.parents
    decreases depth, 1
  {
    exists family, i: nat ::
      && FirstLargest(family, i) && |family| == |env.parents[tip]| && parent == env.parents[tip][i]
      && Family(env, env.parents[tip], visited + {tip}, depth - 1, family)
  }

  /** The sets are blue sets of the first listed blocks, one each. */
  ghost predicate Family(env: Env, tips: seq<BlockHash>, visited: set<BlockHash>, depth: nat, family: seq<set<BlockHash>>)
    requires |family| <= |tips|
    decreases depth, 4
  {
    forall j :: 0 <= j < |family| ==> BlueSetOf(env, tips[j], visited, depth, family[j])
  }

  /** The loop over the parents in progress: the blue sets computed so far, and the first largest of them,
      where nothing seen yet counts as size zero at index zero. */
  ghost predicate Choosing(env: Env, tips: seq<BlockHash>, visited: set<BlockHash>, depth: nat,
                           family: seq<set<BlockHash>>, at: nat, best: nat) {
    && |family| <= |tips| && Family(env, tips, visited, depth, family)
    && if family == [] then at == best == 0 else FirstLargest(family, at) && best == |family[at]|
  }

  lemma ChoosingNext(env: Env, tips: seq<BlockHash>, visited: set<BlockHash>, depth: nat,
                     family: seq<set<BlockHash>>, at: nat, best: nat, blue: set<BlockHash>)
    requires |family| < |tips| && Choosing(env, tips, visited, depth, family, at, best)
    requires BlueSetOf(env, tips[|family|], visited, depth, blue)
    ensures if |blue| > best then Choosing(env, tips, visited, depth, family + [blue], |family|, |blue|)
            else Choosing(env, tips, visited, depth, family + [blue], at, best)
  {
    var more := family + [blue];
    forall j | 0 <= j < |more|
      ensures BlueSetOf(env, tips[j], visited, depth, more[j])
    {
      if j < |family| {
        assert more[j] == family[j];
      }
    }
  }

  lemma ChoosingDone(env: Env, tip: BlockHash, visited: set<BlockHash>, depth: nat, family: seq<set<BlockHash>>, at: nat, best: nat)
    requires depth > 0 && tip in env.parents && env.parents[tip] != []
    requires Choosing(env, env.parents[tip], visited + {tip}, depth - 1, family, at, best) && |family| == |env.parents[tip]|
    ensures at < |env.parents[tip]| && Preferred(env, tip, visited, depth, env.parents[tip][at])
  {
  }

  lemma PreferredIsParent(env: Env, tip: BlockHash, visited: set<BlockHash>, depth: nat, parent: BlockHash)
    requires depth > 0 && tip in env.parents && Preferred(env, tip, visited, depth, parent)
    ensures Edge(env.parents, tip, parent)
  {
  }

  /** What preferring a parent means: for some blue sets of the parents, one each, the preferred parent's is at
      least as large as every other and strictly larger than every earlier one. */
  lemma PreferredIsLargest(env: Env, tip: BlockHash, visited: set<BlockHash>, depth: nat, parent: BlockHash)
      returns (family: seq<set<BlockHash>>, at: nat)
    requires depth > 0 && tip in env.parents && Preferred(env, tip, visited, depth, parent)
    ensures |family| == |env.parents[tip]| && at < |family| && env.parents[tip][at] == parent
    ensures forall j :: 0 <= j < |family| ==>
      BlueSetOf(env, env.parents[tip][j], visited + {tip}, depth - 1, family[j]) && |family[j]| <= |family[at]|
    ensures forall j :: 0 <= j < at ==> |family[j]| < |family[at]|
  {
    family, at :|
      && FirstLargest(family, at) && |family| == |env.parents[tip]| && parent == env.parents[tip][at]
      && Family(env, env.parents[tip], visited + {tip}, depth - 1, family);
  }

  /** A blue set is empty exactly when the depth is used up, the tip was visited, or the tip is unknown. */
  lemma BlueSetEmptyIff(env: Env, tip: BlockHash, visited: set<BlockHash>, depth: nat, blue: set<BlockHash>)
    requires BlueSetOf(env, tip, visited, depth, blue)
    ensures blue == {} <==> depth == 0 || tip in visited || tip !in env.parents
    ensures depth > 0 && tip !in visited && tip in env.parents && env.parents[tip] == [] ==> blue == {tip}
  {
    if Interior(env.parents, tip, visited, depth) {
      var parent, base := BlueSetUnwind(env, tip, visited, depth, blue);
      ExtendedOutcome(env.accepts(depth / 2), env.candidates(tip, depth / 2), base + {tip}, blue);
      assert tip in blue;
    }
  }

  /** The last step unwound. */
  lemma BlueSetUnwind(env: Env, tip: BlockHash, visited: set<BlockHash>, depth: nat, blue: set<BlockHash>)
      returns (parent: BlockHash, base: set<BlockHash>)
    requires Interior(env.parents, tip, visited, depth) && BlueSetOf(env, tip, visited, depth, blue)
    ensures Edge(env.parents, tip, parent) && Chosen(env, tip, visited, depth, parent, base)
    ensures BlueSetOf(env, parent, visited + {tip}, depth - 1, base)
    ensures Extended(env.accepts(depth / 2), env.candidates(tip, depth / 2), base + {tip}, blue)
  {
    parent, base :| Chosen(env, tip, visited, depth, parent, base)
      && Extended(env.accepts(depth / 2), env.candidates(tip, depth / 2), base + {tip}, blue);
    PreferredIsParent(env, tip, visited, depth, parent);
  }

  /** Blue sets hold only known blocks, and the tip among them. */
  lemma {:induction false} BlueSetInside(env: Env, tip: BlockHash, visited: set<BlockHash>, depth: nat, blue: set<BlockHash>)
    requires forall h, bound :: env.candidates(h, bound) <= env.parents.Keys
    requires BlueSetOf(env, tip, visited, depth, blue)
    ensures blue <= env.parents.Keys
    ensures depth > 0 && tip in env.parents && tip !in visited ==> tip in blue
    decreases depth
  {
    if Interior(env.parents, tip, visited, depth) {
      var parent, base := BlueSetUnwind(env, tip, visited, depth, blue);
      BlueSetInside(env, parent, visited + {tip}, depth - 1, base);
      ExtendedOutcome(env.accepts(depth / 2), env.candidates(tip, depth / 2), base + {tip}, blue);
    }
  }

  // ----- the visited guard

  /** Every block on the recursion path is a strict descendant of h. */
  ghost predicate AllAbove(g: Graph, visited: set<BlockHash>, h: BlockHash) {
    forall v :: v in visited ==> Reaches(g, v, h)
  }

  lemma NotAboveItself(g: Graph, visited: set<BlockHash>, h: BlockHash)
    requires Acyclic(g) && AllAbove(g, visited, h)
    ensures h !in visited
  {
  }

  /** What holds of the visited set at one call holds at the calls made from it, so a
      block on the recursion path is never met again. */
  lemma GuardNeverFires(g: Graph, visited: set<BlockHash>, tip: BlockHash, parent: BlockHash)
    requires Acyclic(g) && AllAbove(g, visited, tip) && Edge(g, tip, parent)
    ensures tip !in visited
    ensures AllAbove(g, visited + {tip}, parent) && parent !in visited + {tip}
  {
    EdgeReaches(g, tip, parent);
    forall v | v in visited
      ensures Reaches(g, v, parent)
    {
      ReachesTransitive(g, v, tip, parent);
    }
    NotAboveItself(g, visited + {tip}, parent);
  }

  /** The blocks path[0], ..., path[n] are each a parent of the one before. */
  ghost predicate ParentPath(g: Graph, path: seq<BlockHash>, n: nat)
    requires n < |path|
  {
    n == 0 || (ParentPath(g, path, n - 1) && Edge(g, path[n - 1], path[n]))
  }

  /** The visited set of the nth nested call along the path. */
  function VisitedOn(path: seq<BlockHash>, n: nat): set<BlockHash>
    requires n < |path|
  {
    if n == 0 then {} else VisitedOn(path, n - 1) + {path[n - 1]}
  }

  /** So from an empty visited set the guard never fires, in no call along any path and at no depth. */
  lemma {:induction false} GuardNeverFiresOn(g: Graph, path: seq<BlockHash>, n: nat)
    requires Acyclic(g) && n < |path| && ParentPath(g, path, n)
    ensures path[n] !in VisitedOn(path, n) && AllAbove(g, VisitedOn(path, n), path[n])
  {
    if n > 0 {
      GuardNeverFiresOn(g, path, n - 1);
      GuardNeverFires(g, VisitedOn(path, n - 1), path[n - 1], path[n]);
    }
  }

  /** The visited set makes no difference in any call the recursion makes: the blue sets are
      the same for every set of strict descendants, the empty one included. */
  lemma {:induction false} VisitedIrrelevant(env: Env, tip: BlockHash, v: set<BlockHash>, w: set<BlockHash>, depth: nat, blue: set<BlockHash>)
    requires Acyclic(env.parents) && AllAbove(env.parents, v, tip) && AllAbove(env.parents, w, tip)
    requires BlueSetOf(env, tip, v, depth, blue)
    ensures BlueSetOf(env, tip, w, depth, blue)
    decreases depth, 1
  {
    NotAboveItself(env.parents, v, tip);
    NotAboveItself(env.parents, w, tip);
    if Interior(env.parents, tip, v, depth) {
      var parent, base := BlueSetUnwind(env, tip, v, depth, blue);
      PreferenceIgnoresVisited(env, tip, v, w, depth, parent);
      NextIgnoresVisited(env, tip, v, w, depth, parent, base);
      assert Chosen(env, tip, w, depth, parent, base);
    }
  }

  lemma {:induction false} PreferenceIgnoresVisited(env: Env, tip: BlockHash, v: set<BlockHash>, w: set<BlockHash>, depth: nat, parent: BlockHash)
    requires Acyclic(env.parents) && AllAbove(env.parents, v, tip) && AllAbove(env.parents, w, tip)
    requires depth > 0 && tip in env.parents && Preferred(env, tip, v, depth, parent)
    ensures Preferred(env, tip, w, depth, parent)
    decreases depth, 0
  {
    var parents := env.parents[tip];
    var family, i: nat :|
      && FirstLargest(family, i) && |family| == |parents| && parent == parents[i]
      && Family(env, parents, v + {tip}, depth - 1, family);
    forall j | 0 <= j < |family|
      ensures BlueSetOf(env, parents[j], w + {tip}, depth - 1, family[j])
    {
      NextIgnoresVisited(env, tip, v, w, depth, parents[j], family[j]);
    }
  }

  lemma {:induction false} NextIgnoresVisited(env: Env, tip: BlockHash, v: set<BlockHash>, w: set<BlockHash>, depth: nat,
                                              parent: BlockHash, base: set<BlockHash>)
    requires Acyclic(env.parents) && AllAbove(env.parents, v, tip) && AllAbove(env.parents, w, tip)
    requires depth > 0 && Edge(env.parents, tip, parent)
    requires BlueSetOf(env, parent, v + {tip}, depth - 1, base)
    ensures BlueSetOf(env, parent, w + {tip}, depth - 1, base)
    decreases depth - 1, 2
  {
    GuardNeverFires(env.parents, v, tip, parent);
    GuardNeverFires(env.parents, w, tip, parent);
    VisitedIrrelevant(env, parent, v + {tip}, w + {tip}, depth - 1, base);
  }

  // ----- the selected-parent chain

  /** Each block of the chain is followed by a parent the recursion chose for it; the chain ends
      at a block without parents or when the depth is used up. */
  ghost predicate SelectedChain(env: Env, chain: seq<BlockHash>, visited: set<BlockHash>, depth: nat)
    decreases |chain|
  {
    && chain != [] && depth > 0 && chain[0] in env.parents
    && if |chain| == 1 then env.parents[chain[0]] == [] || depth == 1
       else
         && (exists base :: Chosen(env, chain[0], visited, depth, chain[1], base))
         && SelectedChain(env, chain[1..], visited + {chain[0]}, depth - 1)
  }

  lemma ChainCons(env: Env, tip: BlockHash, base: set<BlockHash>, rest: seq<BlockHash>, visited: set<BlockHash>, depth: nat)
    requires depth > 1 && tip in env.parents && SelectedChain(env, rest, visited + {tip}, depth - 1)
    requires Chosen(env, tip, visited, depth, rest[0], base)
    ensures SelectedChain(env, [tip] + rest, visited, depth)
  {
    assert ([tip] + rest)[1..] == rest;
  }

  /** Every blue set contains a whole selected-parent chain from the tip. */
  lemma {:induction false} BlueSetHoldsChain(env: Env, tip: BlockHash, visited: set<BlockHash>, depth: nat, blue: set<BlockHash>)
      returns (chain: seq<BlockHash>)
    requires Acyclic(env.parents) && Closed(env.parents) && AllAbove(env.parents, visited, tip)
    requires depth > 0 && tip in env.parents && BlueSetOf(env, tip, visited, depth, blue)
    ensures SelectedChain(env, chain, visited, depth) && chain[0] == tip
    ensures forall h :: h in chain ==> h in blue
    decreases depth
  {
    NotAboveItself(env.parents, visited, tip);
    chain := [tip];
    if Interior(env.parents, tip, visited, depth) {
      var parent, base := BlueSetUnwind(env, tip, visited, depth, blue);
      ExtendedOutcome(env.accepts(depth / 2), env.candidates(tip, depth / 2), base + {tip}, blue);
      if depth > 1 {
        GuardNeverFires(env.parents, visited, tip, parent);
        var rest := BlueSetHoldsChain(env, parent, visited + {tip}, depth - 1, base);
        ChainCons(env, tip, base, rest, visited, depth);
        chain := [tip] + rest;
      }
    }
  }

  lemma ChainUnfold(env: Env, chain: seq<BlockHash>, visited: set<BlockHash>, depth: nat)
    requires SelectedChain(env, chain, visited, depth) && |chain| > 1
    ensures depth > 1 && Edge(env.parents, chain[0], chain[1])
    ensures SelectedChain(env, chain[1..], visited + {chain[0]}, depth - 1)
  {
    var base :| Chosen(env, chain[0], visited, depth, chain[1], base);
    PreferredIsParent(env, chain[0], visited, depth, chain[1]);
  }

  lemma {:induction false} ChainInside(env: Env, chain: seq<BlockHash>, visited: set<BlockHash>, depth: nat)
    requires SelectedChain(env, chain, visited, depth)
    ensures forall h :: h in chain ==> h in env.parents
    decreases |chain|
  {
    if |chain| > 1 {
      ChainUnfold(env, chain, visited, depth);
      ChainInside(env, chain[1..], visited + {chain[0]}, depth - 1);
      assert forall h :: h in chain ==> h == chain[0] || h in chain[1..];
    }
  }

  /** A selected chain walks parent edges; unless it ends at a block without parents it uses the
      whole depth and could be walked one edge further. */
  lemma {:induction false} ChainEnds(env: Env, chain: seq<BlockHash>, visited: set<BlockHash>, depth: nat)
    requires SelectedChain(env, chain, visited, depth)
    ensures chain[|chain| - 1] in env.parents
    ensures env.parents[chain[|chain| - 1]] == [] || WalksOn(env.parents, chain[0], depth)
    decreases |chain|
  {
    var g := env.parents;
    if |chain| == 1 {
      if g[chain[0]] != [] {
        WalkStart(g, chain[0], g[chain[0]][0]);
      }
    } else {
      ChainUnfold(env, chain, visited, depth);
      ChainEnds(env, chain[1..], visited + {chain[0]}, depth - 1);
      if WalksOn(g, chain[1], depth - 1) {
        WalkLonger(g, chain[0], chain[1], depth - 1);
      }
    }
  }

  /** When the depth exceeds the longest parent path from the tip, the blue set contains a
      selected-parent chain that goes all the way to a block without parents. */
  lemma FullChain(env: Env, tip: BlockHash, depth: nat, blue: set<BlockHash>) returns (chain: seq<BlockHash>)
    requires Acyclic(env.parents) && Closed(env.parents) && tip in env.parents && depth > 0
    requires !WalksOn(env.parents, tip, depth)
    requires BlueSetOf(env, tip, {}, depth, blue)
    ensures SelectedChain(env, chain, {}, depth) && chain[0] == tip
    ensures forall h :: h in chain ==> h in blue && h in env.parents
    ensures env.parents[chain[|chain| - 1]] == []
  {
    chain := BlueSetHoldsChain(env, tip, {}, depth, blue);
    ChainInside(env, chain, {}, depth);
    ChainEnds(env, chain, {}, depth);
  }
}
