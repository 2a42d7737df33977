/** `findArbitrage`: the graph built from the store, and what a path it finds is worth. */
module Arbitrage {
  import opened Evm
  import opened Protocol
  import opened Pricing
  import opened SwapGraph
  import opened TradeSizing

  // ---- weights ----

  /** What is used of the logarithm: products become sums, and the order is kept. */
  ghost predicate IsLogarithm(log: real -> real) {
    && (forall x, y :: x > 0.0 && y > 0.0 ==> log(x * y) == log(x) + log(y))
    && (forall x, y :: 0.0 < x <= y ==> log(x) <= log(y))
  }

  /** The records that become edges. */
  predicate Usable(p: PairRecord) {
    !p.error && p.fee >= 0
  }

  /** Usable records have two tokens, filled reserves and a fee below the whole. */
  ghost predicate StoreSound(pairs: map<Address, PairRecord>) {
    forall a :: a in pairs ==> pairs[a].address == a && (Usable(pairs[a]) ==> Live(pairs[a]))
  }

  /** The edge from token0 to token1 when `forward`, back otherwise. */
  function EdgeOf(p: PairRecord, forward: bool, log: real -> real): SwapEdge
    requires p.reserve0 > 0 && p.reserve1 > 0
  {
    var from, to := if forward then p.token0 else p.token1, if forward then p.token1 else p.token0;
    SwapEdge(Key(p.address, if forward then '+' else '-'), p.address, from, to, -log(Rate(p, from)))
  }

  /** Every edge belongs to a usable record of the store. */
  ghost predicate FromStore(pairs: map<Address, PairRecord>, edges: Edges, log: real -> real)
    requires StoreSound(pairs)
  {
    forall k :: k in edges ==> IsStoreEdge(pairs, edges[k], log)
  }

  ghost predicate IsStoreEdge(pairs: map<Address, PairRecord>, e: SwapEdge, log: real -> real)
    requires StoreSound(pairs)
  {
    && e.pair in pairs && Usable(pairs[e.pair])
    && (e == EdgeOf(pairs[e.pair], true, log) || e == EdgeOf(pairs[e.pair], false, log))
  }

  /** Both edges of every usable record are in the graph, and their ends are vertices. */
  ghost predicate Complete(pairs: map<Address, PairRecord>, keys: set<Address>, edges: Edges, distances: Distances,
                           log: real -> real)
    requires StoreSound(pairs) && keys <= pairs.Keys
  {
    forall a, forward :: a in keys && Usable(pairs[a]) ==>
      var e := EdgeOf(pairs[a], forward, log);
      e.key in edges && edges[e.key] == e && e.from in distances && e.to in distances
  }

  lemma AddedEdges(edges: Edges, plus: SwapEdge, minus: SwapEdge)
    ensures WithEdges(edges, [plus, minus]) == edges[plus.key := plus][minus.key := minus]
  {
    assert [plus, minus][..1] == [plus] && [plus][..0] == [];
    assert WithEdges(edges, [plus]) == edges[plus.key := plus];
  }

  lemma SkipKeeps(pairs: map<Address, PairRecord>, keys: set<Address>, address: Address, edges: Edges,
                  distances: Distances, log: real -> real)
    requires StoreSound(pairs) && keys <= pairs.Keys && address in keys && !Usable(pairs[address])
    requires Complete(pairs, keys - {address}, edges, distances, log)
    ensures Complete(pairs, keys, edges, distances, log)
  {
  }

  lemma MoreVerticesKeep(pairs: map<Address, PairRecord>, edges: Edges, distances: Distances, distances': Distances,
                         log: real -> real)
    requires StoreSound(pairs) && distances.Keys <= distances'.Keys
    requires Complete(pairs, pairs.Keys, edges, distances, log)
    ensures Complete(pairs, pairs.Keys, edges, distances', log)
  {
  }

  lemma AddKeeps(pairs: map<Address, PairRecord>, keys: set<Address>, address: Address,
                 edges: Edges, distances: Distances, edges': Edges, distances': Distances, log: real -> real)
    requires StoreSound(pairs) && keys <= pairs.Keys && address in keys && Usable(pairs[address])
    requires FromStore(pairs, edges, log) && Complete(pairs, keys - {address}, edges, distances, log)
    requires var plus, minus := EdgeOf(pairs[address], true, log), EdgeOf(pairs[address], false, log);
      edges' == edges[plus.key := plus][minus.key := minus]
    requires distances'.Keys == distances.Keys + {pairs[address].token0, pairs[address].token1}
    ensures FromStore(pairs, edges', log) && Complete(pairs, keys, edges', distances', log)
  {
    hide Rate;
    forall a, forward | a in keys && Usable(pairs[a])
      ensures var e := EdgeOf(pairs[a], forward, log);
        e.key in edges' && edges'[e.key] == e && e.from in distances' && e.to in distances'
    {
      if a != address {
        assert a in keys - {address};
      }
    }
  }

  method FindArbitrage(pairs: map<Address, PairRecord>, weth: Address, log: real -> real)
    returns (path: seq<Address>, g: Graph, ghost cycle: seq<SwapEdge>)
    requires StoreSound(pairs)
    ensures path == PairsOf(cycle) && |path| <= 10
    ensures FromStore(pairs, g.edges, log) && Complete(pairs, pairs.Keys, g.edges, g.distances, log)
    ensures cycle != [] ==>
      NegativeCycle(g.edges, weth, cycle) && ClosesBest(weth, g.distances, g.edges, cycle[0])
    ensures path == [] ==>
      NothingCloses(weth, g.distances, g.edges) || LostOnTheWay(weth, g.distances, g.preedges, g.edges)
    ensures Keyed(g.edges)
    ensures cycle != [] && IsLogarithm(log) ==> IsArbitrage(pairs, weth, cycle, log)
  {
    g := new Graph();
    var rest := pairs.Keys;
    while rest != {}
      invariant rest <= pairs.Keys && fresh(g) && g.Fresh()
      invariant FromStore(pairs, g.edges, log)
      invariant Complete(pairs, pairs.Keys - rest, g.edges, g.distances, log)
      decreases rest
    {
      hide FromStore, Complete, Rate;
      var address :| address in rest;
      rest := rest - {address};
      var pair := pairs[address];
      if pair.error || pair.fee < 0 {
        SkipKeeps(pairs, pairs.Keys - rest, address, g.edges, g.distances, log);
        continue;
      }
      ghost var edges, distances := g.edges, g.distances;
      var plus, minus := EdgeOf(pair, true, log), EdgeOf(pair, false, log);
      g.AddVertices([pair.token0, pair.token1]);
      g.AddEdges([plus, minus]);
      AddedEdges(edges, plus, minus);
      AddKeeps(pairs, pairs.Keys - rest, address, edges, distances, g.edges, g.distances, log);
    }
    assert pairs.Keys - rest == pairs.Keys;
    ghost var built := g.distances;
    g.FreshIsReady(weth);
    path, cycle := g.FindCircle(weth);
    MoreVerticesKeep(pairs, g.edges, built, g.distances, log);
    if cycle != [] && IsLogarithm(log) {
      hide IsLogarithm, IsArbitrage, FromStore, NegativeCycle;
      CycleIsArbitrage(pairs, g.edges, weth, cycle, log);
    }
  }

  /** The graph has an edge in each direction for exactly the records without error mark and with a fee. */
  lemma EdgesAreUsableRecords(pairs: map<Address, PairRecord>, edges: Edges, distances: Distances, log: real -> real,
                              a: Address, sign: char)
    requires StoreSound(pairs) && Keyed(edges)
    requires FromStore(pairs, edges, log) && Complete(pairs, pairs.Keys, edges, distances, log)
    ensures Key(a, sign) in edges <==>
      a in pairs && !pairs[a].error && pairs[a].fee >= 0 && (sign == '+' || sign == '-')
  {
    hide Rate;
    if a in pairs && Usable(pairs[a]) {
      assert EdgeOf(pairs[a], true, log).key in edges && EdgeOf(pairs[a], false, log).key in edges;
    }
    if Key(a, sign) in edges {
      assert IsStoreEdge(pairs, edges[Key(a, sign)], log);
    }
  }

  // ---- what a cycle is worth ----

  /** A negative cycle made of store edges. */
  ghost predicate IsArbitrage(pairs: map<Address, PairRecord>, weth: Address, cycle: seq<SwapEdge>, log: real -> real)
    requires StoreSound(pairs)
  {
    && IsLogarithm(log)
    && (forall i :: 0 <= i < |cycle| ==> IsStoreEdge(pairs, cycle[i], log))
    && (exists edges :: NegativeCycle(edges, weth, cycle))
  }

  lemma CycleIsArbitrage(pairs: map<Address, PairRecord>, edges: Edges, weth: Address, cycle: seq<SwapEdge>,
                         log: real -> real)
    requires StoreSound(pairs) && IsLogarithm(log)
    requires FromStore(pairs, edges, log) && NegativeCycle(edges, weth, cycle)
    ensures IsArbitrage(pairs, weth, cycle, log)
  {
    hide IsStoreEdge, IsLogarithm;
    forall i | 0 <= i < |cycle|
      ensures IsStoreEdge(pairs, cycle[i], log)
    {
      assert IsStoreEdge(pairs, edges[cycle[i].key], log);
    }
  }

  /** The two edges of a pair never gain on each other: their rates multiply to less than 1. */
  lemma ThereAndBackLoses(p: PairRecord, log: real -> real)
    requires Live(p) && IsLogarithm(log)
    ensures EdgeOf(p, true, log).distance + EdgeOf(p, false, log).distance >= 0.0
  {
    hide Rate, HopPool;
    HopRate(p, p.token0);
    HopRate(p, p.token1);
    var there, back := Rate(p, p.token0), Rate(p, p.token1);
    RatesInvert(p);
    LogOfProduct(log, there, back, there * back);
    LogAtMostZero(log, there * back);
  }

  lemma LogAtMostZero(log: real -> real, x: real)
    requires IsLogarithm(log) && 0.0 < x <= 1.0
    ensures log(x) <= 0.0
  {
    LogOfOne(log);
    assert log(x) <= log(1.0);
  }

  lemma LogOfOne(log: real -> real)
    requires IsLogarithm(log)
    ensures log(1.0) == 0.0
  {
    assert log(1.0 * 1.0) == log(1.0) + log(1.0);
  }

  lemma RatesInvert(p: PairRecord)
    requires Live(p)
    ensures Rate(p, p.token0) * Rate(p, p.token1) <= 1.0
  {
    var r0, r1, kept := p.reserve0 as real, p.reserve1 as real, FEE_BASE - p.fee as real;
    var q, r := r1 / r0, r0 / r1;
    DivTimes(r1, r0);
    DivTimes(r0, r1);
    InverseQuotients(q, r, r0, r1);
    var there, back := q * kept / FEE_BASE, r * kept / FEE_BASE;
    DivTimes(q * kept, FEE_BASE);
    DivTimes(r * kept, FEE_BASE);
    assert there * FEE_BASE * (back * FEE_BASE) == there * back * (FEE_BASE * FEE_BASE);
    assert q * kept * (r * kept) == q * r * (kept * kept);
    MulMonotoneReal(kept, FEE_BASE, kept);
    MulMonotoneReal(kept, FEE_BASE, FEE_BASE);
    AtMostOne(there * back, FEE_BASE * FEE_BASE);
  }

  lemma InverseQuotients(q: real, r: real, r0: real, r1: real)
    requires r0 > 0.0 && r1 > 0.0 && q * r0 == r1 && r * r1 == r0
    ensures q * r == 1.0
  {
    assert q * r * r1 == q * r0;
    CancelEqual(q * r, 1.0, r1);
  }

  lemma AtMostOne(x: real, c: real)
    requires c > 0.0 && x * c <= c
    ensures x <= 1.0
  {
    if x > 1.0 {
      MulPositive(x - 1.0, c);
    }
  }

  lemma CancelEqual(x: real, y: real, c: real)
    requires c > 0.0 && x * c == y * c
    ensures x == y
  {
    if x < y {
      MulPositive(y - x, c);
    } else if y < x {
      MulPositive(x - y, c);
    }
  }

  /** A returned cycle uses no pair twice: the two edges of one pair could only meet in a cycle of two
      hops, and that would not be negative. */
  lemma NoPairTwice(pairs: map<Address, PairRecord>, weth: Address, cycle: seq<SwapEdge>, log: real -> real)
    requires StoreSound(pairs) && IsArbitrage(pairs, weth, cycle, log)
    ensures forall i, j :: 0 <= i < j < |cycle| ==> cycle[i].pair != cycle[j].pair
  {
    var edges :| NegativeCycle(edges, weth, cycle);
    forall i, j | 0 <= i < j < |cycle|
      ensures cycle[i].pair != cycle[j].pair
    {
      if cycle[i].pair == cycle[j].pair {
        SamePairMeansReturn(pairs, edges, weth, cycle, log, i, j);
        ThereAndBackLoses(pairs[cycle[i].pair], log);
      }
    }
  }

  lemma BackStep(edges: Edges, source: Address, cycle: seq<SwapEdge>, i: nat)
    requires Backwards(edges, source, cycle) && i < |cycle|
    ensures i > 0 ==> cycle[i].to == cycle[i - 1].from
    ensures i == 0 ==> cycle[i].to == source
  {
  }

  lemma SamePairMeansReturn(pairs: map<Address, PairRecord>, edges: Edges, weth: Address, cycle: seq<SwapEdge>,
                            log: real -> real, i: nat, j: nat)
    requires StoreSound(pairs) && SimpleCycle(edges, weth, cycle)
    requires forall k :: 0 <= k < |cycle| ==> IsStoreEdge(pairs, cycle[k], log)
    requires i < j < |cycle| && cycle[i].pair == cycle[j].pair
    ensures |cycle| == 2 && cycle[i].pair in pairs
    ensures var p := pairs[cycle[i].pair];
      Usable(p) && Total(cycle) == EdgeOf(p, true, log).distance + EdgeOf(p, false, log).distance
  {
    hide Rate;
    assert IsStoreEdge(pairs, cycle[i], log) && IsStoreEdge(pairs, cycle[j], log);
    assert cycle[i].from == cycle[j].to && cycle[i].to == cycle[j].from;
    BackStep(edges, weth, cycle, i);
    BackStep(edges, weth, cycle, j);
    assert i == j - 1 && i == 0 && j == |cycle| - 1;
    TotalOfTwo(cycle);
  }

  lemma TotalOfTwo(cycle: seq<SwapEdge>)
    requires |cycle| == 2
    ensures Total(cycle) == cycle[0].distance + cycle[1].distance
  {
    assert cycle[..1][..0] == [];
    assert Total(cycle[..1]) == cycle[0].distance;
  }

  // ---- the reversed path ----

  lemma CycleIsInStore(pairs: map<Address, PairRecord>, cycle: seq<SwapEdge>, log: real -> real)
    requires StoreSound(pairs) && forall i :: 0 <= i < |cycle| ==> IsStoreEdge(pairs, cycle[i], log)
    ensures forall i :: 0 <= i < |cycle| ==> PairsOf(cycle)[i] in pairs
  {
    assert forall i :: 0 <= i < |cycle| ==> IsStoreEdge(pairs, cycle[i], log);
  }

  /** Reversed and looked up, the cycle is a chain of live pairs. */
  lemma {:induction false} ReversalChains(pairs: map<Address, PairRecord>, edges: Edges, weth: Address,
                                          cycle: seq<SwapEdge>, log: real -> real)
    requires StoreSound(pairs) && Backwards(edges, weth, cycle)
    requires forall i :: 0 <= i < |cycle| ==> IsStoreEdge(pairs, cycle[i], log)
    requires forall i :: 0 <= i < |cycle| ==> PairsOf(cycle)[i] in pairs
    ensures var path := Lookup(pairs, PairsOf(cycle));
      AllLive(path) && Chains(if cycle == [] then weth else cycle[|cycle| - 1].from, path, weth)
    decreases cycle
  {
    hide Rate;
    var path := Lookup(pairs, PairsOf(cycle));
    if cycle != [] {
      var init, last := cycle[..|cycle| - 1], cycle[|cycle| - 1];
      ReversalSplits(pairs, cycle, log);
      BackStep(edges, weth, cycle, |cycle| - 1);
      ReversalChains(pairs, edges, weth, init, log);
    }
  }

  lemma ReversalSplits(pairs: map<Address, PairRecord>, cycle: seq<SwapEdge>, log: real -> real)
    requires StoreSound(pairs) && cycle != []
    requires forall i :: 0 <= i < |cycle| ==> IsStoreEdge(pairs, cycle[i], log)
    requires forall i :: 0 <= i < |cycle| ==> PairsOf(cycle)[i] in pairs
    ensures var init, last := cycle[..|cycle| - 1], cycle[|cycle| - 1];
      && (forall i :: 0 <= i < |init| ==> IsStoreEdge(pairs, init[i], log))
      && (forall i :: 0 <= i < |init| ==> PairsOf(init)[i] in pairs)
      && last.pair in pairs && Live(pairs[last.pair])
      && Lookup(pairs, PairsOf(cycle)) == [pairs[last.pair]] + Lookup(pairs, PairsOf(init))
      && (pairs[last.pair].token0 == last.from || pairs[last.pair].token1 == last.from)
      && Exit(pairs[last.pair], last.from) == last.to
      && last.distance == -log(Rate(pairs[last.pair], last.from))
  {
    hide Rate;
    var init, last := cycle[..|cycle| - 1], cycle[|cycle| - 1];
    assert IsStoreEdge(pairs, last, log);
    assert forall i :: 0 <= i < |init| ==> init[i] == cycle[i];
    CycleIsInStore(pairs, init, log);
  }

  /** The rates along the reversed cycle carry its weight. */
  lemma {:induction false} ReversalRate(pairs: map<Address, PairRecord>, edges: Edges, weth: Address,
                                        cycle: seq<SwapEdge>, log: real -> real)
    requires StoreSound(pairs) && IsLogarithm(log) && Backwards(edges, weth, cycle)
    requires forall i :: 0 <= i < |cycle| ==> IsStoreEdge(pairs, cycle[i], log)
    requires forall i :: 0 <= i < |cycle| ==> PairsOf(cycle)[i] in pairs
    ensures var path := Lookup(pairs, PairsOf(cycle));
      var from := if cycle == [] then weth else cycle[|cycle| - 1].from;
      AllLive(path) && PathRate(from, path) > 0.0 && log(PathRate(from, path)) == -Total(cycle)
    decreases cycle
  {
    hide IsStoreEdge, IsLogarithm, Rate, Chains;
    ReversalChains(pairs, edges, weth, cycle, log);
    if cycle == [] {
      LogOfOne(log);
    } else {
      var init, last := cycle[..|cycle| - 1], cycle[|cycle| - 1];
      ReversalSplits(pairs, cycle, log);
      BackStep(edges, weth, cycle, |cycle| - 1);
      ReversalRate(pairs, edges, weth, init, log);
      var p, rest := pairs[last.pair], Lookup(pairs, PairsOf(init));
      HopRate(p, last.from);
      var path := Lookup(pairs, PairsOf(cycle));
      assert path[0] == p && path[1..] == rest;
      var rate, later, whole := Rate(p, last.from), PathRate(last.to, rest), PathRate(last.from, path);
      LogOfProduct(log, rate, later, whole);
    }
  }

  lemma LogOfProduct(log: real -> real, x: real, y: real, z: real)
    requires IsLogarithm(log) && x > 0.0 && y > 0.0 && z == x * y
    ensures z > 0.0 && log(z) == log(x) + log(y)
  {
    MulPositive(x, y);
    assert log(x * y) == log(x) + log(y);
  }

  lemma LogPositive(log: real -> real, x: real)
    requires IsLogarithm(log) && x > 0.0 && log(x) > 0.0
    ensures x > 1.0
  {
    LogOfOne(log);
    assert x <= 1.0 ==> log(x) <= log(1.0);
  }

  /** A path found by `findArbitrage`, reversed by `tryTrade`, always leads from WETH back to WETH
      through live pairs, and the product of its post-fee spot rates exceeds 1. */
  lemma FoundPathPays(pairs: map<Address, PairRecord>, weth: Address, cycle: seq<SwapEdge>, log: real -> real)
    requires StoreSound(pairs) && IsArbitrage(pairs, weth, cycle, log)
    ensures forall i :: 0 <= i < |cycle| ==> PairsOf(cycle)[i] in pairs
    ensures var path := Lookup(pairs, PairsOf(cycle));
      && path != [] && AllLive(path) && Chains(weth, path, weth)
      && PathRate(weth, path) > 1.0
  {
    var edges :| NegativeCycle(edges, weth, cycle);
    CycleIsInStore(pairs, cycle, log);
    ReversalChains(pairs, edges, weth, cycle, log);
    ReversalRate(pairs, edges, weth, cycle, log);
    LogPositive(log, PathRate(weth, Lookup(pairs, PairsOf(cycle))));
  }

  /** Before gas, every path found makes a profit for some amount. */
  lemma FoundPathProfits(pairs: map<Address, PairRecord>, weth: Address, cycle: seq<SwapEdge>, log: real -> real)
    returns (x: real)
    requires StoreSound(pairs) && IsArbitrage(pairs, weth, cycle, log)
    ensures forall i :: 0 <= i < |cycle| ==> PairsOf(cycle)[i] in pairs
    ensures AllLive(Lookup(pairs, PairsOf(cycle)))
    ensures x > 0.0 && AmountsOut(weth, x, Lookup(pairs, PairsOf(cycle))) > x
  {
    FoundPathPays(pairs, weth, cycle, log);
    x := RateAboveOnePays(weth, Lookup(pairs, PairsOf(cycle)));
  }
}
