/** The cycle finder: five rounds of in-place relaxation in any edge order, then at most ten steps
    back along predecessor edges. */
module SwapGraph {
  import opened Evm
  import opened Walks

  /** An edge key: the pair's address followed by a sign. */
  datatype Key = Key(address: Address, sign: char)

  datatype SwapEdge = SwapEdge(key: Key, pair: Address, from: Address, to: Address, distance: real)

  type Distances = map<Address, Dist>
  type Edges = map<Key, SwapEdge>

  // ---- what relaxation keeps ----

  ghost predicate Keyed(edges: Edges) {
    forall k :: k in edges ==> edges[k].key == k
  }

  function ArcOf(e: SwapEdge): Arc {
    Arc(e.from, e.to, e.distance)
  }

  /** The edge table after some edges are added; a later edge replaces one with its key. */
  function WithEdges(edges: Edges, added: seq<SwapEdge>): Edges
    decreases added
  {
    if added == [] then edges else
      var last := added[|added| - 1];
      WithEdges(edges, added[..|added| - 1])[last.key := last]
  }

  /** The arcs that relaxation looks at: both ends have been added as vertices. */
  ghost function ArcsOf(edges: Edges, vertices: set<Address>): set<Arc> {
    set k | k in edges && edges[k].from in vertices && edges[k].to in vertices :: ArcOf(edges[k])
  }

  /** Every reached vertex but the source was reached along an edge that still accounts for its
      distance: relaxing the edge's origin again can only have left slack. */
  ghost predicate Traced(source: Address, distances: Distances, preedges: map<Address, Key>, edges: Edges) {
    && source in distances && distances[source].At?
    && (forall v :: v in distances && distances[v].At? && v != source ==> v in preedges)
    && (forall v :: v in preedges ==> TracedAt(distances, preedges, edges, v))
  }

  ghost predicate TracedAt(distances: Distances, preedges: map<Address, Key>, edges: Edges, v: Address)
    requires v in preedges
  {
    && preedges[v] in edges
    && var e := edges[preedges[v]];
    && e.to == v && v in distances && distances[v].At?
    && e.from in distances && distances[e.from].At?
    && distances[e.from].d + e.distance <= distances[v].d
  }

  /** Every distance is the weight of a walk from the source. */
  ghost predicate Walked(source: Address, distances: Distances, arcs: set<Arc>) {
    forall v :: v in distances && distances[v].At? ==>
      exists p :: IsWalk(arcs, source, v, p) && Weight(p) == distances[v].d
  }

  /** No walk of at most `rounds` arcs is shorter than the distance found. */
  ghost predicate Covers(source: Address, distances: Distances, arcs: set<Arc>, rounds: nat) {
    forall v, p :: v in distances && IsWalk(arcs, source, v, p) && |p| <= rounds ==> distances[v].AtMost(Weight(p))
  }

  /** `e` cannot improve on `distances` any more, counting from the distances `before`. */
  ghost predicate Relaxed(before: Distances, distances: Distances, e: SwapEdge) {
    e.from in before && e.to in distances && before[e.from].At? ==>
      distances[e.to].AtMost(before[e.from].d + e.distance)
  }

  ghost predicate NoFarther(before: Distances, distances: Distances) {
    && distances.Keys == before.Keys
    && forall v :: v in before && before[v].At? ==> distances[v].AtMost(before[v].d)
  }

  /** Every edge whose key is not in `rest` has been relaxed. */
  ghost predicate RelaxedBut(before: Distances, distances: Distances, edges: Edges, rest: set<Key>) {
    forall k :: k in edges && k !in rest ==> Relaxed(before, distances, edges[k])
  }

  /** Later relaxations undo nothing. */
  lemma TurnOfRound(before: Distances, mid: Distances, after: Distances, edges: Edges, rest: set<Key>, key: Key)
    requires NoFarther(before, mid) && NoFarther(mid, after) && key in edges
    requires RelaxedBut(before, mid, edges, rest) && Relaxed(mid, after, edges[key])
    ensures NoFarther(before, after) && RelaxedBut(before, after, edges, rest - {key})
  {
    forall k | k in edges && k !in rest - {key}
      ensures Relaxed(before, after, edges[k])
    {
      if k != key {
        assert Relaxed(before, mid, edges[k]);
      }
    }
  }

  lemma RelaxKeepsTraced(source: Address, distances: Distances, preedges: map<Address, Key>, edges: Edges, key: Key)
    requires Traced(source, distances, preedges, edges) && key in edges
    requires edges[key].from in distances && edges[key].to in distances
    requires distances[edges[key].from].Plus(edges[key].distance).Less(distances[edges[key].to])
    ensures var e := edges[key];
      Traced(source, distances[e.to := distances[e.from].Plus(e.distance)], preedges[e.to := key], edges)
  {
    var e := edges[key];
    var distances', preedges' := distances[e.to := distances[e.from].Plus(e.distance)], preedges[e.to := key];
    forall v | v in preedges'
      ensures TracedAt(distances', preedges', edges, v)
    {
      if v != e.to {
        assert TracedAt(distances, preedges, edges, v);
      }
    }
  }

  lemma RelaxKeepsWalked(source: Address, distances: Distances, arcs: set<Arc>, e: SwapEdge)
    requires Walked(source, distances, arcs) && ArcOf(e) in arcs
    requires e.from in distances && e.to in distances && distances[e.from].At?
    ensures Walked(source, distances[e.to := distances[e.from].Plus(e.distance)], arcs)
  {
    var p :| IsWalk(arcs, source, e.from, p) && Weight(p) == distances[e.from].d;
    ExtendWalk(arcs, source, p, ArcOf(e));
  }

  /** A round that relaxed every edge reaches one arc farther, whatever the order. */
  lemma RoundCovers(source: Address, before: Distances, distances: Distances, edges: Edges, rounds: nat)
    requires Covers(source, before, ArcsOf(edges, before.Keys), rounds) && NoFarther(before, distances)
    requires forall k :: k in edges ==> Relaxed(before, distances, edges[k])
    ensures Covers(source, distances, ArcsOf(edges, distances.Keys), rounds + 1)
  {
    var arcs := ArcsOf(edges, before.Keys);
    forall v, p | v in distances && IsWalk(arcs, source, v, p) && |p| <= rounds + 1
      ensures distances[v].AtMost(Weight(p))
    {
      if |p| <= rounds {
        assert before[v].AtMost(Weight(p));
      } else {
        var last, init := p[|p| - 1], p[..|p| - 1];
        var k :| k in edges && ArcOf(edges[k]) == last && edges[k].from in before && edges[k].to in before;
        assert before[edges[k].from].AtMost(Weight(init));
        assert Relaxed(before, distances, edges[k]);
      }
    }
  }

  /** A round without a change reaches as far as any number of rounds. */
  lemma {:induction false} FixpointCovers(source: Address, distances: Distances, edges: Edges, rounds: nat, more: nat)
    requires Covers(source, distances, ArcsOf(edges, distances.Keys), rounds)
    requires forall k :: k in edges ==> Relaxed(distances, distances, edges[k])
    ensures Covers(source, distances, ArcsOf(edges, distances.Keys), rounds + more)
    decreases more
  {
    if more > 0 {
      FixpointCovers(source, distances, edges, rounds, more - 1);
      RoundCovers(source, distances, distances, edges, rounds + more - 1);
    }
  }

  // ---- cycles, from the source backwards ----

  ghost function Total(cycle: seq<SwapEdge>): real {
    if cycle == [] then 0.0 else Total(cycle[..|cycle| - 1]) + cycle[|cycle| - 1].distance
  }

  /** Edges of the graph, each ending where the one before starts; the first ends in `source`. */
  ghost predicate Backwards(edges: Edges, source: Address, cycle: seq<SwapEdge>) {
    && (forall i :: 0 <= i < |cycle| ==> cycle[i].key in edges && edges[cycle[i].key] == cycle[i])
    && (cycle != [] ==> cycle[0].to == source)
    && (forall i, j :: 0 <= i && j == i + 1 < |cycle| ==> cycle[j].to == cycle[i].from)
  }

  /** Only the last edge starts in `source`, and where an edge leads back to determines the next. */
  ghost predicate Determined(source: Address, cycle: seq<SwapEdge>) {
    && (forall i :: 0 <= i < |cycle| - 1 ==> cycle[i].from != source)
    && (forall i, j :: 0 <= i < |cycle| - 1 && 0 <= j < |cycle| - 1 && cycle[i].from == cycle[j].from ==>
          cycle[i + 1] == cycle[j + 1])
  }

  /** A cycle through `source` that repeats no vertex. */
  ghost predicate SimpleCycle(edges: Edges, source: Address, cycle: seq<SwapEdge>) {
    && cycle != [] && Backwards(edges, source, cycle)
    && cycle[|cycle| - 1].from == source
    && (forall i, j :: 0 <= i < j < |cycle| ==> cycle[i].from != cycle[j].from)
  }

  ghost predicate NegativeCycle(edges: Edges, source: Address, cycle: seq<SwapEdge>) {
    SimpleCycle(edges, source, cycle) && Total(cycle) < 0.0
  }

  /** Two visits of one vertex would have to go on alike for ever. */
  lemma {:induction false} VisitsCoincide(source: Address, cycle: seq<SwapEdge>, i: nat, j: nat, steps: nat)
    requires Determined(source, cycle) && i < j && j + steps < |cycle| && cycle[i].from == cycle[j].from
    ensures cycle[i + steps].from == cycle[j + steps].from
    decreases steps
  {
    if steps > 0 {
      VisitsCoincide(source, cycle, i, j, steps - 1);
    }
  }

  lemma SourceComesLast(source: Address, cycle: seq<SwapEdge>, i: nat)
    requires Determined(source, cycle) && i < |cycle| && cycle[i].from == source
    ensures i == |cycle| - 1
  {
  }

  lemma NoVertexTwice(source: Address, cycle: seq<SwapEdge>)
    requires Determined(source, cycle) && cycle != [] && cycle[|cycle| - 1].from == source
    ensures forall i, j :: 0 <= i < j < |cycle| ==> cycle[i].from != cycle[j].from
  {
    hide Determined;
    forall i: nat, j: nat | i < j < |cycle|
      ensures cycle[i].from != cycle[j].from
    {
      if cycle[i].from == cycle[j].from {
        var steps := |cycle| - 1 - j;
        VisitsCoincide(source, cycle, i, j, steps);
        SourceComesLast(source, cycle, i + steps);
      }
    }
  }

  /** The arcs of a cycle in the direction of travel: the last edge found comes first. */
  ghost function Forward(cycle: seq<SwapEdge>): seq<Arc>
    decreases cycle
  {
    if cycle == [] then [] else [ArcOf(cycle[|cycle| - 1])] + Forward(cycle[..|cycle| - 1])
  }

  /** What `FindCircle` returns is, read backwards, a closed walk of negative weight. */
  lemma {:induction false} CycleIsClosedWalk(edges: Edges, source: Address, cycle: seq<SwapEdge>,
                                             vertices: set<Address>)
    requires Backwards(edges, source, cycle)
    requires forall i :: 0 <= i < |cycle| ==> cycle[i].from in vertices && cycle[i].to in vertices
    ensures IsWalk(ArcsOf(edges, vertices), if cycle == [] then source else cycle[|cycle| - 1].from, source,
                   Forward(cycle))
    ensures Weight(Forward(cycle)) == Total(cycle)
    decreases cycle
  {
    if cycle != [] {
      var init, last := cycle[..|cycle| - 1], cycle[|cycle| - 1];
      CycleIsClosedWalk(edges, source, init, vertices);
      var arcs := ArcsOf(edges, vertices);
      assert ArcOf(edges[last.key]) in arcs;
      assert IsWalk(arcs, last.from, last.from, []);
      ExtendWalk(arcs, last.from, [], ArcOf(last));
      assert [] + [ArcOf(last)] == [ArcOf(last)];
      JoinWalks(arcs, last.from, last.to, source, [ArcOf(last)], Forward(init));
    }
  }

  ghost predicate ClosedWalkBelowZero(arcs: set<Arc>, source: Address, p: seq<Arc>) {
    IsWalk(arcs, source, source, p) && Weight(p) < 0.0
  }

  /** The search for the edge that closes the cycle: nothing yet, or the best so far. */
  datatype MinEdge = NoEdge | Found(edge: SwapEdge, distance: real)

  /** `e` ends in the source and would still lower its distance. */
  ghost predicate Closes(source: Address, distances: Distances, edges: Edges, e: SwapEdge) {
    && e.key in edges && edges[e.key] == e && e.to == source
    && source in distances && e.from in distances
    && distances[e.from].Plus(e.distance).Less(distances[source])
  }

  /** `e` closes, and no edge that closes would lower the distance of the source further. */
  ghost predicate ClosesBest(source: Address, distances: Distances, edges: Edges, e: SwapEdge) {
    && Closes(source, distances, edges, e)
    && forall k :: k in edges && Closes(source, distances, edges, edges[k]) ==>
         distances[e.from].d + e.distance <= distances[edges[k].from].d + edges[k].distance
  }

  /** Each edge is the recorded predecessor edge of where the edge before it starts. */
  ghost predicate Linked(preedges: map<Address, Key>, edges: Edges, cycle: seq<SwapEdge>) {
    forall i, j :: 0 <= i && j == i + 1 < |cycle| ==> IsPredecessor(preedges, edges, cycle[i], cycle[j])
  }

  ghost predicate IsPredecessor(preedges: map<Address, Key>, edges: Edges, e: SwapEdge, previous: SwapEdge) {
    e.from in preedges && preedges[e.from] in edges && previous == edges[preedges[e.from]]
  }

  ghost predicate AwayFrom(source: Address, cycle: seq<SwapEdge>) {
    forall i :: 0 <= i < |cycle| ==> cycle[i].from != source
  }

  /** The distance of where the walk stands plus its weight is less than the source's distance. */
  ghost predicate Undercuts(source: Address, distances: Distances, cycle: seq<SwapEdge>) {
    cycle != [] ==>
      var here := cycle[|cycle| - 1].from;
      && here in distances && distances[here].At?
      && source in distances && distances[source].At? && distances[here].d + Total(cycle) < distances[source].d
  }

  ghost predicate Inside(distances: Distances, cycle: seq<SwapEdge>) {
    forall i :: 0 <= i < |cycle| ==> cycle[i].from in distances && cycle[i].to in distances
  }

  /** The walk back so far: the closing edge, then predecessor edges, none of which starts in the
      source. */
  ghost predicate WalkingBack(source: Address, distances: Distances, preedges: map<Address, Key>, edges: Edges,
                              cycle: seq<SwapEdge>)
  {
    && Backwards(edges, source, cycle)
    && Linked(preedges, edges, cycle)
    && AwayFrom(source, cycle)
    && Undercuts(source, distances, cycle)
    && Inside(distances, cycle)
  }

  /** No edge would lower the source's own distance. */
  ghost predicate NothingCloses(source: Address, distances: Distances, edges: Edges) {
    forall k :: k in edges ==> !Closes(source, distances, edges, edges[k])
  }

  /** Ten steps back did not reach the source. */
  ghost predicate LostOnTheWay(source: Address, distances: Distances, preedges: map<Address, Key>, edges: Edges) {
    exists cycle :: |cycle| == 10 && WalkingBack(source, distances, preedges, edges, cycle)
  }

  /** `edge` is where the walk back goes next. */
  ghost predicate Follows(source: Address, distances: Distances, preedges: map<Address, Key>, edges: Edges,
                          cycle: seq<SwapEdge>, edge: SwapEdge)
  {
    if cycle == [] then Closes(source, distances, edges, edge)
    else
      var here := cycle[|cycle| - 1].from;
      here in preedges && preedges[here] in edges && edge == edges[preedges[here]]
  }

  lemma StepUndercuts(source: Address, distances: Distances, preedges: map<Address, Key>, edges: Edges,
                      cycle: seq<SwapEdge>, edge: SwapEdge)
    requires Traced(source, distances, preedges, edges) && Undercuts(source, distances, cycle)
    requires Follows(source, distances, preedges, edges, cycle, edge)
    ensures Undercuts(source, distances, cycle + [edge])
  {
    var longer := cycle + [edge];
    assert longer[..|longer| - 1] == cycle;
    if cycle != [] {
      assert TracedAt(distances, preedges, edges, cycle[|cycle| - 1].from);
    }
  }

  lemma StepStaysInside(source: Address, distances: Distances, preedges: map<Address, Key>, edges: Edges,
                        cycle: seq<SwapEdge>, edge: SwapEdge)
    requires Traced(source, distances, preedges, edges) && Inside(distances, cycle)
    requires Follows(source, distances, preedges, edges, cycle, edge)
    ensures Inside(distances, cycle + [edge])
  {
    if cycle != [] {
      assert TracedAt(distances, preedges, edges, cycle[|cycle| - 1].from);
    }
  }

  lemma StepIsBackwards(source: Address, distances: Distances, preedges: map<Address, Key>, edges: Edges,
                        cycle: seq<SwapEdge>, edge: SwapEdge)
    requires Keyed(edges) && Traced(source, distances, preedges, edges)
    requires Backwards(edges, source, cycle) && Linked(preedges, edges, cycle)
    requires Follows(source, distances, preedges, edges, cycle, edge)
    ensures Backwards(edges, source, cycle + [edge]) && Linked(preedges, edges, cycle + [edge])
  {
    var longer := cycle + [edge];
    if cycle != [] {
      assert TracedAt(distances, preedges, edges, cycle[|cycle| - 1].from);
    }
    forall i, j | 0 <= i && j == i + 1 < |longer|
      ensures IsPredecessor(preedges, edges, longer[i], longer[j])
    {
      if j < |cycle| {
        assert IsPredecessor(preedges, edges, cycle[i], cycle[j]);
      }
    }
  }

  lemma LinkedIsDetermined(source: Address, preedges: map<Address, Key>, edges: Edges, cycle: seq<SwapEdge>,
                           edge: SwapEdge)
    requires AwayFrom(source, cycle) && Linked(preedges, edges, cycle + [edge])
    ensures Determined(source, cycle + [edge])
  {
    var longer := cycle + [edge];
    forall i, j | 0 <= i < |longer| - 1 && 0 <= j < |longer| - 1 && longer[i].from == longer[j].from
      ensures longer[i + 1] == longer[j + 1]
    {
      var i', j' := i + 1, j + 1;
      assert IsPredecessor(preedges, edges, longer[i], longer[i']);
      assert IsPredecessor(preedges, edges, longer[j], longer[j']);
    }
  }

  lemma StartBack(source: Address, distances: Distances, preedges: map<Address, Key>, edges: Edges, edge: SwapEdge)
    requires Closes(source, distances, edges, edge)
    ensures WalkingBack(source, distances, preedges, edges, []) && Follows(source, distances, preedges, edges, [], edge)
  {
  }

  /** One step back never meets a missing predecessor, and closes the cycle if it reaches the source. */
  lemma StepBack(source: Address, distances: Distances, preedges: map<Address, Key>, edges: Edges,
                 cycle: seq<SwapEdge>, edge: SwapEdge)
    requires Keyed(edges) && Traced(source, distances, preedges, edges)
    requires WalkingBack(source, distances, preedges, edges, cycle)
    requires Follows(source, distances, preedges, edges, cycle, edge)
    ensures var longer := cycle + [edge];
      if edge.from == source then NegativeCycle(edges, source, longer) && Inside(distances, longer)
      else
        && WalkingBack(source, distances, preedges, edges, longer)
        && edge.from in preedges && preedges[edge.from] in edges
        && Follows(source, distances, preedges, edges, longer, edges[preedges[edge.from]])
  {
    hide Backwards, Linked, Determined, Total;
    StepStaysInside(source, distances, preedges, edges, cycle, edge);
    StepUndercuts(source, distances, preedges, edges, cycle, edge);
    StepIsBackwards(source, distances, preedges, edges, cycle, edge);
    if edge.from == source {
      LinkedIsDetermined(source, preedges, edges, cycle, edge);
      NoVertexTwice(source, cycle + [edge]);
    } else {
      assert TracedAt(distances, preedges, edges, edge.from);
    }
  }

  lemma CycleRunsBelowZero(source: Address, distances: Distances, edges: Edges, cycle: seq<SwapEdge>)
    requires NegativeCycle(edges, source, cycle) && Inside(distances, cycle)
    ensures ClosedWalkBelowZero(ArcsOf(edges, distances.Keys), source, Forward(cycle))
  {
    CycleIsClosedWalk(edges, source, cycle, distances.Keys);
  }

  function PairsOf(cycle: seq<SwapEdge>): seq<Address> {
    seq(|cycle|, i requires 0 <= i < |cycle| => cycle[i].pair)
  }

  class Graph {
    var distances: Distances
    var preedges: map<Address, Key>
    var edges: Edges

    /** A graph on which no search has run; every search of the monitor uses a new one. */
    ghost predicate Fresh()
      reads this
    {
      && preedges == map[]
      && (forall v :: v in distances ==> distances[v] == Unreached)
      && Keyed(edges)
    }

    /** A graph on which a search from `source` may start: what is left of earlier searches still
        accounts for its distances once the source is at zero. */
    ghost predicate Ready(source: Address)
      reads this
    {
      var start := distances[source := At(0.0)];
      && Keyed(edges)
      && Traced(source, start, preedges, edges)
      && Walked(source, start, ArcsOf(edges, start.Keys))
    }

    lemma FreshIsReady(source: Address)
      requires Fresh()
      ensures Ready(source)
    {
      var start := distances[source := At(0.0)];
      assert IsWalk(ArcsOf(edges, start.Keys), source, source, []) && Weight([]) == 0.0;
    }

    constructor ()
      ensures Fresh() && distances == map[] && edges == map[]
    {
      distances, preedges, edges := map[], map[], map[];
    }

    method AddVertices(vertices: seq<Address>)
      modifies this`distances
      ensures distances == old(distances) + (map v | v in vertices :: Unreached)
      ensures old(Fresh()) ==> Fresh()
    {
      for i := 0 to |vertices|
        invariant distances == old(distances) + (map v | v in vertices[..i] :: Unreached)
      {
        distances := distances[vertices[i] := Unreached];
        assert vertices[..i + 1] == vertices[..i] + [vertices[i]];
      }
      assert vertices[..|vertices|] == vertices;
    }

    method AddEdges(added: seq<SwapEdge>)
      modifies this`edges
      ensures edges == WithEdges(old(edges), added)
      ensures old(Fresh()) ==> Fresh()
    {
      for n := 0 to |added|
        invariant edges == WithEdges(old(edges), added[..n])
        invariant old(Fresh()) ==> Fresh()
      {
        edges := edges[added[n].key := added[n]];
        assert added[..n + 1][..n] == added[..n];
      }
      assert added[..|added|] == added;
    }

    /** Relaxes one edge, in place. */
    method Relax(source: Address, key: Key) returns (change: bool)
      requires Keyed(edges) && key in edges && Traced(source, distances, preedges, edges)
      requires Walked(source, distances, ArcsOf(edges, distances.Keys))
      modifies this`distances, this`preedges
      ensures Traced(source, distances, preedges, edges)
      ensures Walked(source, distances, ArcsOf(edges, distances.Keys))
      ensures distances.Keys == old(distances).Keys && NoFarther(old(distances), distances)
      ensures Relaxed(old(distances), distances, edges[key])
      ensures !change ==> distances == old(distances)
    {
      hide TracedAt, IsWalk, Weight;
      var e := edges[key];
      if e.from !in distances || e.to !in distances {
        return false;
      }
      var newDist := distances[e.from].Plus(e.distance);
      if newDist.Less(distances[e.to]) {
        RelaxKeepsTraced(source, distances, preedges, edges, key);
        assert ArcOf(e) in ArcsOf(edges, distances.Keys);
        RelaxKeepsWalked(source, distances, ArcsOf(edges, distances.Keys), e);
        distances := distances[e.to := newDist];
        preedges := preedges[e.to := e.key];
        assert distances.Keys == old(distances).Keys;
        return true;
      }
      return false;
    }

    /** Relaxes every edge once, in any order. */
    method Round(source: Address) returns (change: bool)
      requires Keyed(edges) && Traced(source, distances, preedges, edges)
      requires Walked(source, distances, ArcsOf(edges, distances.Keys))
      modifies this`distances, this`preedges
      ensures Traced(source, distances, preedges, edges)
      ensures Walked(source, distances, ArcsOf(edges, distances.Keys))
      ensures distances.Keys == old(distances).Keys && NoFarther(old(distances), distances)
      ensures forall k :: k in edges ==> Relaxed(old(distances), distances, edges[k])
      ensures !change ==> distances == old(distances)
    {
      change := false;
      var rest := edges.Keys;
      while rest != {}
        invariant rest <= edges.Keys
        invariant Traced(source, distances, preedges, edges)
        invariant Walked(source, distances, ArcsOf(edges, distances.Keys))
        invariant distances.Keys == old(distances).Keys && NoFarther(old(distances), distances)
        invariant RelaxedBut(old(distances), distances, edges, rest)
        invariant !change ==> distances == old(distances)
        decreases rest
      {
        hide Traced, Walked, ArcsOf, Relaxed, RelaxedBut, NoFarther;
        var key :| key in rest;
        ghost var mid, before := distances, rest;
        rest := rest - {key};
        var changed := Relax(source, key);
        TurnOfRound(old(distances), mid, distances, edges, before, key);
        change := change || changed;
      }
    }

    /** At most five rounds. Each distance is then the weight of a walk from the source and no larger
        than that of any walk of up to five edges. */
    method BellmanFord(source: Address)
      requires Ready(source)
      modifies this`distances, this`preedges
      ensures distances.Keys == old(distances).Keys + {source}
      ensures Traced(source, distances, preedges, edges)
      ensures Walked(source, distances, ArcsOf(edges, distances.Keys))
      ensures Covers(source, distances, ArcsOf(edges, distances.Keys), 5)
    {
      distances := distances[source := At(0.0)];
      assert IsWalk(ArcsOf(edges, distances.Keys), source, source, []) && Weight([]) == 0.0;
      var i := 0;
      while i < 5
        invariant 0 <= i <= 5
        invariant distances.Keys == old(distances).Keys + {source}
        invariant Traced(source, distances, preedges, edges)
        invariant Walked(source, distances, ArcsOf(edges, distances.Keys))
        invariant Covers(source, distances, ArcsOf(edges, distances.Keys), i)
      {
        hide Traced, Walked, Covers, ArcsOf;
        ghost var before := distances;
        var change := Round(source);
        RoundCovers(source, before, distances, edges, i);
        i := i + 1;
        if !change {
          FixpointCovers(source, distances, edges, i, 5 - i);
          break;
        }
      }
    }

    /** The best edge that still lowers the source's own distance, if there is one. */
    method FindClosingEdge(source: Address) returns (minEdge: MinEdge)
      requires Keyed(edges)
      ensures minEdge.Found? ==> Closes(source, distances, edges, minEdge.edge)
      ensures minEdge == NoEdge <==> NothingCloses(source, distances, edges)
      ensures minEdge.Found? ==> forall k :: k in edges && Closes(source, distances, edges, edges[k]) ==>
                minEdge.distance <= distances[edges[k].from].d + edges[k].distance
      ensures minEdge.Found? ==> minEdge.distance == distances[minEdge.edge.from].d + minEdge.edge.distance
    {
      minEdge := NoEdge;
      var rest := edges.Keys;
      while rest != {}
        invariant rest <= edges.Keys
        invariant minEdge.Found? ==> Closes(source, distances, edges, minEdge.edge)
        invariant minEdge.Found? ==> minEdge.distance == distances[minEdge.edge.from].d + minEdge.edge.distance
        invariant minEdge == NoEdge ==>
                    forall k :: k in edges && k !in rest ==> !Closes(source, distances, edges, edges[k])
        invariant minEdge.Found? ==>
                    forall k :: k in edges && k !in rest && Closes(source, distances, edges, edges[k]) ==>
                      minEdge.distance <= distances[edges[k].from].d + edges[k].distance
        decreases rest
      {
        var key :| key in rest;
        rest := rest - {key};
        var e := edges[key];
        if e.to != source || e.from !in distances || e.to !in distances {
          continue;
        }
        var newDist := distances[e.from].Plus(e.distance);
        if newDist.Less(distances[e.to]) {
          if minEdge == NoEdge || newDist.d < minEdge.distance {
            minEdge := Found(e, newDist.d);
          }
        }
      }
    }

    /** The pairs of a cycle through the source, last hop first, or nothing. */
    method FindCircle(source: Address) returns (ret: seq<Address>, ghost cycle: seq<SwapEdge>)
      requires Ready(source)
      modifies this`distances, this`preedges
      ensures distances.Keys == old(distances).Keys + {source}
      ensures ret == PairsOf(cycle)
      ensures cycle != [] ==> NegativeCycle(edges, source, cycle)
      ensures cycle != [] ==> ClosedWalkBelowZero(ArcsOf(edges, distances.Keys), source, Forward(cycle))
      ensures cycle != [] ==> ClosesBest(source, distances, edges, cycle[0])
      ensures source in distances && (distances[source] == At(0.0) ==> Ready(source))
      ensures |ret| <= 10
      ensures ret == [] ==> NothingCloses(source, distances, edges) || LostOnTheWay(source, distances, preedges, edges)
    {
      hide Covers, Walked, ArcsOf, Traced, Follows, Backwards, Undercuts;
      BellmanFord(source);
      assert distances[source] == At(0.0) ==> distances[source := At(0.0)] == distances;
      var minEdge := FindClosingEdge(source);
      ret, cycle := [], [];
      if minEdge.Found? {
        var edge := minEdge.edge;
        StartBack(source, distances, preedges, edges, edge);
        assert ClosesBest(source, distances, edges, edge);
        var loop := true;
        var i := 0;
        while i < 10
          invariant 0 <= i <= 10 && |cycle| == i && ret == PairsOf(cycle)
          invariant ClosesBest(source, distances, edges, if cycle == [] then edge else cycle[0])
          invariant WalkingBack(source, distances, preedges, edges, cycle)
          invariant Follows(source, distances, preedges, edges, cycle, edge)
          modifies {}
        {
          hide Traced, WalkingBack, Follows, NegativeCycle, ClosesBest;
          StepBack(source, distances, preedges, edges, cycle, edge);
          ret := ret + [edge.pair];
          cycle := cycle + [edge];
          if edge.from == source {
            CycleRunsBelowZero(source, distances, edges, cycle);
            loop := false;
            break;
          }
          edge := edges[preedges[edge.from]];
          i := i + 1;
        }
        if loop {
          assert LostOnTheWay(source, distances, preedges, edges);
          ret, cycle := [], [];
        }
      }
    }
  }
}
