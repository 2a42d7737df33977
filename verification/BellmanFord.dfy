/** The textbook Bellman-Ford search over exact weights: what its labels mean, when it reports a
    negative cycle, and that its early exit changes nothing. */
module BellmanFord {
  import opened Walks

  /** The two slices that the search updates in place. */
  datatype Labels = Labels(dist: seq<Dist>, prev: seq<int>)

  ghost predicate InRange(n: nat, edges: seq<Arc>) {
    forall i :: 0 <= i < |edges| ==> 0 <= edges[i].from < n && 0 <= edges[i].to < n
  }

  ghost function ArcSet(edges: seq<Arc>): set<Arc> {
    set i | 0 <= i < |edges| :: edges[i]
  }

  predicate Relaxable(dist: seq<Dist>, e: Arc)
    requires 0 <= e.from < |dist| && 0 <= e.to < |dist|
  {
    dist[e.from].Plus(e.weight).Less(dist[e.to])
  }

  function RelaxArc(l: Labels, e: Arc): Labels
    requires 0 <= e.from < |l.dist| == |l.prev| && 0 <= e.to < |l.dist|
  {
    if Relaxable(l.dist, e) then
      Labels(l.dist[e.to := l.dist[e.from].Plus(e.weight)], l.prev[e.to := e.from])
    else l
  }

  /** One round over the edge list. */
  function RelaxAll(l: Labels, edges: seq<Arc>): (r: Labels)
    requires |l.dist| == |l.prev| && InRange(|l.dist|, edges)
    ensures |r.dist| == |r.prev| == |l.dist|
    decreases edges
  {
    if edges == [] then l else RelaxArc(RelaxAll(l, edges[..|edges| - 1]), edges[|edges| - 1])
  }

  function Rounds(l: Labels, edges: seq<Arc>, n: nat): (r: Labels)
    requires |l.dist| == |l.prev| && InRange(|l.dist|, edges)
    ensures |r.dist| == |r.prev| == |l.dist|
  {
    if n == 0 then l else RelaxAll(Rounds(l, edges, n - 1), edges)
  }

  function Start(n: nat, source: nat, unset: int): (l: Labels)
    requires source < n
    ensures |l.dist| == |l.prev| == n
  {
    Labels(seq(n, i => if i == source then At(0.0) else Unreached), seq(n, _ => unset))
  }

  // ---- distances are weights of walks, and no short walk beats them ----

  ghost predicate Walked(s: int, dist: seq<Dist>, arcs: set<Arc>) {
    forall v :: 0 <= v < |dist| && dist[v].At? ==> exists p :: IsWalk(arcs, s, v, p) && Weight(p) == dist[v].d
  }

  ghost predicate Covers(s: int, dist: seq<Dist>, arcs: set<Arc>, length: nat) {
    forall v, p :: 0 <= v < |dist| && IsWalk(arcs, s, v, p) && |p| <= length ==> dist[v].AtMost(Weight(p))
  }

  ghost predicate NoFarther(before: seq<Dist>, after: seq<Dist>) {
    |after| == |before| && forall v :: 0 <= v < |before| && before[v].At? ==> after[v].AtMost(before[v].d)
  }

  ghost predicate Relaxed(before: seq<Dist>, after: seq<Dist>, e: Arc)
    requires 0 <= e.from < |before| && 0 <= e.to < |after|
  {
    before[e.from].At? ==> after[e.to].AtMost(before[e.from].d + e.weight)
  }

  lemma {:induction false} RoundRelaxes(l: Labels, edges: seq<Arc>)
    requires |l.dist| == |l.prev| && InRange(|l.dist|, edges)
    ensures NoFarther(l.dist, RelaxAll(l, edges).dist)
    ensures forall i :: 0 <= i < |edges| ==> Relaxed(l.dist, RelaxAll(l, edges).dist, edges[i])
    decreases edges
  {
    if edges != [] {
      var init := edges[..|edges| - 1];
      RoundRelaxes(l, init);
      assert forall i :: 0 <= i < |init| ==> edges[i] == init[i];
    }
  }

  lemma {:induction false} RoundKeepsWalked(s: int, l: Labels, edges: seq<Arc>, arcs: set<Arc>)
    requires |l.dist| == |l.prev| && InRange(|l.dist|, edges) && Walked(s, l.dist, arcs)
    requires forall i :: 0 <= i < |edges| ==> edges[i] in arcs
    ensures Walked(s, RelaxAll(l, edges).dist, arcs)
    decreases edges
  {
    if edges != [] {
      RoundKeepsWalked(s, l, edges[..|edges| - 1], arcs);
      ArcKeepsWalked(s, RelaxAll(l, edges[..|edges| - 1]), edges[|edges| - 1], arcs);
    }
  }

  lemma ArcKeepsWalked(s: int, l: Labels, e: Arc, arcs: set<Arc>)
    requires 0 <= e.from < |l.dist| == |l.prev| && 0 <= e.to < |l.dist|
    requires Walked(s, l.dist, arcs) && e in arcs
    ensures Walked(s, RelaxArc(l, e).dist, arcs)
  {
    hide IsWalk, Weight;
    if Relaxable(l.dist, e) {
      var p :| IsWalk(arcs, s, e.from, p) && Weight(p) == l.dist[e.from].d;
      ExtendWalk(arcs, s, p, e);
    }
  }

  lemma {:induction false} RoundsCover(n: nat, s: nat, unset: int, edges: seq<Arc>, rounds: nat)
    requires s < n && InRange(n, edges)
    ensures var dist := Rounds(Start(n, s, unset), edges, rounds).dist;
      Walked(s, dist, ArcSet(edges)) && Covers(s, dist, ArcSet(edges), rounds)
  {
    var arcs := ArcSet(edges);
    if rounds == 0 {
      assert IsWalk(arcs, s, s, []) && Weight([]) == 0.0;
    } else {
      RoundsCover(n, s, unset, edges, rounds - 1);
      var before := Rounds(Start(n, s, unset), edges, rounds - 1);
      RoundKeepsWalked(s, before, edges, arcs);
      RoundRelaxes(before, edges);
      OneArcMore(s, before.dist, RelaxAll(before, edges).dist, edges, rounds - 1);
    }
  }

  lemma OneArcMore(s: int, before: seq<Dist>, after: seq<Dist>, edges: seq<Arc>, length: nat)
    requires InRange(|before|, edges) && NoFarther(before, after) && Covers(s, before, ArcSet(edges), length)
    requires forall i :: 0 <= i < |edges| ==> Relaxed(before, after, edges[i])
    ensures Covers(s, after, ArcSet(edges), length + 1)
  {
    var arcs := ArcSet(edges);
    forall v, p | 0 <= v < |after| && IsWalk(arcs, s, v, p) && |p| <= length + 1
      ensures after[v].AtMost(Weight(p))
    {
      if |p| <= length {
        assert before[v].AtMost(Weight(p));
      } else {
        var last, init := p[|p| - 1], p[..|p| - 1];
        var i :| 0 <= i < |edges| && edges[i] == last;
        assert before[last.from].AtMost(Weight(init));
        assert Relaxed(before, after, edges[i]);
      }
    }
  }

  // ---- negative cycles ----

  /** `c` is a closed walk of negative weight at the end of the walk `p` from `s`. */
  ghost predicate NegativeCycle(arcs: set<Arc>, s: int, v: int, p: seq<Arc>, c: seq<Arc>) {
    IsWalk(arcs, s, v, p) && IsWalk(arcs, v, v, c) && Weight(c) < 0.0
  }

  ghost predicate NegativeCycleReachable(arcs: set<Arc>, s: int) {
    exists v, p, c :: NegativeCycle(arcs, s, v, p, c)
  }

  ghost predicate Settled(dist: seq<Dist>, edges: seq<Arc>)
    requires InRange(|dist|, edges)
  {
    forall i :: 0 <= i < |edges| ==> !Relaxable(dist, edges[i])
  }

  /** Without a relaxable edge, no walk is shorter than the difference of the distances. */
  lemma {:induction false} SettledBounds(dist: seq<Dist>, edges: seq<Arc>, u: int, v: int, p: seq<Arc>)
    requires InRange(|dist|, edges) && Settled(dist, edges)
    requires 0 <= u < |dist| && dist[u].At? && IsWalk(ArcSet(edges), u, v, p)
    ensures 0 <= v < |dist| && dist[v].AtMost(dist[u].d + Weight(p))
    decreases p
  {
    if p != [] {
      var last := p[|p| - 1];
      SettledBounds(dist, edges, u, last.from, p[..|p| - 1]);
      var i :| 0 <= i < |edges| && edges[i] == last;
      assert !Relaxable(dist, edges[i]);
    }
  }

  lemma SettledHasNoNegativeCycle(dist: seq<Dist>, edges: seq<Arc>, s: int)
    requires InRange(|dist|, edges) && Settled(dist, edges) && 0 <= s < |dist| && dist[s].At?
    ensures !NegativeCycleReachable(ArcSet(edges), s)
  {
    forall v, p, c | IsWalk(ArcSet(edges), s, v, p) && IsWalk(ArcSet(edges), v, v, c)
      ensures Weight(c) >= 0.0
    {
      SettledBounds(dist, edges, s, v, p);
      SettledBounds(dist, edges, v, v, c);
    }
  }

  // ---- long walks repeat a vertex ----

  ghost predicate Distinct(xs: seq<int>) {
    forall i, j :: 0 <= i < j < |xs| ==> xs[i] != xs[j]
  }

  ghost function Below(n: nat): (r: set<int>)
    ensures |r| == n && forall x :: x in r <==> 0 <= x < n
  {
    if n == 0 then {} else Below(n - 1) + {n - 1}
  }

  lemma {:induction false} DistinctFits(xs: seq<int>, pool: set<int>)
    requires Distinct(xs) && forall i :: 0 <= i < |xs| ==> xs[i] in pool
    ensures |xs| <= |pool|
    decreases xs
  {
    if xs != [] {
      var init, last := xs[..|xs| - 1], xs[|xs| - 1];
      assert forall i :: 0 <= i < |init| ==> init[i] == xs[i] != last;
      DistinctFits(init, pool - {last});
    }
  }

  lemma RepeatedVertex(xs: seq<int>, n: nat) returns (i: nat, j: nat)
    requires |xs| > n && forall k :: 0 <= k < |xs| ==> 0 <= xs[k] < n
    ensures i < j < |xs| && xs[i] == xs[j]
  {
    if Distinct(xs) {
      DistinctFits(xs, Below(n));
    }
    i, j :| 0 <= i < j < |xs| && xs[i] == xs[j];
  }

  /** The vertices a walk visits. */
  ghost function Visits(s: int, p: seq<Arc>): (r: seq<int>)
    ensures |r| == |p| + 1
    ensures forall i :: 0 <= i <= |p| ==> r[i] == Stop(s, p, i)
  {
    seq(|p| + 1, i requires 0 <= i <= |p| => Stop(s, p, i))
  }

  lemma {:induction false} VisitsInRange(edges: seq<Arc>, n: nat, s: int, t: int, p: seq<Arc>, i: nat)
    requires InRange(n, edges) && 0 <= s < n && IsWalk(ArcSet(edges), s, t, p) && i <= |p|
    ensures 0 <= Stop(s, p, i) < n
    decreases p
  {
    if p != [] {
      var init, last := p[..|p| - 1], p[|p| - 1];
      if i < |p| {
        VisitsInRange(edges, n, s, last.from, init, i);
        assert Stop(s, init, i) == Stop(s, p, i);
      }
    }
  }

  /** Without a reachable negative cycle, every walk can be shortened below the number of vertices
      without gaining weight. */
  lemma {:induction false} Shorten(edges: seq<Arc>, n: nat, s: int, t: int, p: seq<Arc>) returns (q: seq<Arc>)
    requires InRange(n, edges) && 0 <= s < n && IsWalk(ArcSet(edges), s, t, p)
    requires !NegativeCycleReachable(ArcSet(edges), s)
    ensures IsWalk(ArcSet(edges), s, t, q) && |q| < n && Weight(q) <= Weight(p)
    decreases |p|
  {
    if |p| < n {
      return p;
    }
    hide IsWalk, Weight, ArcSet;
    var arcs := ArcSet(edges);
    forall k: nat | k <= |p|
      ensures 0 <= Stop(s, p, k) < n
    {
      VisitsInRange(edges, n, s, t, p, k);
    }
    var i, j := RepeatedVertex(Visits(s, p), n);
    var at := Stop(s, p, i);
    CutWalk(arcs, s, t, p, j);
    CutWalk(arcs, s, at, p[..j], i);
    StopOfPrefix(s, p, i, j);
    var head, loop, tail := p[..j][..i], p[..j][i..], p[j..];
    assert !NegativeCycle(arcs, s, at, head, loop);
    JoinWalks(arcs, s, at, t, head, tail);
    q := Shorten(edges, n, s, t, head + tail);
  }

  lemma StopOfPrefix(s: int, p: seq<Arc>, i: nat, j: nat)
    requires i <= j <= |p|
    ensures Stop(s, p[..j], i) == Stop(s, p, i)
  {
  }

  /** After `n - 1` rounds a relaxable edge betrays a negative cycle. */
  lemma RelaxableMeansCycle(n: nat, s: nat, unset: int, edges: seq<Arc>)
    requires s < n && InRange(n, edges)
    requires !Settled(Rounds(Start(n, s, unset), edges, n - 1).dist, edges)
    ensures NegativeCycleReachable(ArcSet(edges), s)
  {
    var dist, arcs := Rounds(Start(n, s, unset), edges, n - 1).dist, ArcSet(edges);
    RoundsCover(n, s, unset, edges, n - 1);
    var i :| 0 <= i < |edges| && Relaxable(dist, edges[i]);
    var e := edges[i];
    if !NegativeCycleReachable(arcs, s) {
      hide IsWalk, Weight, NegativeCycleReachable, Covers;
      var p :| IsWalk(arcs, s, e.from, p) && Weight(p) == dist[e.from].d;
      assert e in arcs;
      ExtendWalk(arcs, s, p, e);
      var q := Shorten(edges, n, s, e.to, p + [e]);
      NoShortWalkBeats(s, dist, arcs, n - 1, e.to, q);
    }
  }

  lemma NoShortWalkBeats(s: int, dist: seq<Dist>, arcs: set<Arc>, length: nat, v: int, p: seq<Arc>)
    requires Covers(s, dist, arcs, length) && 0 <= v < |dist| && IsWalk(arcs, s, v, p) && |p| <= length
    ensures dist[v].AtMost(Weight(p))
  {
  }

  // ---- the predecessor tree ----

  /** A predecessor label stands for an arc that still accounts for the distance. */
  ghost predicate Slack(l: Labels, arcs: set<Arc>) {
    && |l.prev| == |l.dist|
    && forall v :: 0 <= v < |l.prev| && l.prev[v] != -1 ==> SlackAt(l, arcs, v)
  }

  ghost predicate SlackAt(l: Labels, arcs: set<Arc>, v: int)
    requires |l.prev| == |l.dist| && 0 <= v < |l.prev|
  {
    && 0 <= l.prev[v] < |l.dist| && l.dist[v].At? && l.dist[l.prev[v]].At?
    && exists e :: e in arcs && e.from == l.prev[v] && e.to == v && l.dist[e.from].d + e.weight <= l.dist[v].d
  }

  /** Following `prev` from `v` arrives at the source, which has none, after `n` steps. */
  ghost predicate LeadsBack(prev: seq<int>, s: int, v: int, n: nat)
    decreases n
  {
    0 <= v < |prev| &&
    if n == 0 then v == s && prev[v] == -1 else prev[v] != -1 && LeadsBack(prev, s, prev[v], n - 1)
  }

  /** Following `prev` from `u` for up to `n` steps visits `v`. */
  ghost predicate Meets(prev: seq<int>, u: int, n: nat, v: int)
    decreases n
  {
    u == v || (n > 0 && 0 <= u < |prev| && Meets(prev, prev[u], n - 1, v))
  }

  ghost predicate Tree(l: Labels, s: int) {
    |l.prev| == |l.dist| && forall v :: 0 <= v < |l.dist| && l.dist[v].At? ==>
        exists n: nat :: LeadsBack(l.prev, s, v, n)
  }

  /** A vertex met on the way back reaches where the way started, at no more than the difference. */
  lemma {:induction false} MetOnTheWay(l: Labels, arcs: set<Arc>, s: int, u: int, n: nat, v: int) returns (p: seq<Arc>)
    requires Slack(l, arcs) && 0 <= u < |l.dist| && l.dist[u].At?
    requires LeadsBack(l.prev, s, u, n) && Meets(l.prev, u, n, v)
    ensures 0 <= v < |l.dist| && l.dist[v].At?
    ensures IsWalk(arcs, v, u, p) && l.dist[v].d + Weight(p) <= l.dist[u].d
    decreases n
  {
    if u == v {
      p := [];
    } else {
      assert SlackAt(l, arcs, u);
      var e :| e in arcs && e.from == l.prev[u] && e.to == u && l.dist[e.from].d + e.weight <= l.dist[u].d;
      p := MetOnTheWay(l, arcs, s, l.prev[u], n - 1, v);
      ExtendWalk(arcs, v, p, e);
      p := p + [e];
    }
  }

  lemma {:induction false} UnmetStays(prev: seq<int>, s: int, u: int, n: nat, v: int, w: int)
    requires LeadsBack(prev, s, u, n) && !Meets(prev, u, n, v) && 0 <= v < |prev|
    ensures LeadsBack(prev[v := w], s, u, n)
    decreases n
  {
    if n > 0 {
      UnmetStays(prev, s, prev[u], n - 1, v, w);
    }
  }

  /** Every way back still arrives after `v` is redirected to a vertex that leads back on its own. */
  lemma {:induction false} Redirected(prev: seq<int>, s: int, x: int, n: nat, v: int, u: int, m: nat) returns (k: nat)
    requires LeadsBack(prev, s, x, n) && 0 <= v < |prev| && u != -1
    requires LeadsBack(prev[v := u], s, u, m)
    ensures LeadsBack(prev[v := u], s, x, k)
    decreases n
  {
    if x == v {
      k := m + 1;
    } else if n == 0 {
      k := 0;
    } else {
      var rest := Redirected(prev, s, prev[x], n - 1, v, u, m);
      k := rest + 1;
    }
  }

  lemma ArcKeepsSlack(l: Labels, arcs: set<Arc>, e: Arc)
    requires 0 <= e.from < |l.dist| && 0 <= e.to < |l.dist| && e in arcs && Slack(l, arcs)
    ensures Slack(RelaxArc(l, e), arcs)
  {
    var r := RelaxArc(l, e);
    if Relaxable(l.dist, e) {
      forall v | 0 <= v < |r.prev| && r.prev[v] != -1
        ensures SlackAt(r, arcs, v)
      {
        if v == e.to {
          assert r.prev[v] == e.from;
        } else {
          assert SlackAt(l, arcs, v);
        }
      }
    }
  }

  /** Relaxing an arc out of a vertex whose own way back passes through the arc's target would close a
      negative cycle. */
  lemma NoLoopBack(l: Labels, arcs: set<Arc>, s: int, e: Arc, n: nat)
    requires 0 <= e.from < |l.dist| && 0 <= e.to < |l.dist| && e in arcs && Slack(l, arcs)
    requires Relaxable(l.dist, e) && LeadsBack(l.prev, s, e.from, n) && Walked(s, l.dist, arcs)
    requires !NegativeCycleReachable(arcs, s)
    ensures !Meets(l.prev, e.from, n, e.to)
  {
    if Meets(l.prev, e.from, n, e.to) {
      hide IsWalk, Weight;
      var c := MetOnTheWay(l, arcs, s, e.from, n, e.to);
      ExtendWalk(arcs, e.to, c, e);
      var p :| IsWalk(arcs, s, e.to, p) && Weight(p) == l.dist[e.to].d;
      CycleWitness(arcs, s, e.to, p, c + [e]);
    }
  }

  lemma CycleWitness(arcs: set<Arc>, s: int, v: int, p: seq<Arc>, c: seq<Arc>)
    requires NegativeCycle(arcs, s, v, p, c)
    ensures NegativeCycleReachable(arcs, s)
  {
  }

  lemma ArcKeepsTree(l: Labels, arcs: set<Arc>, s: int, e: Arc)
    requires 0 <= e.from < |l.dist| && 0 <= e.to < |l.dist| && e in arcs && Slack(l, arcs)
    requires Tree(l, s) && Walked(s, l.dist, arcs) && !NegativeCycleReachable(arcs, s)
    ensures Tree(RelaxArc(l, e), s)
  {
    if Relaxable(l.dist, e) {
      hide Walked, Slack;
      var r := RelaxArc(l, e);
      var m: nat :| LeadsBack(l.prev, s, e.from, m);
      NoLoopBack(l, arcs, s, e, m);
      UnmetStays(l.prev, s, e.from, m, e.to, e.from);
      forall v | 0 <= v < |r.dist| && r.dist[v].At?
        ensures exists n: nat :: LeadsBack(r.prev, s, v, n)
      {
        if v == e.to {
          assert LeadsBack(r.prev, s, v, m + 1);
        } else {
          var n: nat :| LeadsBack(l.prev, s, v, n);
          var k := Redirected(l.prev, s, v, n, e.to, e.from, m);
        }
      }
    }
  }

  lemma {:induction false} RoundKeepsTree(l: Labels, edges: seq<Arc>, arcs: set<Arc>, s: int)
    requires |l.dist| == |l.prev| && InRange(|l.dist|, edges) && forall i :: 0 <= i < |edges| ==> edges[i] in arcs
    requires Slack(l, arcs) && Tree(l, s) && Walked(s, l.dist, arcs) && !NegativeCycleReachable(arcs, s)
    ensures Slack(RelaxAll(l, edges), arcs) && Tree(RelaxAll(l, edges), s)
    decreases edges
  {
    if edges != [] {
      hide Slack, Tree, Walked, NegativeCycleReachable, RelaxArc;
      var init, last := edges[..|edges| - 1], edges[|edges| - 1];
      RoundKeepsTree(l, init, arcs, s);
      RoundKeepsWalked(s, l, init, arcs);
      ArcKeepsSlack(RelaxAll(l, init), arcs, last);
      ArcKeepsTree(RelaxAll(l, init), arcs, s, last);
    }
  }

  lemma {:induction false} RoundsKeepTree(n: nat, s: nat, edges: seq<Arc>, rounds: nat)
    requires s < n && InRange(n, edges) && !NegativeCycleReachable(ArcSet(edges), s)
    ensures var l := Rounds(Start(n, s, -1), edges, rounds);
      Slack(l, ArcSet(edges)) && Tree(l, s)
  {
    if rounds == 0 {
      assert LeadsBack(Start(n, s, -1).prev, s, s, 0);
    } else {
      RoundsKeepTree(n, s, edges, rounds - 1);
      RoundsCover(n, s, -1, edges, rounds - 1);
      RoundKeepsTree(Rounds(Start(n, s, -1), edges, rounds - 1), edges, ArcSet(edges), s);
    }
  }

  /** The stops of the way back from `v`, source first. */
  ghost function WayBack(prev: seq<int>, s: int, v: int, n: nat): seq<int>
    requires LeadsBack(prev, s, v, n)
    decreases n
  {
    if n == 0 then [v] else WayBack(prev, s, prev[v], n - 1) + [v]
  }

  /** In settled labels the way back is a walk from the source whose weight is the distance. */
  lemma {:induction false} WayBackIsShortest(l: Labels, edges: seq<Arc>, s: int, v: int, n: nat) returns (p: seq<Arc>)
    requires |l.dist| == |l.prev| && InRange(|l.dist|, edges) && Slack(l, ArcSet(edges)) && Settled(l.dist, edges)
    requires LeadsBack(l.prev, s, v, n) && l.dist[v].At? && 0 <= s < |l.dist| && l.dist[s] == At(0.0)
    ensures IsWalk(ArcSet(edges), s, v, p) && Weight(p) == l.dist[v].d
    ensures Visits(s, p) == WayBack(l.prev, s, v, n)
    decreases n
  {
    if n == 0 {
      p := [];
    } else {
      var arcs := ArcSet(edges);
      assert SlackAt(l, arcs, v);
      var e :| e in arcs && e.from == l.prev[v] && e.to == v && l.dist[e.from].d + e.weight <= l.dist[v].d;
      var i :| 0 <= i < |edges| && edges[i] == e;
      assert !Relaxable(l.dist, edges[i]);
      var init := WayBackIsShortest(l, edges, s, l.prev[v], n - 1);
      ExtendWalk(arcs, s, init, e);
      p := init + [e];
      VisitsGrow(s, init, e);
    }
  }

  lemma VisitsGrow(s: int, p: seq<Arc>, e: Arc)
    ensures Visits(s, p + [e]) == Visits(s, p) + [e.to]
  {
    var longer := p + [e];
    forall i | 0 <= i <= |p|
      ensures Stop(s, longer, i) == Stop(s, p, i)
    {
    }
    assert Visits(s, longer) == Visits(s, p) + [e.to];
  }

  // ---- the graphs ----

  datatype Found = NegativeWeightCycle | Paths(dist: seq<Dist>, prev: seq<int>)

  /** The inner loop of both searches: one pass over the edges, in place, counting the changes. */
  method RelaxEdges(dist: array<Dist>, prev: array<int>, edges: seq<Arc>) returns (changes: nat)
    requires dist.Length == prev.Length && InRange(dist.Length, edges)
    modifies dist, prev
    ensures Labels(dist[..], prev[..]) == RelaxAll(old(Labels(dist[..], prev[..])), edges)
    ensures changes == 0 ==> Labels(dist[..], prev[..]) == old(Labels(dist[..], prev[..]))
  {
    hide RelaxArc;
    ghost var before := Labels(dist[..], prev[..]);
    changes := 0;
    var k := 0;
    assert edges[..0] == [];
    while k < |edges|
      invariant 0 <= k <= |edges|
      invariant InRange(dist.Length, edges[..k])
      invariant Labels(dist[..], prev[..]) == RelaxAll(before, edges[..k])
      invariant changes == 0 ==> Labels(dist[..], prev[..]) == before
    {
      var u, v, w := edges[k].from, edges[k].to, edges[k].weight;
      ghost var mid := Labels(dist[..], prev[..]);
      assert edges[..k + 1][..k] == edges[..k];
      RelaxArcMeans(mid, edges[k]);
      var newDist := dist[u].Plus(w);
      if newDist.Less(dist[v]) {
        dist[v] := newDist;
        prev[v] := u;
        changes := changes + 1;
      }
      assert Labels(dist[..], prev[..]) == RelaxArc(mid, edges[k]);
      k := k + 1;
    }
    assert edges[..k] == edges;
  }

  class BF1Graph {
    const vertices: nat
    var edges: seq<Arc>

    ghost predicate Valid()
      reads this
    {
      InRange(vertices, edges)
    }

    constructor (vertices: nat)
      ensures Valid() && this.vertices == vertices && edges == []
    {
      this.vertices, edges := vertices, [];
    }

    method AddEdge(src: int, dest: int, weight: real)
      modifies this
      ensures edges == old(edges) + [Arc(src, dest, weight)]
      ensures old(Valid()) && 0 <= src < vertices && 0 <= dest < vertices ==> Valid()
    {
      edges := edges + [Arc(src, dest, weight)];
    }

    /** The search reports a negative cycle exactly when one can be reached from the source. Otherwise
        a distance is the weight of a lightest walk, absent exactly if there is no walk, and following
        the predecessors always ends in the source. */
    method BellmanFord(source: nat) returns (found: Found)
      requires Valid() && source < vertices
      ensures found == NegativeWeightCycle <==> NegativeCycleReachable(ArcSet(edges), source)
      ensures found.Paths? ==> ShortestPaths(vertices, edges, source, Labels(found.dist, found.prev))
      ensures found.Paths? ==> found.dist == Rounds(Start(vertices, source, -1), edges, vertices - 1).dist
    {
      hide NegativeCycleReachable, ShortestPaths, Settled;
      var dist := new Dist[vertices](_ => Unreached);
      var prev := new int[vertices](_ => -1);
      dist[source] := At(0.0);
      ghost var start := Start(vertices, source, -1);
      assert dist[..] == start.dist && prev[..] == start.prev;
      hide Start, RelaxAll;
      var i := 1;
      while i < vertices
        invariant 1 <= i <= vertices
        invariant Labels(dist[..], prev[..]) == Rounds(start, edges, i - 1)
      {
        var _ := RelaxEdges(dist, prev, edges);
        i := i + 1;
      }
      var improvable := HasRelaxableEdge(dist);
      if improvable {
        RelaxableMeansCycle(vertices, source, -1, edges);
        return NegativeWeightCycle;
      }
      SettledMeansShortest(vertices, edges, source);
      return Paths(dist[..], prev[..]);
    }

    method HasRelaxableEdge(dist: array<Dist>) returns (improvable: bool)
      requires Valid() && dist.Length == vertices
      ensures improvable <==> !Settled(dist[..], edges)
    {
      for k := 0 to |edges|
        invariant forall j :: 0 <= j < k ==> !Relaxable(dist[..], edges[j])
      {
        var u, v, w := edges[k].from, edges[k].to, edges[k].weight;
        if dist[u].Plus(w).Less(dist[v]) {
          return true;
        }
      }
      return false;
    }
  }

  lemma RelaxArcMeans(l: Labels, e: Arc)
    requires 0 <= e.from < |l.dist| == |l.prev| && 0 <= e.to < |l.dist|
    ensures RelaxArc(l, e) ==
      if l.dist[e.from].Plus(e.weight).Less(l.dist[e.to]) then
        Labels(l.dist[e.to := l.dist[e.from].Plus(e.weight)], l.prev[e.to := e.from])
      else l
  {
  }

  ghost predicate ShortestPaths(n: nat, edges: seq<Arc>, s: nat, l: Labels)
    requires InRange(n, edges) && s < n
  {
    && |l.dist| == |l.prev| == n && l.dist[s] == At(0.0)
    && Settled(l.dist, edges) && Slack(l, ArcSet(edges)) && Tree(l, s)
    && (forall v :: 0 <= v < n ==> Shortest(ArcSet(edges), s, v, l.dist[v]))
  }

  /** `d` is the least weight of a walk from `s` to `v`, or there is no walk. */
  ghost predicate Shortest(arcs: set<Arc>, s: int, v: int, d: Dist) {
    && (forall p :: IsWalk(arcs, s, v, p) ==> d.AtMost(Weight(p)))
    && (d.At? ==> exists p :: IsWalk(arcs, s, v, p) && Weight(p) == d.d)
  }

  lemma SettledMeansShortest(n: nat, edges: seq<Arc>, s: nat)
    requires InRange(n, edges) && s < n
    requires Settled(Rounds(Start(n, s, -1), edges, n - 1).dist, edges)
    ensures var l := Rounds(Start(n, s, -1), edges, n - 1);
      ShortestPaths(n, edges, s, l) && !NegativeCycleReachable(ArcSet(edges), s)
  {
    hide NegativeCycleReachable, Rounds, Start, Slack, Tree, Settled, Shortest, Walked, Covers;
    var l, arcs := Rounds(Start(n, s, -1), edges, n - 1), ArcSet(edges);
    RoundsCover(n, s, -1, edges, n - 1);
    LabelledAtMostZero(s, l.dist, arcs, n - 1);
    SettledHasNoNegativeCycle(l.dist, edges, s);
    SourceStaysZero(l, edges, s);
    RoundsKeepTree(n, s, edges, n - 1);
    SettledIsShortest(l.dist, edges, s);
  }

  lemma LabelledAtMostZero(s: int, dist: seq<Dist>, arcs: set<Arc>, length: nat)
    requires Covers(s, dist, arcs, length) && 0 <= s < |dist|
    ensures dist[s].AtMost(0.0)
  {
    assert IsWalk(arcs, s, s, []) && Weight([]) == 0.0;
  }

  lemma SettledIsShortest(dist: seq<Dist>, edges: seq<Arc>, s: int)
    requires InRange(|dist|, edges) && Settled(dist, edges) && 0 <= s < |dist| && dist[s] == At(0.0)
    requires Walked(s, dist, ArcSet(edges))
    ensures forall v :: 0 <= v < |dist| ==> Shortest(ArcSet(edges), s, v, dist[v])
  {
    forall v | 0 <= v < |dist|
      ensures Shortest(ArcSet(edges), s, v, dist[v])
    {
      forall p | IsWalk(ArcSet(edges), s, v, p)
        ensures dist[v].AtMost(Weight(p))
      {
        SettledBounds(dist, edges, s, v, p);
      }
    }
  }

  lemma SourceStaysZero(l: Labels, edges: seq<Arc>, s: int)
    requires InRange(|l.dist|, edges) && 0 <= s < |l.dist| && l.dist[s].AtMost(0.0)
    requires Settled(l.dist, edges) && Walked(s, l.dist, ArcSet(edges))
    ensures l.dist[s] == At(0.0)
  {
    var p :| IsWalk(ArcSet(edges), s, s, p) && Weight(p) == l.dist[s].d;
    SettledBounds(l.dist, edges, s, s, p);
  }

  /** The loop that prints a shortest path: it ends, and what it collects are the stops of a walk whose
      weight is the distance. */
  method ShortestPath(edges: seq<Arc>, source: nat, dist: seq<Dist>, prev: seq<int>, target: nat)
    returns (path: seq<int>, ghost walk: seq<Arc>)
    requires InRange(|dist|, edges) && source < |dist| && target < |dist|
    requires ShortestPaths(|dist|, edges, source, Labels(dist, prev)) && dist[target].At?
    ensures path == Visits(source, walk)
    ensures IsWalk(ArcSet(edges), source, target, walk) && Weight(walk) == dist[target].d
  {
    hide ShortestPaths, Visits, IsWalk, Weight, ArcSet, InRange, Stop;
    ghost var n;
    n, walk := FindWayBack(edges, source, Labels(dist, prev), target);
    path := [];
    var j: int := target;
    ghost var left: int := n;
    assert WayBack(prev, source, target, n) + [] == WayBack(prev, source, target, n);
    while j != -1
      invariant -1 <= left <= n
      invariant if j == -1 then left == -1 else left >= 0 && LeadsBack(prev, source, j, left)
      invariant WayBack(prev, source, target, n) == (if j == -1 then [] else WayBack(prev, source, j, left)) + path
      decreases left
    {
      ghost var before := path;
      LastStop(prev, source, j, left, before);
      path := [j] + path;
      j := prev[j];
      left := left - 1;
    }
  }

  lemma FindWayBack(edges: seq<Arc>, s: nat, l: Labels, v: int) returns (n: nat, p: seq<Arc>)
    requires InRange(|l.dist|, edges) && s < |l.dist| && 0 <= v < |l.dist|
    requires ShortestPaths(|l.dist|, edges, s, l) && l.dist[v].At?
    ensures LeadsBack(l.prev, s, v, n) && IsWalk(ArcSet(edges), s, v, p) && Weight(p) == l.dist[v].d
    ensures Visits(s, p) == WayBack(l.prev, s, v, n) && |l.prev| == |l.dist|
  {
    n :| LeadsBack(l.prev, s, v, n);
    p := WayBackIsShortest(l, edges, s, v, n);
  }

  lemma LastStop(prev: seq<int>, s: int, v: int, n: nat, path: seq<int>)
    requires LeadsBack(prev, s, v, n)
    ensures n == 0 ==> prev[v] == -1 && WayBack(prev, s, v, n) + path == [] + ([v] + path)
    ensures n > 0 ==> prev[v] != -1 && LeadsBack(prev, s, prev[v], n - 1)
                      && WayBack(prev, s, v, n) + path == WayBack(prev, s, prev[v], n - 1) + ([v] + path)
  {
    if n > 0 {
      var init := WayBack(prev, s, prev[v], n - 1);
      assert init + [v] + path == init + ([v] + path);
    }
  }

  // ---- the variant with an early exit ----

  class BF2Graph {
    const edges: seq<Arc>
    const vertices: seq<int>

    constructor (edges: seq<Arc>, vertices: seq<int>)
      ensures this.edges == edges && this.vertices == vertices
    {
      this.edges, this.vertices := edges, vertices;
    }

    /** Vertices count from 0 upwards. */
    ghost predicate Valid() {
      InRange(|vertices|, edges) && forall i :: 0 <= i < |vertices| ==> vertices[i] == i
    }

    method InitDistances(dist: array<Dist>)
      requires Valid() && dist.Length == |vertices|
      modifies dist
      ensures forall j :: 0 <= j < dist.Length ==> dist[j] == Unreached
    {
      for k := 0 to |vertices|
        invariant forall j :: 0 <= j < k ==> dist[j] == Unreached
      {
        dist[vertices[k]] := Unreached;
      }
    }

    /** Stopping after a round without changes gives the distances of the full number of rounds. */
    method BellmanFord(source: nat) returns (predecessors: seq<int>, distances: seq<Dist>)
      requires Valid() && source < |vertices|
      ensures Labels(distances, predecessors) == Rounds(Start(|vertices|, source, 0), edges, |vertices| - 1)
    {
      var size := |vertices|;
      var dist := new Dist[size](_ => At(0.0));
      var prev := new int[size](_ => 0);
      InitDistances(dist);
      dist[source] := At(0.0);
      ghost var start := Start(size, source, 0);
      assert dist[..] == start.dist && prev[..] == start.prev;
      hide Start, RelaxAll;
      var i := 0;
      while i < size - 1
        invariant 0 <= i <= size - 1
        invariant Labels(dist[..], prev[..]) == Rounds(start, edges, i)
      {
        var changes := RelaxEdges(dist, prev, edges);
        if changes == 0 {
          FixpointStays(start, edges, i, size - 1);
          break;
        }
        i := i + 1;
      }
      return prev[..], dist[..];
    }
  }

  lemma {:induction false} FixpointStays(l: Labels, edges: seq<Arc>, i: nat, n: nat)
    requires |l.dist| == |l.prev| && InRange(|l.dist|, edges) && i <= n
    requires RelaxAll(Rounds(l, edges, i), edges) == Rounds(l, edges, i)
    ensures Rounds(l, edges, n) == Rounds(l, edges, i)
    decreases n
  {
    if i < n {
      FixpointStays(l, edges, i, n - 1);
    }
  }

  /** Distances do not depend on the predecessors, so both searches compute the same ones. */
  lemma {:induction false} RoundsIgnorePrev(l: Labels, m: Labels, edges: seq<Arc>, n: nat)
    requires |l.dist| == |l.prev| == |m.prev| && l.dist == m.dist && InRange(|l.dist|, edges)
    ensures Rounds(l, edges, n).dist == Rounds(m, edges, n).dist
  {
    if n > 0 {
      RoundsIgnorePrev(l, m, edges, n - 1);
      RoundIgnoresPrev(Rounds(l, edges, n - 1), Rounds(m, edges, n - 1), edges);
    }
  }

  lemma {:induction false} RoundIgnoresPrev(l: Labels, m: Labels, edges: seq<Arc>)
    requires |l.dist| == |l.prev| == |m.prev| && l.dist == m.dist && InRange(|l.dist|, edges)
    ensures RelaxAll(l, edges).dist == RelaxAll(m, edges).dist
    decreases edges
  {
    if edges != [] {
      RoundIgnoresPrev(l, m, edges[..|edges| - 1]);
    }
  }

  lemma BothSearchesAgree(n: nat, s: nat, edges: seq<Arc>)
    requires s < n && InRange(n, edges)
    ensures Rounds(Start(n, s, 0), edges, n - 1).dist == Rounds(Start(n, s, -1), edges, n - 1).dist
  {
    RoundsIgnorePrev(Start(n, s, 0), Start(n, s, -1), edges, n - 1);
  }
}
