/** Walks in a weighted directed graph, and distances that may not have been reached yet. */
module Walks {

  datatype Arc = Arc(from: int, to: int, weight: real)

  /** A distance; `Unreached` stands for the huge starting value that adding a weight leaves as it is. */
  datatype Dist = Unreached | At(d: real) {
    function Plus(w: real): Dist {
      match this
      case Unreached => Unreached
      case At(d) => At(d + w)
    }

    predicate Less(other: Dist) {
      At? && (other.At? ==> d < other.d)
    }

    predicate AtMost(bound: real) {
      At? && d <= bound
    }
  }

  /** `p` leads from `s` to `t` along the given arcs. */
  ghost predicate IsWalk(arcs: set<Arc>, s: int, t: int, p: seq<Arc>)
    decreases p
  {
    if p == [] then s == t else
      var last := p[|p| - 1];
      last in arcs && last.to == t && IsWalk(arcs, s, last.from, p[..|p| - 1])
  }

  ghost function Weight(p: seq<Arc>): real
    decreases p
  {
    if p == [] then 0.0 else Weight(p[..|p| - 1]) + p[|p| - 1].weight
  }

  lemma ExtendWalk(arcs: set<Arc>, s: int, p: seq<Arc>, arc: Arc)
    requires IsWalk(arcs, s, arc.from, p) && arc in arcs
    ensures IsWalk(arcs, s, arc.to, p + [arc]) && Weight(p + [arc]) == Weight(p) + arc.weight
  {
    assert (p + [arc])[..|p|] == p;
  }

  lemma {:induction false} JoinWalks(arcs: set<Arc>, s: int, m: int, t: int, p: seq<Arc>, q: seq<Arc>)
    requires IsWalk(arcs, s, m, p) && IsWalk(arcs, m, t, q)
    ensures IsWalk(arcs, s, t, p + q) && Weight(p + q) == Weight(p) + Weight(q)
    decreases |q|
  {
    if q == [] {
      assert p + q == p;
    } else {
      var init, last := q[..|q| - 1], q[|q| - 1];
      JoinWalks(arcs, s, m, last.from, p, init);
      ExtendWalk(arcs, s, p + init, last);
      assert p + q == p + init + [last];
    }
  }

  /** The vertex a walk has reached after its first `i` arcs. */
  ghost function Stop(s: int, p: seq<Arc>, i: nat): int
    requires i <= |p|
  {
    if i == 0 then s else p[i - 1].to
  }

  /** Every walk can be cut at any of its stops. */
  lemma {:induction false} CutWalk(arcs: set<Arc>, s: int, t: int, p: seq<Arc>, i: nat)
    requires IsWalk(arcs, s, t, p) && i <= |p|
    ensures IsWalk(arcs, s, Stop(s, p, i), p[..i]) && IsWalk(arcs, Stop(s, p, i), t, p[i..])
    ensures Weight(p) == Weight(p[..i]) + Weight(p[i..])
    decreases |p|
  {
    if i == |p| {
      assert p[..i] == p && p[i..] == [];
      assert p != [] ==> p[|p| - 1].to == t;
    } else {
      var init, last := p[..|p| - 1], p[|p| - 1];
      CutWalk(arcs, s, last.from, init, i);
      assert Stop(s, init, i) == Stop(s, p, i);
      assert init[..i] == p[..i];
      assert p[i..] == init[i..] + [last];
      ExtendWalk(arcs, Stop(s, p, i), init[i..], last);
    }
  }
}
