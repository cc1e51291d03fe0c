/**
 * Walks along neighbour lists. `E[v]` is the neighbour list of vertex v;
 * a walk steps from a vertex to one of its neighbours.
 */
module Walks {
  ghost predicate IsWalk(E: seq<seq<nat>>, p: seq<nat>)
  {
    && |p| > 0
    && (forall k :: 0 <= k < |p| ==> p[k] < |E|)
    && (forall k :: 0 <= k < |p| - 1 ==> p[k + 1] in E[p[k]])
  }

  ghost predicate Reachable(E: seq<seq<nat>>, u: nat, v: nat)
  {
    exists p :: IsWalk(E, p) && p[0] == u && p[|p| - 1] == v
  }

  lemma ReachableSelf(E: seq<seq<nat>>, u: nat)
    requires u < |E|
    ensures Reachable(E, u, u)
  {
    assert IsWalk(E, [u]);
  }

  lemma ReachableStep(E: seq<seq<nat>>, u: nat, v: nat, w: nat)
    requires Reachable(E, u, v) && v < |E| && w in E[v] && w < |E|
    ensures Reachable(E, u, w)
  {
    var p :| IsWalk(E, p) && p[0] == u && p[|p| - 1] == v;
    var p' := p + [w];
    assert IsWalk(E, p');
  }

  /** Whatever reaches v reaches each of v's neighbours. */
  lemma NeighboursReachable(E: seq<seq<nat>>, u: nat, v: nat)
    requires Reachable(E, u, v) && v < |E| && forall w :: w in E[v] ==> w < |E|
    ensures forall w :: w in E[v] ==> Reachable(E, u, w)
  {
    forall w | w in E[v]
      ensures Reachable(E, u, w)
    {
      ReachableStep(E, u, v, w);
    }
  }

  /** Every vertex marked in `seen` has all its neighbours marked too. */
  ghost predicate Closed(E: seq<seq<nat>>, seen: seq<bool>)
  {
    |seen| == |E| && forall v, w :: 0 <= v < |E| && seen[v] && w in E[v] ==> w < |E| && seen[w]
  }

  /** A closed set that holds u holds everything reachable from u. */
  lemma ClosedContainsReachable(E: seq<seq<nat>>, seen: seq<bool>, u: nat, v: nat)
    requires Closed(E, seen) && u < |E| && seen[u] && Reachable(E, u, v)
    ensures v < |E| && seen[v]
  {
    var p :| IsWalk(E, p) && p[0] == u && p[|p| - 1] == v;
    WalkStaysInside(E, seen, p, |p| - 1);
  }

  lemma {:induction false} WalkStaysInside(E: seq<seq<nat>>, seen: seq<bool>, p: seq<nat>, k: nat)
    requires Closed(E, seen) && IsWalk(E, p) && seen[p[0]] && k < |p|
    ensures seen[p[k]]
  {
    if k > 0 {
      WalkStaysInside(E, seen, p, k - 1);
      assert p[k] in E[p[k - 1]];
    }
  }
}
