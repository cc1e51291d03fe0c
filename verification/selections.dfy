/**
 * The ordered index lists the graph builds: every neighbour list and every
 * non-adjacency list in Graph.java is produced by scanning indices in
 * increasing order and keeping those that pass a test.
 */
module Selections {
  import opened Wrappers

  /** Strictly increasing, hence duplicate-free. */
  predicate Increasing(s: seq<nat>)
  {
    forall a, b :: 0 <= a < b < |s| ==> s[a] < s[b]
  }

  /** The indices in [lo, hi) that satisfy p, in increasing order. */
  function Select(lo: nat, hi: nat, p: nat -> bool): seq<nat>
    decreases hi
  {
    if hi <= lo then [] else Select(lo, hi - 1, p) + (if p(hi - 1) then [hi - 1] else [])
  }

  lemma {:induction false} SelectMember(lo: nat, hi: nat, p: nat -> bool)
    ensures forall x :: x in Select(lo, hi, p) <==> lo <= x < hi && p(x)
    ensures Increasing(Select(lo, hi, p))
    decreases hi
  {
    if hi > lo {
      SelectMember(lo, hi - 1, p);
      var s := Select(lo, hi - 1, p);
      assert forall k :: 0 <= k < |s| ==> s[k] in s;
    }
  }

  /** Every index of s names one of n vertices. */
  predicate Below(s: seq<nat>, n: nat)
  {
    forall k :: 0 <= k < |s| ==> s[k] < n
  }

  /**
   * The position of the last element equal to x: the payload scans of
   * connectTo and BFS overwrite their result at every match.
   */
  function LastMatch<T(==)>(s: seq<T>, x: T): (r: Option<nat>)
    ensures r.None? <==> x !in s
    ensures r.Some? ==> r.value < |s| && s[r.value] == x
    ensures r.Some? ==> forall k :: r.value < k < |s| ==> s[k] != x
  {
    if s == [] then None
    else if s[|s| - 1] == x then Some(|s| - 1)
    else
      assert s == s[..|s| - 1] + [s[|s| - 1]];
      LastMatch(s[..|s| - 1], x)
  }

  /**
   * The position, in the neighbour list `list`, of the first neighbour whose
   * payload is x.
   */
  function FirstMatch<T(==)>(payload: seq<T>, list: seq<nat>, x: T): (r: Option<nat>)
    requires Below(list, |payload|)
    ensures r.Some? ==> r.value < |list| && payload[list[r.value]] == x
    ensures r.Some? ==> forall k :: 0 <= k < r.value ==> payload[list[k]] != x
    ensures r.None? ==> forall k :: 0 <= k < |list| ==> payload[list[k]] != x
  {
    if list == [] then None
    else if payload[list[0]] == x then Some(0)
    else match FirstMatch(payload, list[1..], x)
      case None => None
      case Some(k) => Some(k + 1)
  }

  /** The longest of the lists, an upper bound on every out-degree. */
  function MaxLen(E: seq<seq<nat>>): (r: nat)
    ensures forall v :: 0 <= v < |E| ==> |E[v]| <= r
    ensures |E| > 0 ==> exists v :: 0 <= v < |E| && |E[v]| == r
  {
    if E == [] then 0
    else
      var m := MaxLen(E[1..]);
      if |E[0]| >= m then |E[0]| else m
  }
}
