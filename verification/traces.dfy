/**
 * The FIFO discipline of the two queue searches, BFS and colorBFS, as a
 * replay over values: from visited flags and a queue, dequeue the vertices
 * of an order one at a time, each time marking the head visited and
 * appending the unvisited entries of its list, in list order. The queue
 * fixes every next vertex, so from a given start only one order can be
 * replayed, and a search's dequeue order, marks and parent links are
 * determined by where it starts.
 */
module Traces {
  import opened Wrappers
  import opened Search

  /** A search between two rounds: the visited flags and the queue. */
  datatype Snapshot = Snapshot(vis: seq<bool>, q: seq<nat>)

  /** The head of s's queue is v, a vertex of the graph. */
  predicate HeadIs(E: seq<seq<nat>>, s: Snapshot, v: nat)
  {
    s.q != [] && s.q[0] == v && v < |s.vis| && v < |E|
  }

  /** One round: dequeue the head, mark it visited, enqueue the unvisited entries of its list. */
  function Dequeue(E: seq<seq<nat>>, s: Snapshot): (r: Snapshot)
    requires s.q != [] && s.q[0] < |s.vis| && s.q[0] < |E|
    ensures |r.vis| == |s.vis| && r.vis[s.q[0]]
    ensures |r.q| <= |s.q| - 1 + |E[s.q[0]]|
  {
    var v := s.q[0];
    var vis := s.vis[v := true];
    Snapshot(vis, s.q[1..] + UnvisitedIn(E[v], vis))
  }

  /**
   * The state after the rounds that dequeue `order`, starting from flags
   * vis and queue q; None when some vertex of the order is not the head of
   * the queue at its turn.
   */
  ghost function Replay(E: seq<seq<nat>>, vis: seq<bool>, q: seq<nat>, order: seq<nat>): (r: Option<Snapshot>)
    ensures r.Some? ==> |r.value.vis| == |vis|
    ensures order == [] ==> r == Some(Snapshot(vis, q))
    decreases |order|
  {
    if order == [] then Some(Snapshot(vis, q))
    else
      var prev := Replay(E, vis, q, order[..|order| - 1]);
      if prev.Some? && HeadIs(E, prev.value, order[|order| - 1]) then Some(Dequeue(E, prev.value)) else None
  }

  /** A replay extends by the head of its queue, one round further. */
  lemma ReplayStep(E: seq<seq<nat>>, vis: seq<bool>, q: seq<nat>, order: seq<nat>, s: Snapshot)
    requires Replay(E, vis, q, order) == Some(s) && s.q != [] && s.q[0] < |s.vis| && s.q[0] < |E|
    ensures Replay(E, vis, q, order + [s.q[0]]) == Some(Dequeue(E, s))
  {
    assert (order + [s.q[0]])[..|order|] == order;
  }

  /** A replay extends by nothing but the head of its queue. */
  lemma ReplayOnlyHead(E: seq<seq<nat>>, vis: seq<bool>, q: seq<nat>, order: seq<nat>, s: Snapshot)
    requires Replay(E, vis, q, order) == Some(s)
    ensures forall x :: s.q == [] || x != s.q[0] ==> Replay(E, vis, q, order + [x]) == None
  {
    forall x | s.q == [] || x != s.q[0]
      ensures Replay(E, vis, q, order + [x]) == None
    {
      assert (order + [x])[..|order|] == order;
    }
  }

  /** Every prefix of a replayable order is replayable. */
  lemma {:induction false} ReplayPrefix(E: seq<seq<nat>>, vis: seq<bool>, q: seq<nat>, order: seq<nat>, k: nat)
    requires Replay(E, vis, q, order).Some? && k <= |order|
    ensures Replay(E, vis, q, order[..k]).Some?
    decreases |order|
  {
    if k < |order| {
      var p := order[..|order| - 1];
      ReplayPrefix(E, vis, q, p, k);
      assert p[..k] == order[..k];
    } else {
      assert order[..k] == order;
    }
  }

  /** A replayable order ends with the head of the queue its prefix leaves. */
  lemma ReplayLast(E: seq<seq<nat>>, vis: seq<bool>, q: seq<nat>, order: seq<nat>)
    requires Replay(E, vis, q, order).Some? && order != []
    ensures Replay(E, vis, q, order[..|order| - 1]).Some?
    ensures HeadIs(E, Replay(E, vis, q, order[..|order| - 1]).value, order[|order| - 1])
  {
  }

  /** Two replays from one start agree on their common length: the queue fixes each next vertex. */
  lemma {:induction false} ReplayDeterministic(E: seq<seq<nat>>, vis: seq<bool>, q: seq<nat>, o1: seq<nat>, o2: seq<nat>)
    requires Replay(E, vis, q, o1).Some? && Replay(E, vis, q, o2).Some? && |o2| <= |o1|
    ensures o1[..|o2|] == o2
    decreases |o2|
  {
    if o2 != [] {
      var k := |o2| - 1;
      var p2 := o2[..k];
      var p1 := o1[..|o2|];
      ReplayPrefix(E, vis, q, o1, |o2|);
      ReplayLast(E, vis, q, o2);
      ReplayDeterministic(E, vis, q, o1, p2);
      assert p1[..k] == p2;
      ReplayLast(E, vis, q, p1);
      assert p1 == p2 + [p1[k]] && o2 == p2 + [o2[k]];
    }
  }

  /** When a replay continues past a prefix, the next vertex is the head of the queue the prefix leaves. */
  lemma HeadAfterPrefix(E: seq<seq<nat>>, vis: seq<bool>, q: seq<nat>, o1: seq<nat>, o2: seq<nat>)
    requires Replay(E, vis, q, o1).Some? && |o2| < |o1| && o1[..|o2|] == o2
    ensures Replay(E, vis, q, o2).Some? && HeadIs(E, Replay(E, vis, q, o2).value, o1[|o2|])
  {
    var p := o1[..|o2| + 1];
    ReplayPrefix(E, vis, q, o1, |o2| + 1);
    ReplayLast(E, vis, q, p);
    assert p[..|o2|] == o2 && p[|o2|] == o1[|o2|];
  }

  /**
   * A replay that empties the queue is the whole run: every replay from
   * the same start is a prefix of it, so there is only one such run.
   */
  lemma RunIsUnique(E: seq<seq<nat>>, vis: seq<bool>, q: seq<nat>, run: seq<nat>, order: seq<nat>)
    requires Replay(E, vis, q, run).Some? && Replay(E, vis, q, run).value.q == []
    requires Replay(E, vis, q, order).Some?
    ensures |order| <= |run| && run[..|order|] == order
  {
    if |order| > |run| {
      ReplayDeterministic(E, vis, q, order, run);
      HeadAfterPrefix(E, vis, q, order, run);
    } else {
      ReplayDeterministic(E, vis, q, run, order);
    }
  }

  /** vis' marks exactly what vis marked and the vertices of order. */
  ghost predicate MarkedBy(vis: seq<bool>, vis': seq<bool>, order: seq<nat>)
  {
    |vis'| == |vis| && forall x :: 0 <= x < |vis| ==> (vis'[x] <==> vis[x] || x in order)
  }

  /** After a replay, a vertex is visited exactly when it was before or was dequeued. */
  lemma {:induction false} ReplayMarks(E: seq<seq<nat>>, vis: seq<bool>, q: seq<nat>, order: seq<nat>)
    requires Replay(E, vis, q, order).Some?
    ensures MarkedBy(vis, Replay(E, vis, q, order).value.vis, order)
    decreases |order|
  {
    if order != [] {
      var p := order[..|order| - 1];
      ReplayMarks(E, vis, q, p);
      assert order == p + [order[|order| - 1]];
    }
  }

  /**
   * The outcome of a search for e: no dequeued vertex holds e, and the
   * queue either ran dry or has a holder of e at its head.
   */
  ghost predicate Stopped<T>(E: seq<seq<nat>>, vis: seq<bool>, q: seq<nat>, order: seq<nat>, payload: seq<T>, e: T)
  {
    && Replay(E, vis, q, order).Some?
    && (forall k :: 0 <= k < |order| ==> order[k] < |payload| && payload[order[k]] != e)
    && var s := Replay(E, vis, q, order).value;
       s.q == [] || (s.q[0] < |payload| && payload[s.q[0]] == e)
  }

  /** A search for e stops after one order only: the first holder of e in FIFO order, or the whole run. */
  lemma StoppedUnique<T>(E: seq<seq<nat>>, vis: seq<bool>, q: seq<nat>, o1: seq<nat>, o2: seq<nat>, payload: seq<T>, e: T)
    requires Stopped(E, vis, q, o1, payload, e) && Stopped(E, vis, q, o2, payload, e)
    ensures o1 == o2
  {
    if |o2| <= |o1| {
      StoppedLonger(E, vis, q, o1, o2, payload, e);
    } else {
      StoppedLonger(E, vis, q, o2, o1, payload, e);
    }
  }

  lemma StoppedLonger<T>(E: seq<seq<nat>>, vis: seq<bool>, q: seq<nat>, o1: seq<nat>, o2: seq<nat>, payload: seq<T>, e: T)
    requires Stopped(E, vis, q, o1, payload, e) && Stopped(E, vis, q, o2, payload, e) && |o2| <= |o1|
    ensures o1 == o2
  {
    ReplayDeterministic(E, vis, q, o1, o2);
    if |o2| < |o1| {
      HeadAfterPrefix(E, vis, q, o1, o2);
    } else {
      assert o1[..|o2|] == o1;
    }
  }

  /** par with every vertex listed in `added` given the parent v. */
  function SetParent(par: seq<Option<nat>>, added: seq<nat>, v: nat): (r: seq<Option<nat>>)
    ensures |r| == |par|
    ensures forall x :: 0 <= x < |par| ==> r[x] == (if x in added then Some(v) else par[x])
  {
    seq(|par|, x requires 0 <= x < |par| => if x in added then Some(v) else par[x])
  }

  /**
   * The parent links after the rounds that dequeue `order`: every vertex a
   * round enqueues gets the dequeued vertex as parent, a later round
   * overwriting an earlier one.
   */
  ghost function ParentsAfter(E: seq<seq<nat>>, vis: seq<bool>, q: seq<nat>, par: seq<Option<nat>>, order: seq<nat>): (r: seq<Option<nat>>)
    ensures |r| == |par|
    decreases |order|
  {
    if order == [] then par
    else
      var p := order[..|order| - 1];
      var prev := Replay(E, vis, q, p);
      var v := order[|order| - 1];
      if prev.Some? && HeadIs(E, prev.value, v) then
        SetParent(ParentsAfter(E, vis, q, par, p), UnvisitedIn(E[v], prev.value.vis[v := true]), v)
      else ParentsAfter(E, vis, q, par, p)
  }

  /** One more round sets the parents of the vertices it enqueues. */
  lemma ParentsAfterStep(E: seq<seq<nat>>, vis: seq<bool>, q: seq<nat>, par: seq<Option<nat>>, order: seq<nat>, s: Snapshot)
    requires Replay(E, vis, q, order) == Some(s) && s.q != [] && s.q[0] < |s.vis| && s.q[0] < |E|
    ensures ParentsAfter(E, vis, q, par, order + [s.q[0]]) ==
      SetParent(ParentsAfter(E, vis, q, par, order), UnvisitedIn(E[s.q[0]], s.vis[s.q[0] := true]), s.q[0])
  {
    assert (order + [s.q[0]])[..|order|] == order;
  }

  /**
   * Every parent link the rounds set runs from an entry of a dequeued
   * vertex's list back to that vertex.
   */
  lemma {:induction false} ParentsAfterLink(E: seq<seq<nat>>, vis: seq<bool>, q: seq<nat>, par: seq<Option<nat>>, order: seq<nat>, x: nat)
    requires x < |par| && ParentsAfter(E, vis, q, par, order)[x] != par[x]
    ensures ParentsAfter(E, vis, q, par, order)[x].Some?
    ensures ParentsAfter(E, vis, q, par, order)[x].value in order
    ensures ParentsAfter(E, vis, q, par, order)[x].value < |E|
    ensures x in E[ParentsAfter(E, vis, q, par, order)[x].value]
    decreases |order|
  {
    var p := order[..|order| - 1];
    var prev := Replay(E, vis, q, p);
    var v := order[|order| - 1];
    var r := ParentsAfter(E, vis, q, par, order);
    if prev.Some? && HeadIs(E, prev.value, v) && x in UnvisitedIn(E[v], prev.value.vis[v := true]) {
      UnvisitedInMember(E[v], prev.value.vis[v := true]);
    } else {
      ParentsAfterLink(E, vis, q, par, p, x);
      var k :| 0 <= k < |p| && p[k] == r[x].value;
      assert order[k] == p[k];
    }
  }

  /**
   * A search for e from queue q0 and flags vis0, after dequeuing `order`:
   * the FIFO replay of the order left flags vis and queue q, the parent
   * links are the ones its rounds set over par0, and no dequeued vertex
   * holds e.
   */
  ghost predicate SearchTrace<T>(E: seq<seq<nat>>, vis0: seq<bool>, q0: seq<nat>, par0: seq<Option<nat>>, order: seq<nat>,
                                 vis: seq<bool>, par: seq<Option<nat>>, q: seq<nat>, payload: seq<T>, e: T)
  {
    && Replay(E, vis0, q0, order) == Some(Snapshot(vis, q))
    && ParentsAfter(E, vis0, q0, par0, order) == par
    && forall k :: 0 <= k < |order| ==> order[k] < |payload| && payload[order[k]] != e
  }

  /**
   * A round whose head does not hold e marks it, gives its unvisited
   * neighbours it as parent and enqueues them, in list order: the trace
   * grows by that head.
   */
  lemma SearchTraceStep<T>(E: seq<seq<nat>>, vis0: seq<bool>, q0: seq<nat>, par0: seq<Option<nat>>, order: seq<nat>,
                           vis: seq<bool>, par: seq<Option<nat>>, q: seq<nat>, payload: seq<T>, e: T,
                           par': seq<Option<nat>>, added: seq<nat>)
    requires SearchTrace(E, vis0, q0, par0, order, vis, par, q, payload, e)
    requires q != [] && q[0] < |vis| && q[0] < |E| && q[0] < |payload| && payload[q[0]] != e
    requires added == UnvisitedIn(E[q[0]], vis[q[0] := true])
    requires |par'| == |par| && forall x :: 0 <= x < |par| ==> par'[x] == (if x in added then Some(q[0]) else par[x])
    ensures SearchTrace(E, vis0, q0, par0, order + [q[0]], vis[q[0] := true], par', q[1..] + added, payload, e)
  {
    var v := q[0];
    ReplayStep(E, vis0, q0, order, Snapshot(vis, q));
    ParentsAfterStep(E, vis0, q0, par0, order, Snapshot(vis, q));
    assert par' == SetParent(par, added, v);
    assert forall k :: 0 <= k < |order| ==> (order + [v])[k] == order[k];
  }

  /** A trace whose queue ran dry, or whose head holds e, is where the search stops. */
  lemma SearchTraceStops<T>(E: seq<seq<nat>>, vis0: seq<bool>, q0: seq<nat>, par0: seq<Option<nat>>, order: seq<nat>,
                            vis: seq<bool>, par: seq<Option<nat>>, q: seq<nat>, payload: seq<T>, e: T)
    requires SearchTrace(E, vis0, q0, par0, order, vis, par, q, payload, e)
    requires q == [] || (q[0] < |payload| && payload[q[0]] == e)
    ensures Stopped(E, vis0, q0, order, payload, e)
  {
  }

  /**
   * A search from a for e on two vertices a and b that list only each
   * other, neither holding e nor visited: it dequeues a then b, runs dry,
   * and links b to a.
   */
  lemma FailedSearchOnPair<T>(E: seq<seq<nat>>, vis: seq<bool>, par: seq<Option<nat>>, a: nat, b: nat, payload: seq<T>, e: T)
    requires a < |E| && b < |E| && a != b && |vis| == |E| && |par| == |E|
    requires E[a] == [b] && E[b] == [a] && !vis[a] && !vis[b]
    requires a < |payload| && b < |payload| && payload[a] != e && payload[b] != e
    ensures Replay(E, vis, [a], [a, b]) == Some(Snapshot(vis[a := true][b := true], []))
    ensures Stopped(E, vis, [a], [a, b], payload, e)
    ensures ParentsAfter(E, vis, [a], par, [a, b]) == par[b := Some(a)]
  {
    var s0 := Snapshot(vis, [a]);
    var vis1 := vis[a := true];
    assert UnvisitedIn([b], vis1) == [b] by {
      assert [b][..0] == [];
    }
    var s1 := Snapshot(vis1, [b]);
    assert Dequeue(E, s0) == s1;
    ReplayStep(E, vis, [a], [], s0);
    ParentsAfterStep(E, vis, [a], par, [], s0);
    assert [] + [a] == [a];
    var vis2 := vis1[b := true];
    assert UnvisitedIn([a], vis2) == [] by {
      assert [a][..0] == [];
    }
    assert Dequeue(E, s1) == Snapshot(vis2, []);
    ReplayStep(E, vis, [a], [a], s1);
    ParentsAfterStep(E, vis, [a], par, [a], s1);
    assert [a] + [b] == [a, b];
    assert SetParent(SetParent(par, [b], a), [], b) == par[b := Some(a)];
  }
}
