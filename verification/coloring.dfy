/**
 * Facts about one colouring search over values: `col` holds each vertex's
 * colour (None before the first is assigned), `c0` is the colour every
 * vertex starts with, and vertex 0 is the search's start.
 */
module Coloring {
  import opened Wrappers
  import opened Selections
  import opened Walks
  import opened Measure
  import opened Search
  import opened Traces

  /**
   * The colours colorBFS can hand out on neighbour lists no longer than d:
   * its per-vertex counter never passes d, so at most the first d + 1.
   */
  function Palette<K>(colors: seq<K>, d: nat): (p: seq<K>)
    ensures |p| <= d + 1 && |p| <= |colors| && (|colors| > 0 ==> |p| > 0)
    ensures forall c :: 0 <= c <= d && c < |colors| ==> colors[c] in p
  {
    var p := colors[..if d + 1 < |colors| then d + 1 else |colors|];
    assert forall c :: 0 <= c <= d && c < |colors| ==> p[c] == colors[c];
    p
  }

  /** n vertices all holding colour c. */
  function Uniform<K>(n: nat, c: K): (r: seq<Option<K>>)
    ensures |r| == n && forall x :: 0 <= x < n ==> r[x] == Some(c)
  {
    seq(n, _ => Some(c))
  }

  /**
   * The outcome of recolouring: whether it ran to the end (false when the
   * counter passed the palette, where the source fails on the array
   * access), and the colours it left.
   */
  datatype Outcome<K> = Outcome(ok: bool, col: seq<Option<K>>)

  /**
   * The neighbour scan of colorBFS for the dequeued vertex v over the rest
   * N of its list, with the counter at c: a neighbour whose colour equals
   * v's colour at that moment (re-read at every step, so a self-loop
   * recolours v itself) bumps the counter and takes colors[counter]; a
   * counter past the palette stops the scan, keeping the colours set so far;
   * that needs at least |colors| - c entries left.
   */
  function RecolorScan<K(==)>(col: seq<Option<K>>, v: nat, N: seq<nat>, colors: seq<K>, c: nat): (r: Outcome<K>)
    requires v < |col| && Below(N, |col|)
    ensures |r.col| == |col|
    ensures !r.ok ==> c + |N| >= |colors|
    decreases |N|
  {
    if N == [] then Outcome(true, col)
    else if col[v] == col[N[0]] then
      if c + 1 >= |colors| then Outcome(false, col)
      else RecolorScan(col[N[0] := Some(colors[c + 1])], v, N[1..], colors, c + 1)
    else RecolorScan(col, v, N[1..], colors, c)
  }

  /** One step of the scan, taken at position j of the whole list N. */
  lemma RecolorScanAt<K>(col: seq<Option<K>>, v: nat, N: seq<nat>, j: nat, colors: seq<K>, c: nat)
    requires v < |col| && Below(N, |col|) && j < |N|
    ensures Below(N[j..], |col|) && Below(N[j + 1..], |col|)
    ensures RecolorScan(col, v, N[j..], colors, c) ==
      if col[v] != col[N[j]] then RecolorScan(col, v, N[j + 1..], colors, c)
      else if c + 1 >= |colors| then Outcome(false, col)
      else RecolorScan(col[N[j] := Some(colors[c + 1])], v, N[j + 1..], colors, c + 1)
  {
  }

  /** A scan changes only the colours of vertices in N. */
  lemma {:induction false} RecolorScanWithin<K>(col: seq<Option<K>>, v: nat, N: seq<nat>, colors: seq<K>, c: nat)
    requires v < |col| && Below(N, |col|)
    ensures RecoloredWithin(col, RecolorScan(col, v, N, colors, c).col, N)
    decreases |N|
  {
    if N != [] {
      if col[v] == col[N[0]] {
        if c + 1 < |colors| {
          RecolorScanWithin(col[N[0] := Some(colors[c + 1])], v, N[1..], colors, c + 1);
        }
      } else {
        RecolorScanWithin(col, v, N[1..], colors, c);
      }
    }
  }

  /**
   * The counter ends at most |N| above where it started: every colour a
   * scan hands out is among the first c + |N| + 1 palette entries.
   */
  lemma {:induction false} RecolorScanPalette<K>(col: seq<Option<K>>, v: nat, N: seq<nat>, colors: seq<K>, c: nat, d: nat)
    requires v < |col| && Below(N, |col|)
    requires c + |N| <= d && ColoredFrom(col, Palette(colors, d))
    ensures ColoredFrom(RecolorScan(col, v, N, colors, c).col, Palette(colors, d))
    decreases |N|
  {
    if N != [] {
      if col[v] == col[N[0]] {
        if c + 1 < |colors| {
          RecolorScanPalette(col[N[0] := Some(colors[c + 1])], v, N[1..], colors, c + 1, d);
        }
      } else {
        RecolorScanPalette(col, v, N[1..], colors, c, d);
      }
    }
  }

  /**
   * The colouring is not proper: a neighbour sharing v's colour colors[1]
   * is handed colors[1] again on the counter's first bump, and keeps it.
   */
  lemma ClashSurvives()
    ensures var r := RecolorScan([Some(1), Some(1)], 0, [1], [0, 1, 2], 0);
      r.ok && r.col[0] == r.col[1] == Some(1)
  {
    var col: seq<Option<int>> := [Some(1), Some(1)];
    assert col[1 := Some(1)] == col;
  }

  /** Every neighbour list holds vertices of the graph. */
  predicate ListsInRange(E: seq<seq<nat>>)
  {
    forall v :: 0 <= v < |E| ==> Below(E[v], |E|)
  }

  /**
   * colorBFS's recolouring over the order in which vertices were dequeued:
   * each dequeued vertex scans its whole list, counter from 0, starting from
   * the colours the earlier scans left; the first failing scan ends it,
   * and only a list at least as long as the palette can fail.
   */
  ghost function RecolorAll<K>(E: seq<seq<nat>>, col: seq<Option<K>>, order: seq<nat>, colors: seq<K>): (r: Outcome<K>)
    requires |col| == |E| && ListsInRange(E)
    requires forall k :: 0 <= k < |order| ==> order[k] < |E|
    ensures |r.col| == |col|
    ensures !r.ok ==> exists k :: 0 <= k < |order| && |E[order[k]]| >= |colors|
    decreases |order|
  {
    if order == [] then Outcome(true, col)
    else
      var prev := RecolorAll(E, col, order[..|order| - 1], colors);
      var v := order[|order| - 1];
      if !prev.ok then prev else RecolorScan(prev.col, v, E[v], colors, 0)
  }

  /** Dequeuing v after a successful replay of order scans v's list from where the replay left off. */
  lemma RecolorAllStep<K>(E: seq<seq<nat>>, col0: seq<Option<K>>, order: seq<nat>, v: nat, colors: seq<K>, col: seq<Option<K>>)
    requires |col0| == |E| && ListsInRange(E) && v < |E|
    requires forall k :: 0 <= k < |order| ==> order[k] < |E|
    requires RecolorAll(E, col0, order, colors) == Outcome(true, col)
    ensures forall k :: 0 <= k < |order + [v]| ==> (order + [v])[k] < |E|
    ensures RecolorAll(E, col0, order + [v], colors) == RecolorScan(col, v, E[v], colors, 0)
  {
    assert (order + [v])[..|order|] == order;
  }

  /** Over any dequeue order, every colour stays among the first MaxLen + 1 palette entries. */
  lemma {:induction false} RecolorAllPalette<K>(E: seq<seq<nat>>, col: seq<Option<K>>, order: seq<nat>, colors: seq<K>, d: nat)
    requires |col| == |E| && ListsInRange(E)
    requires forall k :: 0 <= k < |order| ==> order[k] < |E|
    requires (forall v :: 0 <= v < |E| ==> |E[v]| <= d) && ColoredFrom(col, Palette(colors, d))
    ensures ColoredFrom(RecolorAll(E, col, order, colors).col, Palette(colors, d))
    decreases |order|
  {
    if order != [] {
      var prev := RecolorAll(E, col, order[..|order| - 1], colors);
      RecolorAllPalette(E, col, order[..|order| - 1], colors, d);
      if prev.ok {
        var v := order[|order| - 1];
        RecolorScanPalette(prev.col, v, E[v], colors, 0, d);
      }
    }
  }

  /** Every vertex holds a colour from the palette P. */
  ghost predicate ColoredFrom<K>(col: seq<Option<K>>, P: seq<K>)
  {
    forall x :: 0 <= x < |col| ==> col[x].Some? && col[x].value in P
  }

  /** Between col and col' only vertices listed in N changed colour. */
  ghost predicate RecoloredWithin<K>(col: seq<Option<K>>, col': seq<Option<K>>, N: seq<nat>)
  {
    |col| == |col'| && forall x :: 0 <= x < |col| && col'[x] != col[x] ==> x in N
  }

  /** Every vertex whose colour differs from c0 is reachable from vertex 0. */
  ghost predicate RecoloredReachable<K>(E: seq<seq<nat>>, col: seq<Option<K>>, c0: K)
  {
    forall x :: 0 <= x < |col| && col[x] != Some(c0) ==> Reachable(E, 0, x)
  }

  /** Vertices marked since `before` are reachable from 0, and no mark was cleared. */
  ghost predicate VisitedSince(E: seq<seq<nat>>, before: seq<bool>, vis: seq<bool>)
  {
    && |before| == |vis|
    && forall x :: 0 <= x < |vis| ==> (before[x] ==> vis[x]) && (vis[x] && !before[x] ==> Reachable(E, 0, x))
  }

  /** Once every vertex reachable from 0 is marked, every unmarked vertex still holds c0. */
  lemma UnmarkedKeepColor<K>(E: seq<seq<nat>>, col: seq<Option<K>>, vis: seq<bool>, c0: K)
    requires |col| == |vis| && RecoloredReachable(E, col, c0)
    requires forall x: nat :: Reachable(E, 0, x) ==> x < |vis| && vis[x]
    ensures forall x :: 0 <= x < |vis| && !vis[x] ==> col[x] == Some(c0)
  {
  }

  /** Every vertex of the dequeue order is marked visited and reachable from 0. */
  ghost predicate Dequeued(E: seq<seq<nat>>, vis: seq<bool>, order: seq<nat>)
  {
    forall k :: 0 <= k < |order| ==> order[k] < |vis| && vis[order[k]] && Reachable(E, 0, order[k])
  }

  /** Dequeuing and marking a vertex reachable from 0 keeps the order Dequeued. */
  lemma DequeuedStep(E: seq<seq<nat>>, vis: seq<bool>, order: seq<nat>, v: nat)
    requires Dequeued(E, vis, order) && v < |vis| && Reachable(E, 0, v)
    ensures Dequeued(E, vis[v := true], order + [v])
  {
  }

  /**
   * The state of the colouring search after dequeuing `order` from vertex 0
   * with flags `before`: the order is the FIFO replay, which left the flags
   * vis and, while the search is still ok, the queue q; the colours are the
   * scans replayed over the order from init; and a failure is the last
   * scan's, every earlier one having succeeded.
   */
  ghost predicate ColorTrace<K>(E: seq<seq<nat>>, before: seq<bool>, init: seq<Option<K>>, colors: seq<K>,
                                order: seq<nat>, vis: seq<bool>, col: seq<Option<K>>, q: seq<nat>, ok: bool)
  {
    && |init| == |E| && |vis| == |E| && ListsInRange(E)
    && Dequeued(E, vis, order)
    && RecolorAll(E, init, order, colors) == Outcome(ok, col)
    && (!ok ==> order != [] && RecolorAll(E, init, order[..|order| - 1], colors).ok)
    && Replay(E, before, [0], order).Some?
    && Replay(E, before, [0], order).value.vis == vis
    && (ok ==> Replay(E, before, [0], order).value.q == q)
  }

  /** One round, dequeuing the head of the queue and scanning its list, extends the trace by that vertex. */
  lemma ColorTraceStep<K>(E: seq<seq<nat>>, before: seq<bool>, init: seq<Option<K>>, colors: seq<K>,
                          order: seq<nat>, vis: seq<bool>, col: seq<Option<K>>, q: seq<nat>,
                          col': seq<Option<K>>, q': seq<nat>, ok': bool)
    requires ColorTrace(E, before, init, colors, order, vis, col, q, true)
    requires q != [] && q[0] < |E| && Reachable(E, 0, q[0])
    requires Outcome(ok', col') == RecolorScan(col, q[0], E[q[0]], colors, 0)
    requires ok' ==> q' == q[1..] + UnvisitedIn(E[q[0]], vis[q[0] := true])
    ensures ColorTrace(E, before, init, colors, order + [q[0]], vis[q[0] := true], col', q', ok')
  {
    var v := q[0];
    ReplayStep(E, before, [0], order, Snapshot(vis, q));
    RecolorAllStep(E, init, order, v, colors, col);
    DequeuedStep(E, vis, order, v);
    assert (order + [v])[..|order|] == order;
  }

  /**
   * A trace whose search stopped (the queue ran dry, or a scan failed) is
   * the trace of a finished search, and its flags mark exactly the vertices
   * marked before and the dequeued ones.
   */
  lemma ColorTraceDone<K>(E: seq<seq<nat>>, before: seq<bool>, init: seq<Option<K>>, colors: seq<K>,
                          order: seq<nat>, vis: seq<bool>, col: seq<Option<K>>, q: seq<nat>, ok: bool)
    requires ColorTrace(E, before, init, colors, order, vis, col, q, ok) && (ok ==> q == [])
    ensures ColorTrace(E, before, init, colors, order, vis, col, [], ok)
    ensures MarkedBy(before, vis, order)
  {
    ReplayMarks(E, before, [0], order);
  }

  /** Once a replay of the scans fails, every longer replay fails too. */
  lemma {:induction false} RecolorAllFailStays<K>(E: seq<seq<nat>>, col: seq<Option<K>>, order: seq<nat>, colors: seq<K>, k: nat)
    requires |col| == |E| && ListsInRange(E)
    requires forall i :: 0 <= i < |order| ==> order[i] < |E|
    requires k <= |order| && !RecolorAll(E, col, order[..k], colors).ok
    ensures !RecolorAll(E, col, order, colors).ok
    decreases |order|
  {
    if k < |order| {
      var p := order[..|order| - 1];
      assert p[..k] == order[..k];
      RecolorAllFailStays(E, col, p, colors, k);
    } else {
      assert order[..k] == order;
    }
  }

  /** A finished trace cannot be extended to another finished trace. */
  lemma ColorTraceNotLonger<K>(E: seq<seq<nat>>, before: seq<bool>, init: seq<Option<K>>, colors: seq<K>,
                               o1: seq<nat>, vis1: seq<bool>, col1: seq<Option<K>>, ok1: bool,
                               o2: seq<nat>, vis2: seq<bool>, col2: seq<Option<K>>, ok2: bool)
    requires ColorTrace(E, before, init, colors, o1, vis1, col1, [], ok1)
    requires ColorTrace(E, before, init, colors, o2, vis2, col2, [], ok2)
    requires |o2| <= |o1|
    ensures o1 == o2
  {
    ReplayDeterministic(E, before, [0], o1, o2);
    if |o2| < |o1| {
      if ok2 {
        HeadAfterPrefix(E, before, [0], o1, o2);
      } else if ok1 {
        RecolorAllFailStays(E, init, o1, colors, |o2|);
      } else {
        var p := o1[..|o1| - 1];
        assert p[..|o2|] == o2;
        RecolorAllFailStays(E, init, p, colors, |o2|);
      }
    } else {
      assert o1[..|o2|] == o1;
    }
  }

  /**
   * The colouring search has one outcome: two finished traces from the
   * same flags, colours and palette dequeue the same vertices and leave
   * the same flags, colours and verdict.
   */
  lemma ColorTraceUnique<K>(E: seq<seq<nat>>, before: seq<bool>, init: seq<Option<K>>, colors: seq<K>,
                            o1: seq<nat>, vis1: seq<bool>, col1: seq<Option<K>>, ok1: bool,
                            o2: seq<nat>, vis2: seq<bool>, col2: seq<Option<K>>, ok2: bool)
    requires ColorTrace(E, before, init, colors, o1, vis1, col1, [], ok1)
    requires ColorTrace(E, before, init, colors, o2, vis2, col2, [], ok2)
    ensures o1 == o2 && vis1 == vis2 && col1 == col2 && ok1 == ok2
  {
    if |o2| <= |o1| {
      ColorTraceNotLonger(E, before, init, colors, o1, vis1, col1, ok1, o2, vis2, col2, ok2);
    } else {
      ColorTraceNotLonger(E, before, init, colors, o2, vis2, col2, ok2, o1, vis1, col1, ok1);
    }
  }

  /** Every queue entry is reachable from 0. */
  ghost predicate QueueReachable(E: seq<seq<nat>>, q: seq<nat>)
  {
    forall k :: 0 <= k < |q| ==> Reachable(E, 0, q[k])
  }

  /** Recolouring neighbours of a vertex reachable from 0 keeps recoloured vertices reachable. */
  lemma RecolorReachable<K>(E: seq<seq<nat>>, col: seq<Option<K>>, col': seq<Option<K>>, c0: K, v: nat)
    requires v < |E| && Reachable(E, 0, v) && forall w :: w in E[v] ==> w < |E|
    requires RecoloredReachable(E, col, c0) && RecoloredWithin(col, col', E[v])
    ensures RecoloredReachable(E, col', c0)
  {
    NeighboursReachable(E, 0, v);
  }

  /** Marking a vertex reachable from 0 keeps the marks accounted for. */
  lemma VisitedSinceMark(E: seq<seq<nat>>, before: seq<bool>, vis: seq<bool>, v: nat)
    requires VisitedSince(E, before, vis) && v < |vis| && Reachable(E, 0, v)
    ensures VisitedSince(E, before, vis[v := true])
  {
  }

  /** Dequeueing v and enqueueing neighbours of v keeps the queue reachable from 0. */
  lemma QueueReachableStep(E: seq<seq<nat>>, q: seq<nat>, added: seq<nat>)
    requires q != [] && q[0] < |E| && QueueReachable(E, q) && forall w :: w in E[q[0]] ==> w < |E|
    requires forall k :: 0 <= k < |added| ==> added[k] in E[q[0]]
    ensures QueueReachable(E, q[1..] + added)
  {
    NeighboursReachable(E, 0, q[0]);
    var q' := q[1..] + added;
    forall k | 0 <= k < |q'|
      ensures Reachable(E, 0, q'[k])
    {
      if k < |q| - 1 {
        assert q'[k] == q[k + 1];
      } else {
        assert q'[k] == added[k - (|q| - 1)];
      }
    }
  }

  /**
   * One round of the colouring search's queue loop: dequeue q0[0], mark it,
   * append its unmarked neighbours. The queue stays reachable from 0, the
   * levels stay consistent, the marked vertices stay closed up to the queue,
   * and the termination measure drops.
   */
  lemma QueueStep(E: seq<seq<nat>>, vis0: seq<bool>, vis1: seq<bool>, q0: seq<nat>, q: seq<nat>,
                  lv0: seq<nat>, lv: seq<nat>, added: seq<nat>, unmarked: bool, D: nat)
    requires q0 != [] && |vis0| == |E| && forall v, w :: 0 <= v < |E| && w in E[v] ==> w < |E|
    requires Levels(vis0, q0, lv0) && QueueReachable(E, q0)
    requires unmarked ==> (|vis0| > 0 && vis0[0]) || q0 == [0]
    requires unmarked ==> ClosedUpTo(E, vis0, q0)
    requires vis1 == vis0[q0[0] := true]
    requires Scanned(E, vis1, q0[0], q0[1..], q, added) && |added| <= D
    requires lv == lv0[1..] + Repeat(|Unvisited(vis1)|, |added|)
    ensures Levels(vis1, q, lv) && QueueReachable(E, q)
    ensures unmarked ==> vis1[0] || q == [0]
    ensures unmarked ==> ClosedUpTo(E, vis1, q)
    ensures Weight(lv, D + 1) < Weight(lv0, D + 1)
  {
    QueueReachableStep(E, q0, added);
    LevelsStep(vis0, vis1, q0, lv0, added);
    DequeueLowersWeight(lv0, |Unvisited(vis1)|, |added|, D);
    if unmarked {
      ClosureStep(E, vis0, q0, q, added);
    }
  }
}
