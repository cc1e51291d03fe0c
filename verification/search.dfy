/**
 * Breadth-first search over values. A search state is the neighbour lists
 * E, the visited flags `vis`, the parent links `par`, the queue `q` and a
 * ghost rank per vertex; the lemmas here carry the search's invariants
 * across one dequeue.
 */
module Search {
  import opened Wrappers
  import opened Walks
  import opened Measure

  /** The vertices not yet visited. */
  ghost function Unvisited(vis: seq<bool>): set<nat>
  {
    set v: nat | v < |vis| && !vis[v]
  }

  /** Marking v visited removes it, and only it, from the unvisited set. */
  lemma UnvisitedMark(vis: seq<bool>, v: nat)
    requires v < |vis|
    ensures Unvisited(vis[v := true]) == Unvisited(vis) - {v}
    ensures |Unvisited(vis[v := true])| == |Unvisited(vis)| - (if vis[v] then 0 else 1)
  {
    assert Unvisited(vis[v := true]) == Unvisited(vis) - {v};
  }

  /**
   * The termination bookkeeping of a search: each queue entry carries a
   * level that is at least the number of unvisited vertices, and one more
   * while the entry itself is visited. A dequeue therefore replaces one
   * level by entries of strictly smaller level.
   */
  ghost predicate Levels(vis: seq<bool>, q: seq<nat>, lv: seq<nat>)
  {
    && |lv| == |q|
    && forall k :: 0 <= k < |q| ==> q[k] < |vis| && lv[k] >= |Unvisited(vis)| + (if vis[q[k]] then 1 else 0)
  }

  lemma LevelsStart(vis: seq<bool>, s: nat)
    requires s < |vis|
    ensures Levels(vis, [s], [|Unvisited(vis)| + 1])
  {
  }

  /**
   * Dequeueing q[0], marking it visited and enqueueing unvisited vertices
   * at the new unvisited count keeps the levels, and the dequeued level is
   * above that count.
   */
  lemma LevelsStep(vis: seq<bool>, vis': seq<bool>, q: seq<nat>, lv: seq<nat>, added: seq<nat>)
    requires Levels(vis, q, lv) && q != []
    requires vis' == vis[q[0] := true]
    requires forall k :: 0 <= k < |added| ==> added[k] < |vis'| && !vis'[added[k]]
    ensures lv[0] >= |Unvisited(vis')| + 1
    ensures Levels(vis', q[1..] + added, lv[1..] + Repeat(|Unvisited(vis')|, |added|))
  {
    UnvisitedMark(vis, q[0]);
    LevelsTail(vis, vis', q, lv);
    LevelsAppend(vis', q[1..], lv[1..], added);
  }

  /** Dequeueing q[0] and marking it visited keeps the levels of the rest of the queue. */
  lemma LevelsTail(vis: seq<bool>, vis': seq<bool>, q: seq<nat>, lv: seq<nat>)
    requires Levels(vis, q, lv) && q != []
    requires vis' == vis[q[0] := true]
    requires |Unvisited(vis')| == |Unvisited(vis)| - (if vis[q[0]] then 0 else 1)
    ensures Levels(vis', q[1..], lv[1..])
  {
  }

  /** Enqueueing unvisited vertices at the current unvisited count keeps the levels. */
  lemma LevelsAppend(vis: seq<bool>, q: seq<nat>, lv: seq<nat>, added: seq<nat>)
    requires Levels(vis, q, lv)
    requires forall k :: 0 <= k < |added| ==> added[k] < |vis| && !vis[added[k]]
    ensures Levels(vis, q + added, lv + Repeat(|Unvisited(vis)|, |added|))
  {
  }

  /** Parent links follow edges (the child is in the parent's list) and climb in rank. */
  ghost predicate Ranked(E: seq<seq<nat>>, par: seq<Option<nat>>, rank: seq<nat>)
  {
    && |par| == |E| && |rank| == |E|
    && forall v :: 0 <= v < |E| && par[v].Some? ==>
         par[v].value < |E| && v in E[par[v].value] && rank[par[v].value] < rank[v]
  }

  /** Every visited vertex but the start has a parent, and parents are visited. */
  ghost predicate Tree(vis: seq<bool>, par: seq<Option<nat>>, start: nat)
  {
    && |vis| == |par|
    && (forall v :: 0 <= v < |vis| && vis[v] && v != start ==> par[v].Some?)
    && (forall v :: 0 <= v < |par| && par[v].Some? ==> par[v].value < |vis| && vis[par[v].value])
  }

  /**
   * The state of a search from `start` for payload e that began with no
   * vertex visited and no parent set: parent links form a ranked tree over
   * the visited vertices rooted at the start, no visited vertex holds e,
   * and every neighbour of a visited vertex is visited or queued.
   */
  ghost predicate Frontier<T>(E: seq<seq<nat>>, vis: seq<bool>, par: seq<Option<nat>>, rank: seq<nat>,
                              q: seq<nat>, start: nat, payload: seq<T>, e: T)
  {
    && |vis| == |E| && |payload| == |E| && start < |E|
    && Ranked(E, par, rank) && Tree(vis, par, start)
    && par[start] == None
    && (!vis[start] ==> q == [start] && forall v :: 0 <= v < |vis| ==> !vis[v])
    && (forall v :: 0 <= v < |vis| && vis[v] ==> payload[v] != e)
    && ClosedUpTo(E, vis, q)
    && (forall k :: 0 <= k < |q| ==> q[k] < |E| && (q[k] != start ==> par[q[k]].Some?))
  }

  lemma FrontierStart<T>(E: seq<seq<nat>>, vis: seq<bool>, par: seq<Option<nat>>, rank: seq<nat>,
                         start: nat, payload: seq<T>, e: T)
    requires |vis| == |E| && |par| == |E| && |rank| == |E| && |payload| == |E| && start < |E|
    requires forall v :: 0 <= v < |E| ==> !vis[v] && par[v] == None
    ensures Frontier(E, vis, par, rank, [start], start, payload, e)
  {
  }

  /** Giving the vertices in `added` the parent v, one rank above v, keeps the links ranked. */
  lemma RankedStep(E: seq<seq<nat>>, par: seq<Option<nat>>, rank: seq<nat>, v: nat,
                   added: seq<nat>, par': seq<Option<nat>>, rank': seq<nat>)
    requires Ranked(E, par, rank) && v < |E| && v !in added
    requires forall w :: w in added ==> w in E[v]
    requires forall x :: 0 <= x < |E| && par[x].Some? ==> par[x].value !in added
    requires |par'| == |E| && |rank'| == |E|
    requires forall x :: 0 <= x < |E| ==> par'[x] == (if x in added then Some(v) else par[x])
    requires forall x :: 0 <= x < |E| ==> rank'[x] == (if x in added then rank[v] + 1 else rank[x])
    ensures Ranked(E, par', rank')
  {
  }

  /** Marking v visited and giving the vertices in `added` the parent v keeps the tree. */
  lemma TreeStep(vis: seq<bool>, par: seq<Option<nat>>, start: nat, v: nat,
                 added: seq<nat>, par': seq<Option<nat>>)
    requires Tree(vis, par, start) && v < |vis| && v !in added
    requires v != start ==> par[v].Some?
    requires |par'| == |par|
    requires forall x :: 0 <= x < |par| ==> par'[x] == (if x in added then Some(v) else par[x])
    ensures Tree(vis[v := true], par', start)
  {
  }

  /**
   * The entries of the list N that are not visited, in list order. An
   * unvisited vertex listed twice is kept twice, and a vertex already
   * waiting in the queue is kept: a scan enqueues it again.
   */
  function UnvisitedIn(N: seq<nat>, vis: seq<bool>): (r: seq<nat>)
    ensures |r| <= |N|
    decreases |N|
  {
    if N == [] then []
    else UnvisitedIn(N[..|N| - 1], vis) + (if N[|N| - 1] < |vis| && !vis[N[|N| - 1]] then [N[|N| - 1]] else [])
  }

  /** Extending the scanned prefix of N by one entry. */
  lemma UnvisitedInStep(N: seq<nat>, j: nat, vis: seq<bool>)
    requires j < |N|
    ensures UnvisitedIn(N[..j + 1], vis) == UnvisitedIn(N[..j], vis) + (if N[j] < |vis| && !vis[N[j]] then [N[j]] else [])
  {
    assert N[..j + 1][..j] == N[..j];
  }

  /** w is kept exactly when it is listed and not visited. */
  lemma {:induction false} UnvisitedInMember(N: seq<nat>, vis: seq<bool>)
    ensures forall w :: w in UnvisitedIn(N, vis) <==> w in N && w < |vis| && !vis[w]
    decreases |N|
  {
    if N != [] {
      var M := N[..|N| - 1];
      UnvisitedInMember(M, vis);
      assert N == M + [N[|N| - 1]];
    }
  }

  /**
   * q' is q followed by `added`: the unvisited entries of v's list, in list
   * order, whether or not they already wait in q. So every neighbour of v
   * is now visited or queued.
   */
  ghost predicate Scanned(E: seq<seq<nat>>, vis: seq<bool>, v: nat, q: seq<nat>, q': seq<nat>, added: seq<nat>)
  {
    && v < |E| && |vis| == |E|
    && q' == q + added
    && added == UnvisitedIn(E[v], vis)
    && (forall k :: 0 <= k < |added| ==> added[k] < |E| && !vis[added[k]] && added[k] in E[v])
    && (forall w :: w in E[v] ==> w in q' || (w < |E| && vis[w]))
  }

  /** Enqueuing the unvisited entries of v's list completes a scan of v. */
  lemma ScannedByUnvisited(E: seq<seq<nat>>, vis: seq<bool>, v: nat, q: seq<nat>)
    requires v < |E| && |vis| == |E| && forall w :: w in E[v] ==> w < |E|
    ensures Scanned(E, vis, v, q, q + UnvisitedIn(E[v], vis), UnvisitedIn(E[v], vis))
  {
    var added := UnvisitedIn(E[v], vis);
    UnvisitedInMember(E[v], vis);
    assert forall k :: 0 <= k < |added| ==> added[k] in added;
  }

  /**
   * The neighbour scan of a search: q' is q followed by `added`, which are
   * unvisited neighbours of v; every neighbour of v is now visited or
   * queued; the added vertices have parent v and one rank more than v,
   * and no other vertex's parent or rank changed.
   */
  ghost predicate Enqueued(E: seq<seq<nat>>, vis: seq<bool>, v: nat, q: seq<nat>, q': seq<nat>, added: seq<nat>,
                           par: seq<Option<nat>>, par': seq<Option<nat>>, rank: seq<nat>, rank': seq<nat>)
  {
    && Scanned(E, vis, v, q, q', added)
    && |par| == |E| && |par'| == |E| && |rank| == |E| && |rank'| == |E|
    && (forall x :: 0 <= x < |E| ==> par'[x] == (if x in added then Some(v) else par[x]))
    && (forall x :: 0 <= x < |E| ==> rank'[x] == (if x in added then rank[v] + 1 else rank[x]))
  }

  /** Every neighbour of a visited vertex is visited or waiting in the queue q. */
  ghost predicate ClosedUpTo(E: seq<seq<nat>>, vis: seq<bool>, q: seq<nat>)
  {
    forall v, w :: 0 <= v < |E| && v < |vis| && vis[v] && w in E[v] ==> w in q || (w < |vis| && vis[w])
  }

  /** With an empty queue, the visited vertices are closed under neighbours; so they hold all that the start reaches. */
  lemma ClosedUpToDone(E: seq<seq<nat>>, vis: seq<bool>, start: nat)
    requires |vis| == |E| && ClosedUpTo(E, vis, []) && start < |E| && vis[start]
    requires forall v, w :: 0 <= v < |E| && w in E[v] ==> w < |E|
    ensures forall x: nat :: Reachable(E, start, x) ==> x < |E| && vis[x]
  {
    forall x: nat | Reachable(E, start, x)
      ensures x < |E| && vis[x]
    {
      ClosedContainsReachable(E, vis, start, x);
    }
  }

  /**
   * Marking q[0] visited and replacing q by q' = q[1..] + added keeps every
   * neighbour of a visited vertex visited or queued, once q[0]'s own
   * neighbours are visited or in q'.
   */
  lemma ClosureStep(E: seq<seq<nat>>, vis: seq<bool>, q: seq<nat>, q': seq<nat>, added: seq<nat>)
    requires q != [] && q[0] < |vis| && |vis| == |E| && q' == q[1..] + added
    requires ClosedUpTo(E, vis, q)
    requires forall w :: w in E[q[0]] ==> w in q' || (w < |E| && vis[q[0] := true][w])
    ensures ClosedUpTo(E, vis[q[0] := true], q')
  {
    var v, vis' := q[0], vis[q[0] := true];
    forall x, w | 0 <= x < |E| && vis'[x] && w in E[x]
      ensures w in q' || (w < |vis'| && vis'[w])
    {
      if x != v && w in q && w != v {
        var k :| 0 <= k < |q| && q[k] == w;
        assert q'[k - 1] == w;
      }
    }
  }

  /**
   * One dequeue of a search that does not stop: q[0] does not hold e, it is
   * marked visited, and its unvisited neighbours are enqueued.
   */
  lemma FrontierStep<T>(E: seq<seq<nat>>, vis: seq<bool>, vis': seq<bool>, par: seq<Option<nat>>, rank: seq<nat>,
                        q: seq<nat>, start: nat, payload: seq<T>, e: T,
                        q': seq<nat>, added: seq<nat>, par': seq<Option<nat>>, rank': seq<nat>)
    requires Frontier(E, vis, par, rank, q, start, payload, e) && q != []
    requires vis' == vis[q[0] := true] && payload[q[0]] != e
    requires Enqueued(E, vis', q[0], q[1..], q', added, par, par', rank, rank')
    ensures Frontier(E, vis', par', rank', q', start, payload, e)
  {
    var v := q[0];
    RankedStep(E, par, rank, v, added, par', rank');
    TreeStep(vis, par, start, v, added, par');
    assert vis[start] || v == start;
    ClosureStep(E, vis, q, q', added);
    QueueParented(E, q, q', added, par, par', start, v);
  }

  /** After a scan of v, every queued vertex but the start still has a parent. */
  lemma QueueParented(E: seq<seq<nat>>, q: seq<nat>, q': seq<nat>, added: seq<nat>,
                      par: seq<Option<nat>>, par': seq<Option<nat>>, start: nat, v: nat)
    requires q != [] && q' == q[1..] + added && |par| == |E| && |par'| == |E|
    requires forall k :: 0 <= k < |q| ==> q[k] < |E| && (q[k] != start ==> par[q[k]].Some?)
    requires forall k :: 0 <= k < |added| ==> added[k] < |E|
    requires forall x :: 0 <= x < |E| ==> par'[x] == (if x in added then Some(v) else par[x])
    ensures forall k :: 0 <= k < |q'| ==> q'[k] < |E| && (q'[k] != start ==> par'[q'[k]].Some?)
  {
  }

  /** A search whose queue ran dry has visited everything reachable from the start, and found no e there. */
  lemma FrontierDone<T>(E: seq<seq<nat>>, vis: seq<bool>, par: seq<Option<nat>>, rank: seq<nat>,
                        start: nat, payload: seq<T>, e: T)
    requires Frontier(E, vis, par, rank, [], start, payload, e)
    requires forall v, w :: 0 <= v < |E| && w in E[v] ==> w < |E|
    ensures forall x: nat :: Reachable(E, start, x) ==> x < |E| && payload[x] != e
  {
    forall x: nat | Reachable(E, start, x)
      ensures x < |E| && payload[x] != e
    {
      ClosedContainsReachable(E, vis, start, x);
    }
  }
}
