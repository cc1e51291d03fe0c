/**
 * Graph<T, K> of Graph.java: a fixed array of vertices with two views of the
 * same edges, an adjacency matrix and a neighbour list per vertex.
 *
 * A vertex is its index in the vertex array. The fields of Java's Vertex
 * objects become arrays indexed by vertex: `payload` (Vertex.data, never
 * reassigned), `edges` (Vertex.edges), `nDegree`, `visited`, `parent` and
 * `color`. Neighbour lists hold indices, so `contains` on them, which compares
 * Vertex references, is membership of an index.
 */
module Graphs {
  import opened Wrappers
  import opened Selections
  import opened Walks
  import opened Measure
  import opened EdgeLists
  import opened Search
  import opened Coloring
  import opened Traces

  /**
   * The vertex BFS returns: a vertex of the graph, or the placeholder
   * `new Vertex<>()` it allocates before looking the payloads up, whose
   * payload and parent are both null.
   */
  datatype Ref = Placeholder | Vertex(index: nat)

  /** The 0/1 draw `r.nextInt(2)` made for matrix cell (i, j). */
  type Draws = (nat, nat) -> bool

  /** The matrix value written for a draw. */
  function Bit(b: bool): int
  {
    if b then 1 else 0
  }

  /** Rows r < hi whose draw for cell (r, v) was 1, in increasing order. */
  function DrawnCol(bit: Draws, v: nat, hi: nat): seq<nat>
  {
    Select(0, hi, (r: nat) => bit(r, v))
  }

  /** Columns c in [lo, hi) whose draw for cell (v, c) was 1, in increasing order. */
  function DrawnRow(bit: Draws, v: nat, lo: nat, hi: nat): seq<nat>
  {
    Select(lo, hi, (c: nat) => bit(v, c))
  }

  /** All indices in [lo, hi), in increasing order. */
  function Range(lo: nat, hi: nat): seq<nat>
  {
    Select(lo, hi, _ => true)
  }

  /** Columns j < hi of a matrix row holding a nonzero value, in increasing order. */
  function NonzeroBelow(row: seq<int>, hi: nat): seq<nat>
  {
    Select(0, hi, (j: nat) => j < |row| && row[j] != 0)
  }

  function NonzeroIndices(row: seq<int>): seq<nat>
  {
    NonzeroBelow(row, |row|)
  }

  /**
   * The vertex connectTo picks for a payload: the last vertex holding it, or
   * vertex 0 when no vertex does.
   */
  function IndexOrZero<T(==)>(payload: seq<T>, x: T): (i: nat)
    ensures |payload| > 0 ==> i < |payload|
    ensures x in payload ==> payload[i] == x && forall k :: i < k < |payload| ==> payload[k] != x
    ensures x !in payload ==> i == 0
  {
    match LastMatch(payload, x)
    case Some(k) => k
    case None => 0
  }

  /** No two vertices hold the same payload. */
  predicate DistinctPayloads<T(==)>(payload: seq<T>)
  {
    forall a, b :: 0 <= a < b < |payload| ==> payload[a] != payload[b]
  }

  /**
   * The list the matrix constructor gives a vertex: exactly the columns of
   * its row holding a nonzero value, in increasing order.
   */
  lemma NonzeroIndicesMember(row: seq<int>)
    ensures forall j :: j in NonzeroIndices(row) <==> 0 <= j < |row| && row[j] != 0
    ensures Increasing(NonzeroIndices(row)) && Below(NonzeroIndices(row), |row|)
  {
    var r := Select(0, |row|, (j: nat) => j < |row| && row[j] != 0);
    SelectMember(0, |row|, (j: nat) => j < |row| && row[j] != 0);
    assert forall k :: 0 <= k < |r| ==> r[k] in r;
  }

  /**
   * The neighbours appended to vertex v by randomUndirectedGraph on n
   * vertices: first every i < v whose pair (i, v) drew 1 (v is appended to
   * by row i), then every j > v whose pair (v, j) drew 1 (row v itself).
   */
  function UndirectedAdds(bit: Draws, v: nat, n: nat): seq<nat>
  {
    DrawnCol(bit, v, v) + DrawnRow(bit, v, v + 1, n)
  }

  /** What rows 0 .. i - 1 of randomUndirectedGraph append to vertex v. */
  function UndirectedBefore(bit: Draws, v: nat, n: nat, i: nat): seq<nat>
  {
    if v < i then UndirectedAdds(bit, v, n) else DrawnCol(bit, v, i)
  }

  /**
   * What the cells (i, i + 1) .. (i, j - 1) of row i of randomUndirectedGraph
   * append to vertex v: i receives the columns that drew 1, each such column
   * receives i.
   */
  function UndirectedRowAdds(bit: Draws, v: nat, i: nat, j: nat): seq<nat>
  {
    if v == i then DrawnRow(bit, i, i + 1, j)
    else if i < v < j && bit(i, v) then [i]
    else []
  }

  /**
   * randomUndirectedGraph appends u to v exactly when the draw for the pair
   * {u, v} was 1, and never appends v to itself.
   */
  lemma UndirectedAddsMember(bit: Draws, v: nat, n: nat)
    ensures forall u: nat :: u in UndirectedAdds(bit, v, n) <==> (u < v && bit(u, v)) || (v < u < n && bit(v, u))
  {
    SelectMember(0, v, (r: nat) => bit(r, v));
    SelectMember(v + 1, n, (c: nat) => bit(v, c));
  }

  /** Both ends of every undirected draw receive each other. */
  lemma UndirectedAddsSymmetric(bit: Draws, u: nat, v: nat, n: nat)
    requires u < n && v < n
    ensures u in UndirectedAdds(bit, v, n) <==> v in UndirectedAdds(bit, u, n)
  {
    UndirectedAddsMember(bit, v, n);
    UndirectedAddsMember(bit, u, n);
  }

  /** Cell (i, j) of randomUndirectedGraph: on a 1, i receives j and j receives i. */
  function CellAdds(bit: Draws, v: nat, i: nat, j: nat): seq<nat>
  {
    if bit(i, j) && v == i then [j] else if bit(i, j) && v == j then [i] else []
  }

  /** Row i of randomUndirectedGraph is its cells, in column order. */
  lemma UndirectedRowStep(bit: Draws, v: nat, i: nat, j: nat)
    requires i < j
    ensures UndirectedRowAdds(bit, v, i, j + 1) == UndirectedRowAdds(bit, v, i, j) + CellAdds(bit, v, i, j)
  {
  }

  /** Finishing row i of randomUndirectedGraph. */
  lemma UndirectedRowDone(bit: Draws, n: nat, i: nat, v: nat)
    requires i < n && v < n
    ensures UndirectedBefore(bit, v, n, i) + UndirectedRowAdds(bit, v, i, n) == UndirectedBefore(bit, v, n, i + 1)
  {
    if v < i {
      assert UndirectedRowAdds(bit, v, i, n) == [];
    }
  }

  /**
   * The vertices w < hi with no edge between v and w in either direction:
   * neither list holds the other. E[x] is the neighbour list of x.
   */
  function NonAdjBelow(E: seq<seq<nat>>, v: nat, hi: nat): seq<nat>
  {
    Select(0, hi, (w: nat) => w < |E| && v < |E| && w !in E[v] && v !in E[w])
  }

  function NonAdjacent(E: seq<seq<nat>>, v: nat): seq<nat>
  {
    NonAdjBelow(E, v, |E|)
  }

  /** Every vertex v < |E| mapped to its non-adjacency list: what nonAdj leaves in nonAdjMap. */
  function NonAdjTable(E: seq<seq<nat>>): map<nat, seq<nat>>
  {
    map v: nat | v < |E| :: NonAdjacent(E, v)
  }

  /**
   * w is in v's non-adjacency list exactly when neither list holds the
   * other; the list is in vertex-index order.
   */
  lemma NonAdjacentMember(E: seq<seq<nat>>, v: nat)
    requires v < |E|
    ensures forall w: nat :: w in NonAdjacent(E, v) <==> w < |E| && w !in E[v] && v !in E[w]
    ensures Increasing(NonAdjacent(E, v))
  {
    SelectMember(0, |E|, (w: nat) => w < |E| && v < |E| && w !in E[v] && v !in E[w]);
  }

  /** Non-adjacency ignores direction: w is listed for v iff v is listed for w. */
  lemma NonAdjacentSymmetric(E: seq<seq<nat>>, v: nat, w: nat)
    requires v < |E| && w < |E|
    ensures w in NonAdjacent(E, v) <==> v in NonAdjacent(E, w)
  {
    NonAdjacentMember(E, v);
    NonAdjacentMember(E, w);
  }

  /** A vertex is listed as non-adjacent to itself exactly when it is not its own neighbour. */
  lemma NonAdjacentSelf(E: seq<seq<nat>>, v: nat)
    requires v < |E|
    ensures v in NonAdjacent(E, v) <==> v !in E[v]
  {
    NonAdjacentMember(E, v);
  }

  /**
   * A path as pathTo lists it, from the found vertex back to the start,
   * each entry a neighbour-list member of the next: read backwards it is a
   * walk, so its last vertex reaches its first.
   */
  lemma {:induction false} ChainReachable(E: seq<seq<nat>>, path: seq<Ref>)
    requires |path| > 0
    requires forall k :: 0 <= k < |path| ==> path[k].Vertex? && path[k].index < |E|
    requires forall k :: 0 <= k < |path| - 1 ==> path[k].index in E[path[k + 1].index]
    ensures Reachable(E, path[|path| - 1].index, path[0].index)
  {
    if |path| == 1 {
      ReachableSelf(E, path[0].index);
    } else {
      ChainReachable(E, path[1..]);
      assert path[1..][|path| - 2] == path[|path| - 1];
      ReachableStep(E, path[|path| - 1].index, path[1].index, path[0].index);
    }
  }

  /** path lists vertices of the graph, the parent of each being the next. */
  ghost predicate ParentChain(par: seq<Option<nat>>, path: seq<Ref>)
  {
    && |path| > 0
    && (forall k :: 0 <= k < |path| ==> path[k].Vertex? && path[k].index < |par|)
    && (forall k :: 0 <= k < |path| - 1 ==> par[path[k].index] == Some(path[k + 1].index))
  }

  /**
   * Two searches for 'Z' on the graph 0 - 1 with a lone vertex 2 holding
   * 'Z', the searches of pathTo('Y', 'Z') then pathTo('X', 'Z'). The first,
   * from 1 on a fresh graph, dequeues 1 then 0, finds nothing and links 0
   * to 1; unVisitAll clears the marks but keeps that link. The second, from
   * 0 and over the links the first left, dequeues 0 then 1 and links 1 to 0:
   * the links of ParentCycle.
   */
  lemma TwoFailedSearches(E: seq<seq<nat>>, vis: seq<bool>, none: seq<Option<nat>>)
    requires E == [[1], [0], []] && vis == [false, false, false] && none == [None, None, None]
    ensures Stopped(E, vis, [1], [1, 0], "XYZ", 'Z') && Replay(E, vis, [1], [1, 0]).value.q == []
    ensures Stopped(E, vis, [0], [0, 1], "XYZ", 'Z') && Replay(E, vis, [0], [0, 1]).value.q == []
    ensures ParentsAfter(E, vis, [1], none, [1, 0]) == [Some(1), None, None]
    ensures ParentsAfter(E, vis, [0], ParentsAfter(E, vis, [1], none, [1, 0]), [0, 1]) == [Some(1), Some(0), None]
  {
    FailedSearchOnPair(E, vis, none, 1, 0, "XYZ", 'Z');
    FailedSearchOnPair(E, vis, none[0 := Some(1)], 0, 1, "XYZ", 'Z');
  }

  /**
   * The parent links left by two searches that find nothing: on the graph
   * 0 - 1 with a lone vertex 2, a failed search from 1 sets parent[0] to 1,
   * and unVisitAll keeps it; a second failed search from 0 then sets
   * parent[1] to 0. No ranking fits these links, and every chain of
   * parents from vertex 0 ends at a vertex that still has a parent, so the
   * parent walk of pathTo never stops.
   */
  lemma ParentCycle()
    ensures forall rank :: !Ranked([[1], [0], []], [Some(1), Some(0), None], rank)
    ensures forall path: seq<Ref> :: ParentChain([Some(1), Some(0), None], path) && path[0] == Vertex(0) ==>
      [Some(1), Some(0), None][path[|path| - 1].index].Some?
  {
    var par: seq<Option<nat>> := [Some(1), Some(0), None];
    assert par[0] == Some(1) && par[1] == Some(0);
    forall rank | Ranked([[1], [0], []], par, rank)
      ensures false
    {
    }
    forall path: seq<Ref> | ParentChain(par, path) && path[0] == Vertex(0)
      ensures par[path[|path| - 1].index].Some?
    {
      CycleStays(par, path, |path| - 1);
    }
  }

  /** On the links of ParentCycle, a chain from vertex 0 only visits 0 and 1. */
  lemma {:induction false} CycleStays(par: seq<Option<nat>>, path: seq<Ref>, k: nat)
    requires par == [Some(1), Some(0), None]
    requires ParentChain(par, path) && path[0] == Vertex(0) && k < |path|
    ensures path[k].index < 2
    decreases k
  {
    if k > 0 {
      CycleStays(par, path, k - 1);
    }
  }

  /**
   * With ranked parents, a parent chain follows edges backwards and its
   * ranks fall at every step.
   */
  lemma ChainFollowsEdges(E: seq<seq<nat>>, par: seq<Option<nat>>, rank: seq<nat>, path: seq<Ref>)
    requires Ranked(E, par, rank) && ParentChain(par, path)
    ensures forall k :: 0 <= k < |path| - 1 ==> path[k].index in E[path[k + 1].index]
    ensures forall k :: 0 <= k < |path| - 1 ==> rank[path[k + 1].index] < rank[path[k].index]
  {
  }

  /**
   * On a graph no search had touched, every link of a chain of parents
   * left by a FIFO search was set when the parent was dequeued, from an
   * entry of the parent's list.
   */
  lemma ChainFollowsTrace(E: seq<seq<nat>>, vis: seq<bool>, q: seq<nat>, par: seq<Option<nat>>, order: seq<nat>, path: seq<Ref>)
    requires forall x :: 0 <= x < |par| ==> par[x] == None
    requires ParentChain(ParentsAfter(E, vis, q, par, order), path)
    ensures forall k :: 0 < k < |path| ==> path[k].index in order && path[k].index < |E|
    ensures forall k :: 0 <= k < |path| - 1 ==> path[k].index in E[path[k + 1].index]
  {
    var P := ParentsAfter(E, vis, q, par, order);
    forall x | 0 <= x < |par| && P[x].Some?
      ensures P[x].value in order && P[x].value < |E| && x in E[P[x].value]
    {
      ParentsAfterLink(E, vis, q, par, order, x);
    }
    forall k | 0 < k < |path|
      ensures path[k].index in order && path[k].index < |E|
    {
      assert P[path[k - 1].index] == Some(path[k].index);
    }
    forall k | 0 <= k < |path| - 1
      ensures path[k].index in E[path[k + 1].index]
    {
      assert P[path[k].index] == Some(path[k + 1].index);
    }
  }

  /** Ranks that fall at every step of a path keep falling over any span. */
  lemma {:induction false} DescendingFrom(path: seq<Ref>, rank: seq<nat>, a: nat, b: nat)
    requires forall k :: 0 <= k < |path| ==> path[k].Vertex? && path[k].index < |rank|
    requires forall k :: 0 <= k < |path| - 1 ==> rank[path[k + 1].index] < rank[path[k].index]
    requires a < b < |path|
    ensures rank[path[b].index] < rank[path[a].index]
  {
    if b > a + 1 {
      DescendingFrom(path, rank, a, b - 1);
    }
  }

  /** A path whose ranks fall at every step lists no vertex twice. */
  lemma DescendingDistinct(path: seq<Ref>, rank: seq<nat>)
    requires forall k :: 0 <= k < |path| ==> path[k].Vertex? && path[k].index < |rank|
    requires forall k :: 0 <= k < |path| - 1 ==> rank[path[k + 1].index] < rank[path[k].index]
    ensures forall a, b :: 0 <= a < b < |path| ==> path[a] != path[b]
  {
    forall a, b | 0 <= a < b < |path|
      ensures path[a] != path[b]
    {
      DescendingFrom(path, rank, a, b);
    }
  }

  /** Along a parent chain from a visited vertex, every vertex is visited. */
  lemma {:induction false} ChainVisited(vis: seq<bool>, par: seq<Option<nat>>, start: nat, path: seq<Ref>, k: nat)
    requires Tree(vis, par, start) && ParentChain(par, path) && k < |path|
    requires vis[path[0].index]
    ensures vis[path[k].index]
  {
    if k > 0 {
      ChainVisited(vis, par, start, path, k - 1);
    }
  }

  /**
   * A parent chain that starts at a visited vertex and stops at a vertex
   * without parent stops at the root of the tree: the start.
   */
  lemma ChainEndsAtStart(vis: seq<bool>, par: seq<Option<nat>>, start: nat, path: seq<Ref>)
    requires Tree(vis, par, start) && ParentChain(par, path)
    requires par[path[|path| - 1].index] == None
    requires vis[path[0].index]
    ensures path[|path| - 1] == Vertex(start)
  {
    ChainVisited(vis, par, start, path, |path| - 1);
  }

  class Graph<T(==), K(==)> {
    /** The number of vertices, fixed at construction. */
    const n: nat
    /** Vertex i's data. */
    const payload: seq<T>
    /** adjMatrix. */
    const adj: array2<int>
    /** Vertex i's neighbour list `edges`. */
    const edges: array<seq<nat>>
    /** Vertex i's `nDegree`, bumped each time a vertex adds i as a neighbour. */
    const nDegree: array<int>
    const visited: array<bool>
    /** Vertex i's BFS `parent`; None is null. */
    const parent: array<Option<nat>>
    /** Vertex i's `color`; None is null. */
    const color: array<Option<K>>
    /** The field edgeList that makeEdgeList appends to. */
    var edgeList: seq<Edge>
    /** The field nonAdjMap that nonAdj fills, keyed by vertex. */
    var nonAdjMap: map<nat, seq<nat>>

    ghost predicate Valid()
      reads this, edges, parent
    {
      && |payload| == n
      && adj.Length0 == n && adj.Length1 == n
      && edges.Length == n && nDegree.Length == n && visited.Length == n
      && parent.Length == n && color.Length == n
      && parent as object != color as object
      && (forall v :: 0 <= v < n ==> Below(edges[v], n))
      && (forall v :: 0 <= v < n && parent[v].Some? ==> parent[v].value < n)
      && (forall v :: v in nonAdjMap ==> v < n)
    }

    /** No traversal has left marks: every vertex unvisited and without parent. */
    ghost predicate Untraversed()
      reads visited, parent
    {
      forall v :: 0 <= v < visited.Length && v < parent.Length ==> !visited[v] && parent[v] == None
    }

    /** Row i of the adjacency matrix. */
    ghost function MatrixRow(i: nat): (row: seq<int>)
      reads adj
      requires i < adj.Length0
      ensures |row| == adj.Length1
    {
      seq(adj.Length1, (j: nat) reads adj requires j < adj.Length1 => adj[i, j])
    }

    /** The adjacency matrix as rows. */
    ghost function Matrix(): (M: seq<seq<int>>)
      reads adj
      ensures |M| == adj.Length0
      ensures forall i :: 0 <= i < |M| ==> M[i] == MatrixRow(i)
    {
      seq(adj.Length0, (i: nat) reads adj requires i < adj.Length0 => MatrixRow(i))
    }

    /** The two views agree: cell (i, j) is nonzero exactly when j is in i's list. */
    ghost predicate Consistent()
      reads this, adj, edges, parent
      requires Valid()
    {
      forall i, j :: 0 <= i < n && 0 <= j < n ==> (adj[i, j] != 0 <==> j in edges[i])
    }

    /** Graph(T[] vertexData): a disconnected graph with an all-zero matrix. */
    constructor (vertexData: seq<T>)
      ensures Valid() && Untraversed()
      ensures n == |vertexData| && payload == vertexData
      ensures fresh(adj) && fresh(edges) && fresh(nDegree) && fresh(visited) && fresh(parent) && fresh(color)
      ensures forall i, j :: 0 <= i < n && 0 <= j < n ==> adj[i, j] == 0
      ensures forall v :: 0 <= v < n ==> edges[v] == [] && nDegree[v] == 0 && color[v] == None
      ensures edgeList == [] && nonAdjMap == map[]
    {
      n := |vertexData|;
      payload := vertexData;
      edges := new seq<nat>[|vertexData|](_ => []);
      nDegree := new int[|vertexData|](_ => 0);
      visited := new bool[|vertexData|](_ => false);
      parent := new Option<nat>[|vertexData|](_ => None);
      color := new Option<K>[|vertexData|](_ => None);
      adj := new int[|vertexData|, |vertexData|]((_, _) => 0);
      edgeList := [];
      nonAdjMap := map[];
    }

    /**
     * Graph(T[] vertexData, int[][] adj): the caller's matrix becomes the
     * adjacency matrix (no copy) and vertex i's list holds the j with
     * adj[i][j] != 0, in increasing j. The lists are filled with edges.add,
     * not addEdge, so every nDegree stays 0.
     */
    constructor FromMatrix(vertexData: seq<T>, m: array2<int>)
      requires m.Length0 == |vertexData| && m.Length1 == |vertexData|
      ensures Valid() && Untraversed() && Consistent()
      ensures n == |vertexData| && payload == vertexData && adj == m
      ensures fresh(edges) && fresh(nDegree) && fresh(visited) && fresh(parent) && fresh(color)
      ensures forall i :: 0 <= i < n ==> edges[i] == NonzeroIndices(MatrixRow(i))
      ensures forall v :: 0 <= v < n ==> nDegree[v] == 0 && color[v] == None
      ensures edgeList == [] && nonAdjMap == map[]
    {
      n := |vertexData|;
      payload := vertexData;
      edges := new seq<nat>[|vertexData|](_ => []);
      nDegree := new int[|vertexData|](_ => 0);
      visited := new bool[|vertexData|](_ => false);
      parent := new Option<nat>[|vertexData|](_ => None);
      color := new Option<K>[|vertexData|](_ => None);
      adj := m;
      edgeList := [];
      nonAdjMap := map[];
      new;
      var i := 0;
      while i < n
        modifies edges
        invariant 0 <= i <= n
        invariant forall v :: 0 <= v < i ==> edges[v] == NonzeroIndices(MatrixRow(v))
        invariant forall v :: i <= v < n ==> edges[v] == []
      {
        ScanRow(i);
        i := i + 1;
      }
      forall i | 0 <= i < n
        ensures Below(edges[i], n)
        ensures forall j :: 0 <= j < n ==> (adj[i, j] != 0 <==> j in edges[i])
      {
        NonzeroIndicesMember(MatrixRow(i));
      }
    }

    /**
     * The inner loop of the matrix constructor for row i: the still empty
     * list of vertex i receives, in column order, every j with a nonzero
     * entry adj[i, j]; no other list changes.
     */
    method ScanRow(i: nat)
      requires i < n && edges.Length == n && adj.Length0 == n && adj.Length1 == n && edges[i] == []
      modifies edges
      ensures edges[..] == old(edges[..])[i := NonzeroIndices(MatrixRow(i))]
    {
      var j := 0;
      while j < n
        invariant 0 <= j <= n
        invariant edges[i] == NonzeroBelow(MatrixRow(i), j)
        invariant forall v :: 0 <= v < n && v != i ==> edges[v] == old(edges[v])
      {
        assert NonzeroBelow(MatrixRow(i), j + 1) ==
          NonzeroBelow(MatrixRow(i), j) + if adj[i, j] != 0 then [j] else [];
        if adj[i, j] != 0 {
          edges[i] := edges[i] + [j];
        }
        j := j + 1;
      }
      assert edges[..] == old(edges[..])[i := NonzeroIndices(MatrixRow(i))];
    }

    /** Vertex.addEdge: `from` appends `to` and bumps to's nDegree. */
    method AddEdge(from: nat, to: nat)
      requires Valid() && from < n && to < n
      modifies edges, nDegree
      ensures Valid()
      ensures forall v :: 0 <= v < n ==> edges[v] == if v == from then old(edges[v]) + [to] else old(edges[v])
      ensures forall v :: 0 <= v < n ==> nDegree[v] == if v == to then old(nDegree[v]) + 1 else old(nDegree[v])
    {
      nDegree[to] := nDegree[to] + 1;
      edges[from] := edges[from] + [to];
    }

    /**
     * The payload scans of connectTo and BFS: one pass over the vertices that
     * keeps the last vertex holding x and the last holding y.
     */
    method Locate(x: T, y: T) returns (xi: Option<nat>, yi: Option<nat>)
      ensures xi == LastMatch(payload, x) && yi == LastMatch(payload, y)
    {
      xi, yi := None, None;
      var i := 0;
      while i < |payload|
        invariant 0 <= i <= |payload|
        invariant xi == LastMatch(payload[..i], x) && yi == LastMatch(payload[..i], y)
      {
        assert payload[..i + 1][..i] == payload[..i];
        if payload[i] == x {
          xi := Some(i);
        }
        if payload[i] == y {
          yi := Some(i);
        }
        i := i + 1;
      }
      assert payload[..i] == payload;
    }

    /**
     * connectTo(vData, wData). v is the last vertex holding vData and w the
     * last holding wData, each defaulting to vertex 0 when no vertex holds
     * it. If a neighbour of v already holds wData, the first such neighbour's
     * nDegree is bumped and no list changes; otherwise v appends w through
     * addEdge. Either way adjMatrix[v][w] becomes 1 and no other cell changes.
     */
    method ConnectTo(vData: T, wData: T)
      requires Valid() && n > 0
      modifies adj, edges, nDegree
      ensures Valid()
      ensures adj[IndexOrZero(payload, vData), IndexOrZero(payload, wData)] == 1
      ensures forall i, j :: 0 <= i < n && 0 <= j < n && (i != IndexOrZero(payload, vData) || j != IndexOrZero(payload, wData))
                ==> adj[i, j] == old(adj[i, j])
      ensures var vi, wi := IndexOrZero(payload, vData), IndexOrZero(payload, wData);
              match FirstMatch(payload, old(edges[vi]), wData)
              case Some(k) =>
                var u := old(edges[vi])[k];
                && (forall x :: 0 <= x < n ==> edges[x] == old(edges[x]))
                && (forall x :: 0 <= x < n ==> nDegree[x] == if x == u then old(nDegree[x]) + 1 else old(nDegree[x]))
              case None =>
                && (forall x :: 0 <= x < n ==> edges[x] == if x == vi then old(edges[x]) + [wi] else old(edges[x]))
                && (forall x :: 0 <= x < n ==> nDegree[x] == if x == wi then old(nDegree[x]) + 1 else old(nDegree[x]))
      ensures old(Consistent()) && DistinctPayloads(payload) ==> Consistent()
    {
      var vOpt, wOpt := Locate(vData, wData);
      var vIndex := if vOpt.Some? then vOpt.value else 0;
      var wIndex := if wOpt.Some? then wOpt.value else 0;
      assert vIndex == IndexOrZero(payload, vData) && wIndex == IndexOrZero(payload, wData);
      ghost var list := edges[vIndex];
      var k := 0;
      while k < |edges[vIndex]|
        invariant 0 <= k <= |list| && edges[vIndex] == list
        invariant forall m :: 0 <= m < k ==> payload[list[m]] != wData
      {
        var u := edges[vIndex][k];
        if payload[u] == wData {
          assert FirstMatch(payload, list, wData) == Some(k);
          adj[vIndex, wIndex] := 1;
          nDegree[u] := nDegree[u] + 1;
          assert DistinctPayloads(payload) ==> u == wIndex;
          return;
        }
        k := k + 1;
      }
      assert FirstMatch(payload, list, wData) == None;
      AddEdge(vIndex, wIndex);
      adj[vIndex, wIndex] := 1;
    }

    /** No vertex has a neighbour yet. */
    ghost predicate NoEdges()
      reads edges
    {
      forall v :: 0 <= v < edges.Length ==> edges[v] == []
    }

    /**
     * randomUndirectedGraph: one draw per pair i < j, written to both
     * adjMatrix[i][j] and adjMatrix[j][i]; on a 1 each end appends the other
     * through addEdge. The diagonal is never written.
     */
    method RandomUndirectedGraph(bit: Draws)
      requires Valid()
      modifies adj, edges, nDegree
      ensures Valid()
      ensures forall i, j :: 0 <= i < j < n ==> adj[i, j] == Bit(bit(i, j)) && adj[j, i] == Bit(bit(i, j))
      ensures forall i :: 0 <= i < n ==> adj[i, i] == old(adj[i, i])
      ensures forall v :: 0 <= v < n ==> edges[v] == old(edges[v]) + UndirectedAdds(bit, v, n)
      ensures forall v :: 0 <= v < n ==> nDegree[v] == old(nDegree[v]) + |UndirectedAdds(bit, v, n)|
      ensures old(NoEdges()) && (forall i :: 0 <= i < n ==> old(adj[i, i]) == 0) ==> Consistent()
    {
      assert forall v :: 0 <= v < n ==> UndirectedBefore(bit, v, n, 0) == [];
      var i := 0;
      while i < n
        invariant 0 <= i <= n
        invariant Valid()
        invariant forall r, c :: 0 <= r < c < n ==> adj[r, c] == (if r < i then Bit(bit(r, c)) else old(adj[r, c]))
        invariant forall r, c :: 0 <= r < c < n ==> adj[c, r] == (if r < i then Bit(bit(r, c)) else old(adj[c, r]))
        invariant forall r :: 0 <= r < n ==> adj[r, r] == old(adj[r, r])
        invariant forall v :: 0 <= v < n ==> edges[v] == old(edges[v]) + UndirectedBefore(bit, v, n, i)
        invariant forall v :: 0 <= v < n ==> nDegree[v] == old(nDegree[v]) + |UndirectedBefore(bit, v, n, i)|
      {
        UndirectedRow(bit, i);
        forall v | 0 <= v < n
          ensures edges[v] == old(edges[v]) + UndirectedBefore(bit, v, n, i + 1)
          ensures nDegree[v] == old(nDegree[v]) + |UndirectedBefore(bit, v, n, i + 1)|
        {
          UndirectedRowDone(bit, n, i, v);
          ghost var a, b, c := old(edges[v]), UndirectedBefore(bit, v, n, i), UndirectedRowAdds(bit, v, i, n);
          assert a + b + c == a + (b + c);
        }
        i := i + 1;
      }
      if old(NoEdges()) && (forall i :: 0 <= i < n ==> old(adj[i, i]) == 0) {
        forall v | 0 <= v < n
          ensures forall u :: 0 <= u < n ==> (adj[v, u] != 0 <==> u in edges[v])
        {
          UndirectedAddsMember(bit, v, n);
        }
      }
    }

    /** One cell of randomUndirectedGraph: the draw goes to (i, j) and (j, i), and on a 1 both lists grow. */
    method UndirectedCell(bit: Draws, i: nat, j: nat)
      requires Valid() && i < j < n
      modifies adj, edges, nDegree
      ensures Valid()
      ensures adj[i, j] == Bit(bit(i, j)) && adj[j, i] == Bit(bit(i, j))
      ensures forall r, c :: 0 <= r < n && 0 <= c < n && !(r == i && c == j) && !(r == j && c == i) ==> adj[r, c] == old(adj[r, c])
      ensures forall v :: 0 <= v < n ==> edges[v] == old(edges[v]) + CellAdds(bit, v, i, j)
      ensures forall v :: 0 <= v < n ==> nDegree[v] == old(nDegree[v]) + |CellAdds(bit, v, i, j)|
    {
      var weight := Bit(bit(i, j));
      adj[i, j] := weight;
      adj[j, i] := weight;
      if weight == 1 {
        AddEdge(i, j);
        AddEdge(j, i);
      }
    }

    /** The inner loop of randomUndirectedGraph: row i's cells right of the diagonal, in column order. */
    method UndirectedRow(bit: Draws, i: nat)
      requires Valid() && i < n
      modifies adj, edges, nDegree
      ensures Valid()
      ensures forall r, c :: 0 <= r < n && 0 <= c < n ==>
        adj[r, c] == (if r == i && i < c then Bit(bit(i, c)) else if c == i && i < r then Bit(bit(i, r)) else old(adj[r, c]))
      ensures forall v :: 0 <= v < n ==> edges[v] == old(edges[v]) + UndirectedRowAdds(bit, v, i, n)
      ensures forall v :: 0 <= v < n ==> nDegree[v] == old(nDegree[v]) + |UndirectedRowAdds(bit, v, i, n)|
    {
      var j := i + 1;
      while j < n
        invariant i + 1 <= j <= n
        invariant Valid()
        invariant forall c :: 0 <= c < n ==> adj[i, c] == (if i < c < j then Bit(bit(i, c)) else old(adj[i, c]))
        invariant forall r :: 0 <= r < n && r != i ==> adj[r, i] == (if i < r < j then Bit(bit(i, r)) else old(adj[r, i]))
        invariant forall r, c :: 0 <= r < n && 0 <= c < n && r != i && c != i ==> adj[r, c] == old(adj[r, c])
        invariant forall v :: 0 <= v < n ==> edges[v] == old(edges[v]) + UndirectedRowAdds(bit, v, i, j)
        invariant forall v :: 0 <= v < n ==> nDegree[v] == old(nDegree[v]) + |UndirectedRowAdds(bit, v, i, j)|
      {
        UndirectedCell(bit, i, j);
        forall v | 0 <= v < n
          ensures edges[v] == old(edges[v]) + UndirectedRowAdds(bit, v, i, j + 1)
          ensures nDegree[v] == old(nDegree[v]) + |UndirectedRowAdds(bit, v, i, j + 1)|
        {
          UndirectedRowStep(bit, v, i, j);
          ghost var a, b, c := old(edges[v]), UndirectedRowAdds(bit, v, i, j), CellAdds(bit, v, i, j);
          assert a + b + c == a + (b + c);
        }
        j := j + 1;
      }
    }

    /**
     * randomDirectedGraph: one draw for every cell, the diagonal included,
     * written to adjMatrix[i][j]; on a 1 vertex i appends j through addEdge.
     */
    method RandomDirectedGraph(bit: Draws)
      requires Valid()
      modifies adj, edges, nDegree
      ensures Valid()
      ensures forall i, j :: 0 <= i < n && 0 <= j < n ==> adj[i, j] == Bit(bit(i, j))
      ensures forall v :: 0 <= v < n ==> edges[v] == old(edges[v]) + DrawnRow(bit, v, 0, n)
      ensures forall v :: 0 <= v < n ==> nDegree[v] == old(nDegree[v]) + |DrawnCol(bit, v, n)|
      ensures old(NoEdges()) ==> Consistent()
    {
      var i := 0;
      while i < n
        invariant 0 <= i <= n
        invariant Valid()
        invariant forall r, c :: 0 <= r < n && 0 <= c < n ==> adj[r, c] == (if r < i then Bit(bit(r, c)) else old(adj[r, c]))
        invariant forall v :: 0 <= v < n ==> edges[v] == old(edges[v]) + (if v < i then DrawnRow(bit, v, 0, n) else [])
        invariant forall v :: 0 <= v < n ==> nDegree[v] == old(nDegree[v]) + |DrawnCol(bit, v, i)|
      {
        DirectedRow(bit, i);
        i := i + 1;
      }
      if old(NoEdges()) {
        forall v | 0 <= v < n
          ensures forall u :: 0 <= u < n ==> (adj[v, u] != 0 <==> u in edges[v])
        {
          SelectMember(0, n, (c: nat) => bit(v, c));
        }
      }
    }

    /** The inner loop of randomDirectedGraph: every cell (i, j) of row i. */
    method DirectedRow(bit: Draws, i: nat)
      requires Valid() && i < n
      modifies adj, edges, nDegree
      ensures Valid()
      ensures forall r, c :: 0 <= r < n && 0 <= c < n ==> adj[r, c] == (if r == i then Bit(bit(i, c)) else old(adj[r, c]))
      ensures forall v :: 0 <= v < n ==> edges[v] == old(edges[v]) + (if v == i then DrawnRow(bit, i, 0, n) else [])
      ensures forall v :: 0 <= v < n ==> nDegree[v] == old(nDegree[v]) + (if bit(i, v) then 1 else 0)
    {
      var j := 0;
      while j < n
        invariant 0 <= j <= n
        invariant Valid()
        invariant forall r, c :: 0 <= r < n && 0 <= c < n ==> adj[r, c] == (if r == i && c < j then Bit(bit(i, c)) else old(adj[r, c]))
        invariant forall v :: 0 <= v < n ==> edges[v] == old(edges[v]) + (if v == i then DrawnRow(bit, i, 0, j) else [])
        invariant forall v :: 0 <= v < n ==> nDegree[v] == old(nDegree[v]) + (if v < j && bit(i, v) then 1 else 0)
      {
        var weight := Bit(bit(i, j));
        adj[i, j] := weight;
        if weight == 1 {
          AddEdge(i, j);
        }
        j := j + 1;
      }
    }

    /**
     * randomDirectedAcyclicGraph: one draw per pair i < j, written to
     * adjMatrix[i][j] only. Vertex i appends j through addEdge whatever was
     * drawn, so the lists do not follow the draws.
     */
    method RandomDirectedAcyclicGraph(bit: Draws)
      requires Valid()
      modifies adj, edges, nDegree
      ensures Valid()
      ensures forall r, c :: 0 <= r < c < n ==> adj[r, c] == Bit(bit(r, c))
      ensures forall r, c :: 0 <= c <= r < n ==> adj[r, c] == old(adj[r, c])
      ensures forall v :: 0 <= v < n ==> edges[v] == old(edges[v]) + Range(v + 1, n)
      ensures forall v :: 0 <= v < n ==> nDegree[v] == old(nDegree[v]) + v
    {
      var i := 0;
      while i < n
        invariant 0 <= i <= n
        invariant Valid()
        invariant forall r, c :: 0 <= r < n && 0 <= c < n ==>
          adj[r, c] == (if r < i && r < c then Bit(bit(r, c)) else old(adj[r, c]))
        invariant forall v :: 0 <= v < n ==> edges[v] == old(edges[v]) + (if v < i then Range(v + 1, n) else [])
        invariant forall v :: 0 <= v < n ==> nDegree[v] == old(nDegree[v]) + (if v <= i then v else i)
      {
        var j := i + 1;
        while j < n
          invariant i + 1 <= j <= n
          invariant Valid()
          invariant forall r, c :: 0 <= r < n && 0 <= c < n ==>
            adj[r, c] == (if (r < i && r < c) || (r == i && r < c < j) then Bit(bit(r, c)) else old(adj[r, c]))
          invariant forall v :: 0 <= v < n ==>
            edges[v] == old(edges[v]) + (if v < i then Range(v + 1, n) else if v == i then Range(i + 1, j) else [])
          invariant forall v :: 0 <= v < n ==>
            nDegree[v] == old(nDegree[v]) + (if v <= i then v else i) + (if i < v < j then 1 else 0)
        {
          var weight := Bit(bit(i, j));
          adj[i, j] := weight;
          AddEdge(i, j);
          j := j + 1;
        }
        i := i + 1;
      }
    }

    /**
     * makeEdgeList: appends to the field edgeList one Edge(i, j) per nonzero
     * cell with i < j, in row-major order. The field is never cleared, so a
     * second call appends the same edges again.
     */
    method MakeEdgeList()
      requires Valid()
      modifies this
      ensures Valid() && nonAdjMap == old(nonAdjMap)
      ensures edgeList == old(edgeList) + UpperEdges(Matrix())
    {
      ghost var M := Matrix();
      var i := 0;
      while i < adj.Length0
        invariant 0 <= i <= n
        invariant nonAdjMap == old(nonAdjMap)
        invariant edgeList == old(edgeList) + UpperRows(M, i)
      {
        var j := i + 1;
        while j < adj.Length1
          invariant i + 1 <= j <= n
          invariant nonAdjMap == old(nonAdjMap)
          invariant edgeList == old(edgeList) + UpperRows(M, i) + RowEdges(M, i, j)
        {
          if adj[i, j] != 0 {
            edgeList := edgeList + [Edge(i, j)];
          }
          j := j + 1;
        }
        i := i + 1;
      }
    }

    /**
     * nonAdj: for every vertex v, puts into the field nonAdjMap the vertices
     * w, in index order, such that neither v's list holds w nor w's list
     * holds v. Every key is overwritten, so the map is the full table.
     */
    method NonAdj() returns (m: map<nat, seq<nat>>)
      requires Valid()
      modifies this
      ensures Valid() && edgeList == old(edgeList)
      ensures nonAdjMap == NonAdjTable(edges[..])
      ensures m == nonAdjMap
    {
      ghost var E := edges[..];
      var v := 0;
      while v < n
        invariant 0 <= v <= n
        invariant edgeList == old(edgeList)
        invariant forall x :: x in nonAdjMap ==> x < n
        invariant forall x: nat :: x < v ==> x in nonAdjMap && nonAdjMap[x] == NonAdjacent(E, x)
      {
        var list: seq<nat> := [];
        var w := 0;
        while w < n
          invariant 0 <= w <= n
          invariant list == NonAdjBelow(E, v, w)
        {
          if !(w in edges[v]) && !(v in edges[w]) {
            list := list + [w];
          }
          w := w + 1;
        }
        nonAdjMap := nonAdjMap[v := list];
        v := v + 1;
      }
      assert nonAdjMap.Keys == NonAdjTable(E).Keys;
      m := nonAdjMap;
    }

    /** unVisitAll: clears every visited flag. */
    method UnVisitAll()
      requires Valid()
      modifies visited
      ensures forall v :: 0 <= v < n ==> !visited[v]
    {
      var i := 0;
      while i < n
        invariant 0 <= i <= n
        invariant forall v :: 0 <= v < i ==> !visited[v]
      {
        visited[i] := false;
        i := i + 1;
      }
    }

    /**
     * unVisitAll with the parent links cleared as well: afterwards no mark
     * of an earlier search is left, which is what pathTo's guarantees need.
     */
    method ResetSearch()
      requires Valid()
      modifies visited, parent
      ensures Valid() && Untraversed()
    {
      UnVisitAll();
      var i := 0;
      while i < n
        invariant 0 <= i <= n
        invariant forall v :: 0 <= v < n ==> !visited[v]
        invariant forall v :: 0 <= v < i ==> parent[v] == None
        invariant forall v :: 0 <= v < n && parent[v].Some? ==> parent[v].value < n
      {
        parent[i] := None;
        i := i + 1;
      }
    }

    /** Every parent link follows an edge and climbs to a strictly higher rank: parent links form no cycle. */
    ghost predicate ParentsRanked(rank: seq<nat>)
      reads this, edges, parent
    {
      Ranked(edges[..], parent[..], rank)
    }

    /** Every visited vertex other than the start has a parent, and every parent is visited. */
    ghost predicate VisitedTree(start: nat)
      reads this, parent, visited
    {
      Tree(visited[..], parent[..], start)
    }

    /**
     * The neighbour scan of BFS: every unvisited vertex in v's list, in list
     * order, gets v as parent and joins the back of the queue. The ghost
     * rank of each enqueued vertex becomes one more than v's.
     */
    method EnqueueUnvisited(v: nat, q0: seq<nat>, ghost rank0: seq<nat>) returns (q: seq<nat>, ghost added: seq<nat>, ghost rank: seq<nat>)
      requires Valid() && v < n && visited[v] && |rank0| == n
      modifies parent
      ensures Valid() && |rank| == n && |added| <= |edges[v]|
      ensures Enqueued(edges[..], visited[..], v, q0, q, added, old(parent[..]), parent[..], rank0, rank)
    {
      var N := edges[v];
      ghost var vis := visited[..];
      q, added, rank := q0, [], rank0;
      var j := 0;
      while j < |N|
        invariant 0 <= j <= |N|
        invariant Valid() && |rank| == n
        invariant q == q0 + added
        invariant added == UnvisitedIn(N[..j], vis)
        invariant forall x :: 0 <= x < n ==> parent[x] == (if x in added then Some(v) else old(parent[x]))
        invariant forall x :: 0 <= x < n ==> rank[x] == (if x in added then rank0[v] + 1 else rank0[x])
      {
        var w := N[j];
        assert N[..j + 1][..j] == N[..j];
        if !visited[w] {
          parent[w] := Some(v);
          rank := rank[w := rank0[v] + 1];
          q := q + [w];
          added := added + [w];
        }
        j := j + 1;
      }
      assert N[..j] == N;
      assert forall w :: w in N ==> w < n by {
        assert Below(N, n);
      }
      ScannedByUnvisited(edges[..], vis, v, q0);
    }

    /**
     * BFS(s, e). The start is the last vertex holding s and the target
     * payload e's last holder; if either is missing, BFS returns at once:
     * the start if it exists, else the placeholder. Otherwise it runs a FIFO
     * search from the start that marks a vertex visited when it is dequeued,
     * returns the first dequeued vertex holding e, and gives every unvisited
     * neighbour of a dequeued vertex that vertex as parent. When the queue
     * runs dry, it clears every visited flag and returns the start.
     */
    method BFS(s: T, e: T) returns (r: Ref, ghost rank: seq<nat>, ghost order: seq<nat>)
      requires Valid()
      modifies visited, parent
      ensures Valid() && |rank| == n
      ensures LastMatch(payload, s).None? ==> r == Placeholder
      ensures LastMatch(payload, s).Some? ==> r.Vertex? && r.index < n
      ensures LastMatch(payload, s).Some? && LastMatch(payload, e).None? ==> r == Vertex(LastMatch(payload, s).value)
      ensures LastMatch(payload, s).None? || LastMatch(payload, e).None? ==>
        visited[..] == old(visited[..]) && parent[..] == old(parent[..])
      ensures LastMatch(payload, s).Some? && LastMatch(payload, e).Some? && payload[r.index] == e ==> visited[r.index]
      ensures LastMatch(payload, s).Some? && LastMatch(payload, e).Some? && payload[r.index] != e ==>
        r == Vertex(LastMatch(payload, s).value) && forall v :: 0 <= v < n ==> !visited[v]
      ensures LastMatch(payload, s).Some? && LastMatch(payload, e).Some? && s == e ==> r == Vertex(LastMatch(payload, s).value)
      ensures old(Untraversed()) ==> ParentsRanked(rank)
      ensures old(Untraversed()) && LastMatch(payload, s).Some? ==> parent[LastMatch(payload, s).value] == None
      ensures old(Untraversed()) && LastMatch(payload, s).Some? && LastMatch(payload, e).Some? && payload[r.index] == e ==>
        VisitedTree(LastMatch(payload, s).value)
      ensures old(Untraversed()) && LastMatch(payload, s).Some? && LastMatch(payload, e).Some? && payload[r.index] != e ==>
        forall x :: 0 <= x < n && Reachable(edges[..], LastMatch(payload, s).value, x) ==> payload[x] != e
      ensures LastMatch(payload, s).Some? && LastMatch(payload, e).Some? ==>
        && Stopped(edges[..], old(visited[..]), [LastMatch(payload, s).value], order, payload, e)
        && parent[..] == ParentsAfter(edges[..], old(visited[..]), [LastMatch(payload, s).value], old(parent[..]), order)
        && (payload[r.index] == e ==> HeadIs(edges[..], Replay(edges[..], old(visited[..]), [LastMatch(payload, s).value], order).value, r.index))
        && (payload[r.index] == e ==> visited[..] == Replay(edges[..], old(visited[..]), [LastMatch(payload, s).value], order).value.vis[r.index := true])
        && (payload[r.index] != e ==> Replay(edges[..], old(visited[..]), [LastMatch(payload, s).value], order).value.q == [])
    {
      rank, order := seq(n, _ => 0), [];
      var startOpt, endOpt := Locate(s, e);
      if startOpt.None? || endOpt.None? {
        r := if startOpt.Some? then Vertex(startOpt.value) else Placeholder;
        return;
      }
      var start, end := startOpt.value, endOpt.value;
      var found;
      found, rank, order := SearchFrom(start, end);
      r := Vertex(found);
    }

    /**
     * The search loop of BFS: a FIFO search from `start` for the payload
     * of vertex `end`. A vertex is marked visited when dequeued and
     * returned if it holds that payload; each unvisited neighbour of a
     * dequeued vertex gets it as parent and is enqueued. When the queue
     * runs dry every visited flag is cleared and the start is returned.
     */
    method SearchFrom(start: nat, end: nat) returns (r: nat, ghost rank: seq<nat>, ghost order: seq<nat>)
      requires Valid() && start < n && end < n
      modifies visited, parent
      ensures Valid() && |rank| == n && r < n
      ensures Stopped(edges[..], old(visited[..]), [start], order, payload, payload[end])
      ensures parent[..] == ParentsAfter(edges[..], old(visited[..]), [start], old(parent[..]), order)
      ensures payload[r] == payload[end] ==>
        && HeadIs(edges[..], Replay(edges[..], old(visited[..]), [start], order).value, r)
        && visited[..] == Replay(edges[..], old(visited[..]), [start], order).value.vis[r := true]
      ensures payload[r] != payload[end] ==> Replay(edges[..], old(visited[..]), [start], order).value.q == []
      ensures payload[r] == payload[end] ==> visited[r]
      ensures payload[r] != payload[end] ==> r == start && forall v :: 0 <= v < n ==> !visited[v]
      ensures payload[start] == payload[end] ==> r == start
      ensures old(Untraversed()) ==> ParentsRanked(rank) && parent[start] == None
      ensures old(Untraversed()) && payload[r] == payload[end] ==> VisitedTree(start)
      ensures old(Untraversed()) && payload[r] != payload[end] ==>
        forall x: nat :: Reachable(edges[..], start, x) ==> x < n && payload[x] != payload[end]
    {
      ghost var E, visStart, parStart := edges[..], visited[..], parent[..];
      var found;
      ghost var q, vis;
      found, r, rank, order, q, vis := SearchQueue(start, end);
      if found {
        SearchTraceStops(E, visStart, [start], parStart, order, vis, parent[..], q, payload, payload[end]);
        return;
      }
      if old(Untraversed()) {
        FrontierDone(E, visited[..], parent[..], rank, start, payload, payload[end]);
      }
      SearchTraceStops(E, visStart, [start], parStart, order, vis, parent[..], q, payload, payload[end]);
      UnVisitAll();
      r := start;
    }

    /**
     * The queue loop of BFS, up to its exit: either the head of the queue
     * holds the payload of end and has just been marked (found), or the
     * queue ran dry. vis is the flags the FIFO rounds left before that
     * last mark, q the queue they left.
     */
    method SearchQueue(start: nat, end: nat) returns (found: bool, r: nat, ghost rank: seq<nat>, ghost order: seq<nat>,
                                                      ghost q: seq<nat>, ghost vis: seq<bool>)
      requires Valid() && start < n && end < n
      modifies visited, parent
      ensures Valid() && |rank| == n && r < n
      ensures SearchTrace(edges[..], old(visited[..]), [start], old(parent[..]), order, vis, parent[..], q, payload, payload[end])
      ensures found ==> q != [] && q[0] == r && payload[r] == payload[end] && visited[..] == vis[r := true]
      ensures !found ==> q == [] && visited[..] == vis
      ensures payload[start] == payload[end] ==> found && r == start
      ensures old(Untraversed()) ==> ParentsRanked(rank) && parent[start] == None
      ensures old(Untraversed()) && found ==> VisitedTree(start)
      ensures old(Untraversed()) && !found ==> Frontier(edges[..], visited[..], parent[..], rank, [], start, payload, payload[end])
    {
      rank := seq(n, _ => 0);
      ghost var fresh0 := Untraversed();
      ghost var E := edges[..];
      ghost var D := MaxLen(E);
      ghost var visStart, parStart := visited[..], parent[..];
      order := [];
      var queue := [start];
      r := start;
      ghost var lv: seq<nat> := [|Unvisited(visited[..])| + 1];
      LevelsStart(visited[..], start);
      if fresh0 {
        FrontierStart(E, visited[..], parent[..], rank, start, payload, payload[end]);
      }
      while queue != []
        invariant Valid() && |rank| == n && edges[..] == E
        invariant Levels(visited[..], queue, lv)
        invariant payload[start] == payload[end] ==> queue == [start]
        invariant fresh0 ==> Frontier(E, visited[..], parent[..], rank, queue, start, payload, payload[end])
        invariant SearchTrace(E, visStart, [start], parStart, order, visited[..], parent[..], queue, payload, payload[end])
        decreases Weight(lv, D + 1)
      {
        ghost var vis0, par0, rank0, q0, lv0 := visited[..], parent[..], rank, queue, lv;
        var v := queue[0];
        visited[v] := true;
        ghost var vis1 := visited[..];
        assert vis1 == vis0[v := true];
        if payload[v] == payload[end] {
          found, r, vis, q := true, v, vis0, queue;
          if fresh0 {
            TreeStep(vis0, par0, start, v, [], parent[..]);
          }
          return;
        }
        ghost var added;
        queue, added, rank := EnqueueUnvisited(v, queue[1..], rank);
        SearchTraceStep(E, visStart, [start], parStart, order, vis0, par0, q0, payload, payload[end], parent[..], added);
        order := order + [v];
        ghost var u := |Unvisited(vis1)|;
        LevelsStep(vis0, vis1, q0, lv0, added);
        lv := lv0[1..] + Repeat(u, |added|);
        DequeueLowersWeight(lv0, u, |added|, D);
        if fresh0 {
          FrontierStep(E, vis0, vis1, par0, rank0, q0, start, payload, payload[end], queue, added, parent[..], rank);
        }
      }
      found, vis, q := false, visited[..], queue;
    }

    /** Vertex.parent seen through a Ref: the placeholder has none. */
    function ParentOf(x: Ref): (p: Option<Ref>)
      reads this, edges, parent
      requires Valid() && (x.Vertex? ==> x.index < n)
      ensures p.Some? ==> x.Vertex? && p.value.Vertex? && p.value.index < n && parent[x.index] == Some(p.value.index)
      ensures p.None? ==> x.Placeholder? || parent[x.index] == None
    {
      match x
      case Placeholder => None
      case Vertex(i) => if parent[i].Some? then Some(Vertex(parent[i].value)) else None
    }

    /**
     * The loop of pathTo: enqueue the current vertex and step to its
     * parent until there is none. With ranked parents the walk ends, lists
     * no vertex twice and follows edges backwards.
     */
    method WalkParents(end: Ref, ghost rank: seq<nat>) returns (path: seq<Ref>)
      requires Valid() && ParentsRanked(rank) && (end.Vertex? ==> end.index < n)
      ensures |path| > 0 && path[0] == end
      ensures end == Placeholder ==> path == [Placeholder]
      ensures end.Vertex? ==> ParentChain(parent[..], path) && parent[path[|path| - 1].index] == None
      ensures end.Vertex? && parent[end.index] == None ==> path == [end]
      ensures forall a, b :: 0 <= a < b < |path| ==> path[a] != path[b]
    {
      ghost var par := parent[..];
      path := [];
      var current: Option<Ref> := Some(end);
      while current.Some?
        invariant current.Some? && current.value.Vertex? ==> current.value.index < n
        invariant path == [] ==> current == Some(end)
        invariant end == Placeholder && path != [] ==> path == [Placeholder] && current.None?
        invariant end.Vertex? && path != [] ==> path[0] == end && ParentChain(par, path)
        invariant end.Vertex? && path != [] ==> current == ParentOf(path[|path| - 1])
        invariant end.Vertex? && parent[end.index] == None && path != [] ==> path == [end] && current.None?
        invariant end.Vertex? && path != [] && current.Some? ==> rank[current.value.index] < rank[path[|path| - 1].index]
        decreases match current case None => 0 case Some(Placeholder) => 1 case Some(Vertex(i)) => rank[i] + 2
      {
        path := path + [current.value];
        current := ParentOf(current.value);
      }
      if end.Vertex? {
        ChainFollowsEdges(edges[..], par, rank, path);
        DescendingDistinct(path, rank);
      }
    }

    /**
     * pathTo(s, e): runs BFS(s, e) and lists the vertex it returns followed
     * by its chain of parents. On a graph no search has marked yet, the
     * list ends at the start, follows edges backwards, and begins at a
     * vertex holding e unless nothing reachable from the start holds e.
     */
    method PathTo(s: T, e: T) returns (path: seq<Ref>, ghost order: seq<nat>)
      requires Valid() && Untraversed()
      modifies visited, parent
      ensures Valid() && |path| > 0
      ensures LastMatch(payload, s).None? ==> path == [Placeholder]
      ensures LastMatch(payload, s).Some? ==>
        && (forall k :: 0 <= k < |path| ==> path[k].Vertex? && path[k].index < n)
        && path[|path| - 1] == Vertex(LastMatch(payload, s).value)
        && (forall k :: 0 <= k < |path| - 1 ==> path[k].index in edges[path[k + 1].index])
        && Reachable(edges[..], LastMatch(payload, s).value, path[0].index)
      ensures forall a, b :: 0 <= a < b < |path| ==> path[a] != path[b]
      ensures LastMatch(payload, s).Some? && (LastMatch(payload, e).None? || s == e) ==>
        path == [Vertex(LastMatch(payload, s).value)]
      ensures LastMatch(payload, s).Some? && LastMatch(payload, e).Some? ==>
        || payload[path[0].index] == e
        || (path == [Vertex(LastMatch(payload, s).value)] &&
            forall x: nat :: Reachable(edges[..], LastMatch(payload, s).value, x) ==> x < n && payload[x] != e)
      ensures LastMatch(payload, s).Some? && LastMatch(payload, e).Some? ==>
        && Stopped(edges[..], old(visited[..]), [LastMatch(payload, s).value], order, payload, e)
        && ParentChain(ParentsAfter(edges[..], old(visited[..]), [LastMatch(payload, s).value], old(parent[..]), order), path)
        && (payload[path[0].index] == e ==> HeadIs(edges[..], Replay(edges[..], old(visited[..]), [LastMatch(payload, s).value], order).value, path[0].index))
        && parent[..] == ParentsAfter(edges[..], old(visited[..]), [LastMatch(payload, s).value], old(parent[..]), order)
        && (payload[path[0].index] == e ==> visited[..] == Replay(edges[..], old(visited[..]), [LastMatch(payload, s).value], order).value.vis[path[0].index := true])
        && (payload[path[0].index] != e ==> Replay(edges[..], old(visited[..]), [LastMatch(payload, s).value], order).value.q == [] && forall v :: 0 <= v < n ==> !visited[v])
      ensures LastMatch(payload, s).None? || LastMatch(payload, e).None? ==> visited[..] == old(visited[..]) && parent[..] == old(parent[..])
    {
      ghost var rank;
      var end;
      end, rank, order := BFS(s, e);
      ghost var start := if LastMatch(payload, s).Some? then LastMatch(payload, s).value else 0;
      path := WalkParents(end, rank);
      if LastMatch(payload, s).Some? {
        if LastMatch(payload, e).Some? && payload[end.index] == e {
          ChainEndsAtStart(visited[..], parent[..], start, path);
        }
        ChainFollowsEdges(edges[..], parent[..], rank, path);
        ChainReachable(edges[..], path);
      }
    }

    /**
     * The loop of the neighbour scan of colorBFS for the dequeued vertex v
     * over its list N: a counter starts at 0; each neighbour w whose colour
     * equals v's current colour gets colors[counter + 1], counting up; each
     * unvisited neighbour is enqueued. A counter past the palette is the
     * array-bounds failure of the source: the scan stops there with ok false.
     */
    method ScanNeighbours(v: nat, N: seq<nat>, colors: seq<K>, q0: seq<nat>) returns (ok: bool, q: seq<nat>, ghost added: seq<nat>)
      requires v < color.Length && Below(N, color.Length) && visited.Length == color.Length
      modifies color
      ensures Outcome(ok, color[..]) == RecolorScan(old(color[..]), v, N, colors, 0)
      ensures ok ==> q == q0 + added && added == UnvisitedIn(N, visited[..])
    {
      ghost var col0 := color[..];
      ghost var vis := visited[..];
      q, added, ok := q0, [], true;
      var c := 0;
      var j := 0;
      while j < |N|
        invariant 0 <= j <= |N|
        invariant q == q0 + added
        invariant added == UnvisitedIn(N[..j], vis)
        invariant RecolorScan(color[..], v, N[j..], colors, c) == RecolorScan(col0, v, N, colors, 0)
      {
        var w := N[j];
        UnvisitedInStep(N, j, vis);
        RecolorScanAt(color[..], v, N, j, colors, c);
        if color[v] == color[w] {
          c := c + 1;
          if c >= |colors| {
            ok := false;
            return;
          }
          color[w] := Some(colors[c]);
        }
        if !visited[w] {
          q, added := q + [w], added + [w];
        }
        j := j + 1;
      }
      assert N[..j] == N;
    }

    /**
     * The neighbour scan of colorBFS for the dequeued vertex v, with the
     * facts about the graph that the search loop keeps: colours stay in the
     * palette, only v's neighbours change colour, a list shorter than the
     * palette never fails, and the queue grows by v's unvisited neighbours.
     */
    method RecolorNeighbours(v: nat, colors: seq<K>, q0: seq<nat>) returns (ok: bool, q: seq<nat>, ghost added: seq<nat>)
      requires Valid() && v < n && |colors| > 0
      requires ColoredFrom(color[..], Palette(colors, MaxLen(edges[..])))
      modifies color
      ensures Valid()
      ensures Outcome(ok, color[..]) == RecolorScan(old(color[..]), v, edges[v], colors, 0)
      ensures ColoredFrom(color[..], Palette(colors, MaxLen(edges[..])))
      ensures RecoloredWithin(old(color[..]), color[..], edges[v])
      ensures |edges[v]| < |colors| ==> ok
      ensures ok ==> Scanned(edges[..], visited[..], v, q0, q, added) && |added| <= |edges[v]|
    {
      ghost var col0 := color[..];
      var N := edges[v];
      assert Below(N, n);
      RecolorScanPalette(col0, v, N, colors, 0, MaxLen(edges[..]));
      RecolorScanWithin(col0, v, N, colors, 0);
      ok, q, added := ScanNeighbours(v, N, colors, q0);
      if ok {
        assert forall w :: w in N ==> w < n by {
          forall w | w in N ensures w < n {
            var k :| 0 <= k < |N| && N[k] == w;
          }
        }
        ScannedByUnvisited(edges[..], visited[..], v, q0);
      }
    }

    /**
     * One round of the queue loop of colorBFS: dequeue v, mark it visited,
     * scan its neighbours. The colours stay in the palette, recoloured and
     * newly marked vertices stay reachable from 0, and on success the queue
     * invariants hold again with a smaller measure.
     */
    method ColorRound(colors: seq<K>, q0: seq<nat>, ghost E: seq<seq<nat>>, ghost before: seq<bool>,
                      ghost lv0: seq<nat>, ghost unmarked: bool, ghost D: nat,
                      ghost init: seq<Option<K>>, ghost order0: seq<nat>)
      returns (ok: bool, q: seq<nat>, ghost lv: seq<nat>, ghost order: seq<nat>)
      requires Valid() && edges[..] == E && D == MaxLen(E) && n > 0 && q0 != [] && |colors| > 0
      requires forall v, w :: 0 <= v < |E| && w in E[v] ==> w < |E|
      requires Levels(visited[..], q0, lv0) && QueueReachable(E, q0)
      requires ColoredFrom(color[..], Palette(colors, D))
      requires RecoloredReachable(E, color[..], colors[0]) && VisitedSince(E, before, visited[..])
      requires unmarked ==> visited[0] || q0 == [0]
      requires unmarked ==> ClosedUpTo(E, visited[..], q0)
      requires ColorTrace(E, before, init, colors, order0, visited[..], color[..], q0, true)
      modifies color, visited
      ensures Valid() && edges[..] == E
      ensures ColoredFrom(color[..], Palette(colors, D))
      ensures RecoloredReachable(E, color[..], colors[0]) && VisitedSince(E, before, visited[..])
      ensures ok ==> Levels(visited[..], q, lv) && QueueReachable(E, q)
      ensures ok ==> (unmarked ==> visited[0] || q == [0]) && (unmarked ==> ClosedUpTo(E, visited[..], q))
      ensures ok ==> Weight(lv, D + 1) < Weight(lv0, D + 1)
      ensures (forall v :: 0 <= v < n ==> |edges[v]| < |colors|) ==> ok
      ensures q0[0] < n && visited[..] == old(visited[..])[q0[0] := true]
      ensures Outcome(ok, color[..]) == RecolorScan(old(color[..]), q0[0], E[q0[0]], colors, 0)
      ensures ok ==> q == q0[1..] + UnvisitedIn(E[q0[0]], visited[..])
      ensures order == order0 + [q0[0]]
      ensures ColorTrace(E, before, init, colors, order, visited[..], color[..], q, ok)
    {
      ghost var vis0, col0 := visited[..], color[..];
      var v := q0[0];
      order := order0 + [v];
      visited[v] := true;
      ghost var vis1 := visited[..];
      assert vis1 == vis0[v := true];
      VisitedSinceMark(E, before, vis0, v);
      ghost var added;
      ok, q, added := RecolorNeighbours(v, colors, q0[1..]);
      RecolorReachable(E, col0, color[..], colors[0], v);
      lv := lv0;
      if ok {
        lv := lv0[1..] + Repeat(|Unvisited(vis1)|, |added|);
        QueueStep(E, vis0, vis1, q0, q, lv0, lv, added, unmarked, D);
      }
      ColorTraceStep(E, before, init, colors, order0, vis0, col0, q0, color[..], q, ok);
    }

    /**
     * The queue loop of colorBFS from vertex 0 with flags `before` and
     * colours `init`: dequeue, mark visited, scan the neighbours, until the
     * queue runs dry or a scan fails. The ghost order lists the dequeued
     * vertices, and the trace of the search follows it.
     */
    method ColorQueue(colors: seq<K>, ghost E: seq<seq<nat>>, ghost D: nat, ghost before: seq<bool>,
                      ghost unmarked: bool, ghost init: seq<Option<K>>)
      returns (ok: bool, q: seq<nat>, ghost order: seq<nat>)
      requires Valid() && edges[..] == E && D == MaxLen(E) && n > 0 && |colors| > 0
      requires forall v, w :: 0 <= v < |E| && w in E[v] ==> w < |E|
      requires ListsInRange(E) && before == visited[..] && init == color[..]
      requires unmarked <==> forall v :: 0 <= v < n ==> !visited[v]
      requires ColoredFrom(color[..], Palette(colors, D)) && RecoloredReachable(E, color[..], colors[0])
      modifies color, visited
      ensures Valid() && edges[..] == E
      ensures |order| > 0 && order[0] == 0
      ensures ColorTrace(E, before, init, colors, order, visited[..], color[..], q, ok) && (ok ==> q == [])
      ensures (forall v :: 0 <= v < n ==> |edges[v]| < |colors|) ==> ok
      ensures ColoredFrom(color[..], Palette(colors, D))
      ensures RecoloredReachable(E, color[..], colors[0])
      ensures VisitedSince(E, before, visited[..])
      ensures ok && unmarked ==> visited[0] && ClosedUpTo(E, visited[..], [])
    {
      ReachableSelf(E, 0);
      q := [0];
      ghost var lv: seq<nat> := [|Unvisited(visited[..])| + 1];
      LevelsStart(visited[..], 0);
      ok, order := true, [];
      while ok && q != []
        invariant Valid() && edges[..] == E
        invariant order == [] ==> ok && q == [0]
        invariant |order| > 0 ==> order[0] == 0
        invariant ColorTrace(E, before, init, colors, order, visited[..], color[..], q, ok)
        invariant (forall v :: 0 <= v < n ==> |edges[v]| < |colors|) ==> ok
        invariant ok ==> Levels(visited[..], q, lv) && QueueReachable(E, q)
        invariant ColoredFrom(color[..], Palette(colors, D))
        invariant RecoloredReachable(E, color[..], colors[0])
        invariant VisitedSince(E, before, visited[..])
        invariant ok && unmarked ==> (visited[0] || q == [0]) && ClosedUpTo(E, visited[..], q)
        decreases if ok then 1 else 0, Weight(lv, D + 1)
      {
        ok, q, lv, order := ColorRound(colors, q, E, before, lv, unmarked, D, init, order);
      }
    }

    /**
     * colorBFS from vertex 0, every vertex already holding colors[0]: the
     * queue loop, with what it leaves: the dequeue order is the whole FIFO
     * run or stops at the first failing scan, the marks are exactly the
     * earlier ones and the dequeued vertices, and on success every vertex
     * reachable from 0 is marked while the unmarked ones keep colors[0].
     */
    method ColorSearch(colors: seq<K>) returns (ok: bool, ghost order: seq<nat>)
      requires Valid() && n > 0 && |colors| > 0
      requires color[..] == Uniform(n, colors[0])
      modifies color, visited
      ensures Valid()
      ensures |order| > 0 && order[0] == 0
      ensures ColorTrace(edges[..], old(visited[..]), Uniform(n, colors[0]), colors, order, visited[..], color[..], [], ok)
      ensures MarkedBy(old(visited[..]), visited[..], order)
      ensures (forall v :: 0 <= v < n ==> |edges[v]| < |colors|) ==> ok
      ensures ColoredFrom(color[..], Palette(colors, MaxLen(edges[..])))
      ensures RecoloredReachable(edges[..], color[..], colors[0])
      ensures VisitedSince(edges[..], old(visited[..]), visited[..])
      ensures ok && (forall v :: 0 <= v < n ==> !old(visited[v])) ==>
        forall x: nat :: Reachable(edges[..], 0, x) ==> x < n && visited[x]
      ensures ok && (forall v :: 0 <= v < n ==> !old(visited[v])) ==>
        forall x :: 0 <= x < n && !visited[x] ==> color[x] == Some(colors[0])
    {
      ghost var E := edges[..];
      ghost var D := MaxLen(E);
      ghost var before := visited[..];
      ghost var unmarked := forall v :: 0 <= v < n ==> !visited[v];
      assert ColoredFrom(color[..], Palette(colors, D));
      assert forall v, w :: 0 <= v < |E| && w in E[v] ==> w < |E| by {
        forall v, w | 0 <= v < |E| && w in E[v] ensures w < |E| {
          assert Below(edges[v], n);
        }
      }
      assert ListsInRange(E);
      ghost var init := color[..];
      var q;
      ok, q, order := ColorQueue(colors, E, D, before, unmarked, init);
      if ok && unmarked {
        ClosedUpToDone(E, visited[..], 0);
        UnmarkedKeepColor(E, color[..], visited[..], colors[0]);
      }
      ColorTraceDone(E, before, init, colors, order, visited[..], color[..], q, ok);
    }

    /** The first loop of colorBFS: every vertex gets colour c. */
    method PaintAll(c: K)
      requires color.Length == n
      modifies color
      ensures color[..] == Uniform(n, c)
    {
      var i := 0;
      while i < n
        invariant 0 <= i <= n
        invariant forall v :: 0 <= v < i ==> color[v] == Some(c)
      {
        color[i] := Some(c);
        i := i + 1;
      }
    }

    /**
     * colorBFS(colors): every vertex gets colors[0], then a FIFO search
     * from vertex 0 hands a neighbour that shares its dequeued vertex's
     * colour the next palette entry. With no vertex, or with an empty
     * palette, the source fails on its first array access; that and a
     * counter past the palette give ok false. The ghost order lists the
     * dequeued vertices, and the colours left are the neighbour scans
     * replayed over it from all colors[0].
     */
    method ColorBFS(colors: seq<K>) returns (ok: bool, ghost order: seq<nat>)
      requires Valid()
      modifies color, visited
      ensures Valid()
      ensures n > 0 && |colors| > 0 ==>
        && |order| > 0 && order[0] == 0
        && ColorTrace(edges[..], old(visited[..]), Uniform(n, colors[0]), colors, order, visited[..], color[..], [], ok)
        && MarkedBy(old(visited[..]), visited[..], order)
      ensures n == 0 || |colors| == 0 ==>
        !ok && color[..] == old(color[..]) && visited[..] == old(visited[..])
      ensures n > 0 && |colors| > 0 && (forall v :: 0 <= v < n ==> |edges[v]| < |colors|) ==> ok
      ensures |colors| > 0 ==> ColoredFrom(color[..], Palette(colors, MaxLen(edges[..])))
      ensures |colors| > 0 ==> RecoloredReachable(edges[..], color[..], colors[0])
      ensures VisitedSince(edges[..], old(visited[..]), visited[..])
      ensures ok && (forall v :: 0 <= v < n ==> !old(visited[v])) ==>
        forall x: nat :: Reachable(edges[..], 0, x) ==> x < n && visited[x]
      ensures ok && (forall v :: 0 <= v < n ==> !old(visited[v])) ==>
        forall x :: 0 <= x < n && !visited[x] ==> color[x] == Some(colors[0])
    {
      order := [];
      if n > 0 && |colors| == 0 {
        ok := false;
        return;
      }
      if n == 0 {
        ok := false;
        return;
      }
      PaintAll(colors[0]);
      ok, order := ColorSearch(colors);
    }
  }
}
