/**
 * The edge list of makeEdgeList (Graph.java:246-255): one Edge per nonzero
 * cell strictly above the diagonal of the adjacency matrix, in row-major order.
 */
module EdgeLists {
  /** An edge between the vertices at two indices. */
  datatype Edge = Edge(v1: nat, v2: nat)

  /** Row-major order of matrix cells. */
  predicate Before(x: Edge, y: Edge)
  {
    x.v1 < y.v1 || (x.v1 == y.v1 && x.v2 < y.v2)
  }

  predicate RowMajor(es: seq<Edge>)
  {
    forall a, b :: 0 <= a < b < |es| ==> Before(es[a], es[b])
  }

  /** Edges (i, c) for i < c < hi with M[i][c] != 0, by increasing c. */
  function RowEdges(M: seq<seq<int>>, i: nat, hi: nat): seq<Edge>
    requires i < |M| && hi <= |M[i]|
  {
    if hi <= i + 1 then [] else RowEdges(M, i, hi - 1) + (if M[i][hi - 1] != 0 then [Edge(i, hi - 1)] else [])
  }

  /** The edges contributed by rows 0 .. k - 1. */
  function UpperRows(M: seq<seq<int>>, k: nat): seq<Edge>
    requires k <= |M|
  {
    if k == 0 then [] else UpperRows(M, k - 1) + RowEdges(M, k - 1, |M[k - 1]|)
  }

  function UpperEdges(M: seq<seq<int>>): seq<Edge>
  {
    UpperRows(M, |M|)
  }

  lemma {:induction false} RowEdgesMember(M: seq<seq<int>>, i: nat, hi: nat)
    requires i < |M| && hi <= |M[i]|
    ensures forall e :: e in RowEdges(M, i, hi) <==> e.v1 == i && i < e.v2 < hi && M[i][e.v2] != 0
    ensures RowMajor(RowEdges(M, i, hi))
    decreases hi
  {
    if hi > i + 1 {
      RowEdgesMember(M, i, hi - 1);
      var s := RowEdges(M, i, hi - 1);
      assert forall a :: 0 <= a < |s| ==> s[a] in s;
    }
  }

  lemma {:induction false} UpperRowsMember(M: seq<seq<int>>, k: nat)
    requires k <= |M|
    ensures forall e :: e in UpperRows(M, k) <==> e.v1 < k && e.v1 < e.v2 < |M[e.v1]| && M[e.v1][e.v2] != 0
    ensures RowMajor(UpperRows(M, k))
  {
    if k > 0 {
      UpperRowsMember(M, k - 1);
      RowEdgesMember(M, k - 1, |M[k - 1]|);
      var s, t := UpperRows(M, k - 1), RowEdges(M, k - 1, |M[k - 1]|);
      assert forall a :: 0 <= a < |s| ==> s[a] in s;
      assert forall a :: 0 <= a < |t| ==> t[a] in t;
      forall e | e in UpperRows(M, k)
        ensures e.v1 < k && e.v1 < e.v2 < |M[e.v1]| && M[e.v1][e.v2] != 0
      {
        assert e in s || e in t;
      }
    }
  }

  /**
   * The edges listed are exactly the nonzero cells above the diagonal, in
   * row-major order; the diagonal and the lower triangle are never consulted.
   */
  lemma UpperEdgesMember(M: seq<seq<int>>)
    ensures forall e :: e in UpperEdges(M) <==> e.v1 < e.v2 && e.v1 < |M| && e.v2 < |M[e.v1]| && M[e.v1][e.v2] != 0
    ensures RowMajor(UpperEdges(M))
  {
    UpperRowsMember(M, |M|);
  }

  predicate IsSquare(M: seq<seq<int>>)
  {
    forall i :: 0 <= i < |M| ==> |M[i]| == |M|
  }

  /** An undirected 0/1 adjacency matrix without self-loops. */
  predicate IsUndirected(M: seq<seq<int>>)
  {
    && IsSquare(M)
    && (forall i, j :: 0 <= i < |M| && 0 <= j < |M| ==> M[i][j] == M[j][i])
    && (forall i, j :: 0 <= i < |M| && 0 <= j < |M| ==> M[i][j] == 0 || M[i][j] == 1)
    && (forall i :: 0 <= i < |M| ==> M[i][i] == 0)
  }

  /** The n x n undirected 0/1 matrix whose edges are those of es. */
  function FromEdges(n: nat, es: seq<Edge>): (M: seq<seq<int>>)
    ensures |M| == n && IsSquare(M)
  {
    seq(n, (i: nat) => seq(n, (j: nat) => if Edge(i, j) in es || Edge(j, i) in es then 1 else 0))
  }

  /** For undirected graphs the upper-triangle edge list loses nothing. */
  lemma EdgeListRoundTrip(M: seq<seq<int>>)
    requires IsUndirected(M)
    ensures FromEdges(|M|, UpperEdges(M)) == M
  {
    var n, es := |M|, UpperEdges(M);
    UpperEdgesMember(M);
    var R := FromEdges(n, es);
    forall i, j | 0 <= i < n && 0 <= j < n
      ensures R[i][j] == M[i][j]
    {
      assert Edge(i, j) in es <==> i < j && M[i][j] != 0;
      assert Edge(j, i) in es <==> j < i && M[j][i] != 0;
    }
    forall i | 0 <= i < n
      ensures R[i] == M[i]
    {
    }
  }
}
