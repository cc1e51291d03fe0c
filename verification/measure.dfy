/**
 * A termination measure for the breadth-first loops of Graph.java. Their
 * queues may hold the same vertex several times, because a vertex is only
 * marked visited when it is dequeued. Each queue entry carries a level: the
 * number of unvisited vertices when it was enqueued. Dequeuing an entry of
 * level L enqueues at most D entries, each of level below L, so the sum of
 * (D + 1)^level over the queue strictly decreases.
 */
module Measure {
  function Pow(b: nat, e: nat): nat
  {
    if e == 0 then 1 else b * Pow(b, e - 1)
  }

  /** The sum of b^level over all queue entries. */
  function Weight(levels: seq<nat>, b: nat): nat
  {
    if levels == [] then 0 else Pow(b, levels[0]) + Weight(levels[1..], b)
  }

  /** m copies of the level u. */
  function Repeat(u: nat, m: nat): (r: seq<nat>)
    ensures |r| == m && forall i :: 0 <= i < m ==> r[i] == u
  {
    if m == 0 then [] else Repeat(u, m - 1) + [u]
  }

  lemma {:induction false} PowPositive(b: nat, e: nat)
    requires b > 0
    ensures Pow(b, e) > 0
  {
    if e > 0 {
      PowPositive(b, e - 1);
    }
  }

  lemma {:induction false} PowMonotone(b: nat, e: nat, f: nat)
    requires b > 0 && e <= f
    ensures Pow(b, e) <= Pow(b, f)
    decreases f
  {
    if e < f {
      PowMonotone(b, e, f - 1);
      AtLeastOnce(b, Pow(b, f - 1));
    }
  }

  lemma AtLeastOnce(b: nat, x: nat)
    requires b > 0
    ensures x <= b * x
  {
  }

  lemma {:induction false} WeightAppend(a: seq<nat>, c: seq<nat>, b: nat)
    ensures Weight(a + c, b) == Weight(a, b) + Weight(c, b)
  {
    if a != [] {
      assert (a + c)[1..] == a[1..] + c;
      WeightAppend(a[1..], c, b);
    } else {
      assert a + c == c;
    }
  }

  lemma {:induction false} WeightRepeat(u: nat, m: nat, b: nat)
    ensures Weight(Repeat(u, m), b) == m * Pow(b, u)
  {
    if m > 0 {
      WeightRepeat(u, m - 1, b);
      WeightAppend(Repeat(u, m - 1), [u], b);
      assert Weight([u], b) == Pow(b, u);
    }
  }

  lemma MulBelow(m: nat, d: nat, p: nat)
    requires m <= d && p > 0
    ensures m * p < (d + 1) * p
  {
    assert (d + 1) * p == d * p + p;
    assert (d - m) * p >= 0;
    assert d * p == m * p + (d - m) * p;
  }

  /** At most d new entries of level u weigh less than one entry of level u + 1. */
  lemma RepeatBelowNext(u: nat, m: nat, d: nat)
    requires m <= d
    ensures Weight(Repeat(u, m), d + 1) < Pow(d + 1, u + 1)
  {
    WeightRepeat(u, m, d + 1);
    PowPositive(d + 1, u);
    MulBelow(m, d, Pow(d + 1, u));
  }

  /**
   * Dequeuing the head entry (level at least u + 1) and enqueuing m <= d
   * entries of level u lowers the weight for base d + 1.
   */
  lemma DequeueLowersWeight(levels: seq<nat>, u: nat, m: nat, d: nat)
    requires |levels| > 0 && levels[0] >= u + 1 && m <= d
    ensures Weight(levels[1..] + Repeat(u, m), d + 1) < Weight(levels, d + 1)
  {
    WeightAppend(levels[1..], Repeat(u, m), d + 1);
    RepeatBelowNext(u, m, d);
    PowMonotone(d + 1, u + 1, levels[0]);
  }
}
