/**
 * How `Sieve::run` splits the candidate seeds [2, p) among t workers: every worker
 * gets a chunk of floor((p - 2) / t) consecutive candidates, and the last worker's
 * range is stretched to end at p.
 */
module Partition {
  import opened Arith
  import opened Constants

  /** The chunk handed to every worker but the last (`range_per_thread`). */
  function Chunk(t: int, p: int): (c: nat)
    requires 1 <= t && 2 <= p
    ensures c * t <= p - 2 < (c + 1) * t
  {
    var c := (p - 2) / t;
    FloorDiv(p - 2, t, c);
    FloorDiv(p - 2, t, c + 1);
    assert c * t == t * c && (c + 1) * t == t * (c + 1);
    c
  }

  /** The half-open range [start_prime, end_prime) of worker i out of t. */
  function Range(i: int, t: int, p: int): (r: (int, int))
    requires 1 <= t && 0 <= i < t && 2 <= p
    ensures 2 <= r.0 <= r.1 <= p
  {
    var c := Chunk(t, p);
    MulLeq(i + 1, t, c);
    assert (i + 1) * c == i * c + c;
    var start := 2 + i * c;
    (start, if i == t - 1 then p else start + c)
  }

  /** The worker whose range holds the candidate x: an independent description of the split. */
  function Owner(x: int, t: int, p: int): (i: int)
    requires 1 <= t && 2 <= x < p
    ensures 0 <= i < t
  {
    var c := Chunk(t, p);
    if c == 0 then t - 1
    else
      var q := (x - 2) / c;
      FloorDiv(x - 2, c, 0);
      if q >= t - 1 then t - 1 else q
  }

  /** Candidate x lies in worker i's range exactly when it is a candidate and i owns it. */
  lemma RangeHoldsIffOwner(x: int, i: int, t: int, p: int)
    requires 1 <= t && 0 <= i < t && 2 <= p
    ensures Range(i, t, p).0 <= x < Range(i, t, p).1 <==> 2 <= x < p && i == Owner(x, t, p)
  {
    var c := Chunk(t, p);
    if c > 0 && 2 <= x {
      FloorDiv(x - 2, c, i);
      FloorDiv(x - 2, c, i + 1);
      assert (i + 1) * c == i * c + c;
    }
  }

  /** The ranges cover [2, p): every candidate belongs to some worker. */
  lemma RangesCover(x: int, t: int, p: int)
    requires 1 <= t && 2 <= x < p
    ensures exists i :: 0 <= i < t && Range(i, t, p).0 <= x < Range(i, t, p).1
  {
    RangeHoldsIffOwner(x, Owner(x, t, p), t, p);
  }

  /** The ranges are pairwise disjoint: no candidate belongs to two workers. */
  lemma RangesDisjoint(x: int, i: int, j: int, t: int, p: int)
    requires 1 <= t && 0 <= i < t && 0 <= j < t && 2 <= p
    requires Range(i, t, p).0 <= x < Range(i, t, p).1
    requires Range(j, t, p).0 <= x < Range(j, t, p).1
    ensures i == j
  {
    RangeHoldsIffOwner(x, i, t, p);
    RangeHoldsIffOwner(x, j, t, p);
  }

  /** Worker 0 starts at 2, each worker ends where the next one starts, and the last ends at p. */
  lemma RangesChain(i: int, t: int, p: int)
    requires 1 <= t && 0 <= i < t && 2 <= p
    ensures i == 0 ==> Range(i, t, p).0 == 2
    ensures i < t - 1 ==> Range(i, t, p).1 == Range(i + 1, t, p).0
    ensures i == t - 1 ==> Range(i, t, p).1 == p
  {
    var c := Chunk(t, p);
    assert (i + 1) * c == i * c + c;
  }

  /** Ranges are ordered by worker index. */
  lemma RangesOrdered(i: int, j: int, t: int, p: int)
    requires 1 <= t && 0 <= i < j < t && 2 <= p
    ensures Range(i, t, p).1 <= Range(j, t, p).0
  {
    var c := Chunk(t, p);
    MulLeq(i + 1, j, c);
    assert (i + 1) * c == i * c + c;
  }

  /** All workers but the last get the chunk; the last one also absorbs the remainder. */
  lemma RangeSizes(i: int, t: int, p: int)
    requires 1 <= t && 0 <= i < t && 2 <= p
    ensures i < t - 1 ==> Range(i, t, p).1 - Range(i, t, p).0 == (p - 2) / t
    ensures i == t - 1 ==> Range(i, t, p).1 - Range(i, t, p).0 == (p - 2) / t + (p - 2) % t
  {
    var c := Chunk(t, p);
    assert p - 2 == t * c + (p - 2) % t;
    assert (t - 1) * c == t * c - c;
  }

  /** With more workers than candidates the chunk is empty and only the last worker has work. */
  lemma SurplusWorkersIdle(i: int, t: int, p: int)
    requires 2 <= p && p - 2 < t && 0 <= i < t - 1
    ensures Range(i, t, p) == (2, 2)
    ensures Range(t - 1, t, p) == (2, p)
  {
    assert Chunk(t, p) == 0;
  }

  /** Two worked splits of [2, 10). */
  lemma PartitionExamples()
    ensures Range(0, 4, 10) == (2, 4) && Range(1, 4, 10) == (4, 6)
    ensures Range(2, 4, 10) == (6, 8) && Range(3, 4, 10) == (8, 10)
    ensures Range(0, 3, 10) == (2, 4) && Range(1, 3, 10) == (4, 6) && Range(2, 3, 10) == (6, 10)
  {
  }

  /** Worker i's start `2 + i * range_per_thread` and end, as `Sieve::run` computes them, stay within [2, p]. */
  lemma LaunchBounds(i: int, t: int, p: int, c: int)
    requires 1 <= t && 0 <= i < t && 2 <= p && c == (p - 2) / t
    ensures c == Chunk(t, p) && 0 <= i * c <= p - 2
    ensures i < t - 1 ==> 2 + i * c + c <= p
    ensures Range(i, t, p) == (2 + i * c, if i == t - 1 then p else 2 + i * c + c)
  {
    assert c == Chunk(t, p);
    MulLeq(i + 1, t, c);
    MulLeq(0, i, c);
    assert (i + 1) * c == i * c + c;
    assert c * t == t * c;
  }

  /**
   * `start_prime` and `end_prime` of worker i as `Sieve::run` computes them in
   * 32-bit `int` arithmetic, given `range_per_thread`: no step overflows, and the
   * result is the range of the partition.
   */
  function LaunchRange(i: int32, t: int32, p: int32, rangePerThread: int32): (r: (int32, int32))
    requires 1 <= t && 0 <= i < t && 2 <= p && rangePerThread == (p - 2) / t
    ensures (r.0 as int, r.1 as int) == Range(i as int, t as int, p as int)
  {
    LaunchBounds(i as int, t as int, p as int, rangePerThread as int);
    var startPrime := 2 + i * rangePerThread;
    (startPrime, if i == t - 1 then p else startPrime + rangePerThread)
  }

  /** The order in which `Sieve::run` starts the workers: 0, 1, …, t - 1. */
  function LaunchOrder(t: nat): (order: seq<int>)
    ensures |order| == t && forall k :: 0 <= k < t ==> order[k] == k
  {
    seq(t, k => k)
  }

  /** The launch order names every worker. */
  lemma LaunchOrderNamesAll(t: nat)
    ensures forall i :: 0 <= i < t ==> i in LaunchOrder(t)
  {
    forall i | 0 <= i < t
      ensures i in LaunchOrder(t)
    {
      assert LaunchOrder(t)[i] == i;
    }
  }

  /** The ranges of the workers listed in order, in that order. */
  function Schedule(order: seq<int>, t: int, p: int): (rs: seq<(int, int)>)
    requires 1 <= t && 2 <= p
    requires forall k :: 0 <= k < |order| ==> 0 <= order[k] < t
    ensures |rs| == |order|
    ensures forall k :: 0 <= k < |rs| ==> 2 <= rs[k].0 <= rs[k].1 <= p
  {
    seq(|order|, k requires 0 <= k < |order| => Range(order[k], t, p))
  }

  /**
   * When order names every worker (in any order, possibly more than once), the
   * scheduled ranges lie inside [2, p) and every candidate is in one of them.
   */
  lemma ScheduleCovers(order: seq<int>, t: int, p: int, x: int)
    requires 1 <= t && 2 <= p
    requires forall k :: 0 <= k < |order| ==> 0 <= order[k] < t
    requires forall i :: 0 <= i < t ==> i in order
    ensures forall k :: 0 <= k < |order| ==> 2 <= Schedule(order, t, p)[k].0 && Schedule(order, t, p)[k].1 <= p
    ensures 2 <= x < p ==>
      exists k :: 0 <= k < |order| && Schedule(order, t, p)[k].0 <= x < Schedule(order, t, p)[k].1
  {
    if 2 <= x < p {
      var i := Owner(x, t, p);
      RangeHoldsIffOwner(x, i, t, p);
      assert i in order;
      var k :| 0 <= k < |order| && order[k] == i;
      assert Schedule(order, t, p)[k] == Range(i, t, p);
    }
  }
}
