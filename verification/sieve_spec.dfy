/**
 * The sequential meaning of `run_thread`, shared by the Mutex, Spinlock, Atomic
 * and Unsafe variants, stated on the sieve array's contents (a `seq<bool>`, true
 * for "marked composite"), and what running the workers one after another computes.
 */
module SieveSpec {
  import opened Arith
  import opened Partition

  /** A freshly constructed sieve array: every cell unmarked. */
  function Zeros(n: nat): (s: seq<bool>)
    ensures |s| == n && forall j :: 0 <= j < n ==> !s[j]
  {
    seq(n, _ => false)
  }

  /** `mark(i)` behind the `test(i)` guard; the guard never changes the outcome. */
  function Mark(s: seq<bool>, i: int): (r: seq<bool>)
    requires 0 <= i < |s|
    ensures r == s[i := true]
  {
    if s[i] then s else s[i := true]
  }

  /** Marking is idempotent and commutative. */
  lemma MarkIdempotentCommutative(s: seq<bool>, i: int, j: int)
    requires 0 <= i < |s| && 0 <= j < |s|
    ensures Mark(Mark(s, i), i) == Mark(s, i)
    ensures Mark(Mark(s, i), j) == Mark(Mark(s, j), i)
  {
  }

  /** The inner loop of `run_thread`: marks i, i + p, i + 2p, … while below |s|. */
  function Strike(s: seq<bool>, p: int, i: int): (r: seq<bool>)
    requires 0 < p && 0 <= i
    ensures |r| == |s|
    decreases |s| - i
  {
    if i >= |s| then s else Strike(Mark(s, i), p, i + p)
  }

  /** Cell j is marked after striking from i exactly when it was marked before or is i plus a multiple of p. */
  lemma {:induction false} StrikeAt(s: seq<bool>, p: int, i: int, j: int)
    requires 0 < p && 0 <= i && 0 <= j < |s|
    ensures Strike(s, p, i)[j] == (s[j] || (i <= j && (j - i) % p == 0))
    decreases |s| - i
  {
    if i < |s| {
      var s1 := Mark(s, i);
      assert Strike(s, p, i) == Strike(s1, p, i + p);
      StrikeAt(s1, p, i + p, j);
      assert s1[j] == (s[j] || j == i);
      if i <= j {
        ModStep(j - i, p);
        assert j - (i + p) == (j - i) - p;
      }
    }
  }

  /** The outer loop's body for candidate p: skip p if it is marked, else strike its multiples from p * p. */
  function Step(s: seq<bool>, p: int): (r: seq<bool>)
    requires 2 <= p < |s|
    ensures |r| == |s|
  {
    if s[p] then s else Strike(s, p, p * p)
  }

  /** One worker's pass over the candidates [lo, hi), one Step per candidate. */
  function Worker(s: seq<bool>, lo: int, hi: int): (r: seq<bool>)
    requires 2 <= lo && hi <= |s|
    ensures |r| == |s|
    decreases hi - lo
  {
    if lo >= hi then s else Worker(Step(s, lo), lo + 1, hi)
  }

  /** Seed q strikes cell j: j is q * q, q * q + q, q * q + 2q, … */
  ghost predicate StruckBy(j: int, q: int)
  {
    2 <= q && q * q <= j && j % q == 0
  }

  ghost predicate IsComposite(j: int)
  {
    2 <= j && exists d :: 2 <= d < j && j % d == 0
  }

  /** A struck cell is q * (q + k) for some k >= 0: a composite, at least 4. */
  lemma StruckIsComposite(j: int, q: int)
    requires StruckBy(j, q)
    ensures IsComposite(j) && 4 <= j
    ensures j == q * (j / q) && q <= j / q
  {
    MulLeq(2, q, q);
    MulLeq(2, q, 2);
    assert j == (j / q) * q + j % q;
    FloorDiv(j, q, q);
  }

  /** Marking is monotone, and a worker marks only cells struck by one of its candidates. */
  lemma {:induction false} WorkerFrame(s: seq<bool>, lo: int, hi: int, j: int)
    requires 2 <= lo && hi <= |s| && 0 <= j < |s|
    ensures s[j] ==> Worker(s, lo, hi)[j]
    ensures Worker(s, lo, hi)[j] ==> s[j] || exists q :: lo <= q < hi && StruckBy(j, q)
    decreases hi - lo
  {
    if lo < hi {
      var s' := Step(s, lo);
      WorkerFrame(s', lo + 1, hi, j);
      if !s[lo] {
        StrikeAt(s, lo, lo * lo, j);
        if lo * lo <= j {
          ModShift(j, lo);
        }
        assert s'[j] && !s[j] ==> StruckBy(j, lo);
      }
    }
  }

  /** Primes and the cells 0 and 1 are never marked by a worker. */
  lemma WorkerKeepsNonComposites(s: seq<bool>, lo: int, hi: int, j: int)
    requires 2 <= lo && hi <= |s| && 0 <= j < |s|
    requires !IsComposite(j)
    ensures Worker(s, lo, hi)[j] == s[j]
  {
    WorkerFrame(s, lo, hi, j);
    if q :| lo <= q < hi && StruckBy(j, q) {
      StruckIsComposite(j, q);
    }
  }

  /** The seeds [lo, hi). */
  ghost function Interval(lo: int, hi: int): (seeds: set<int>)
    ensures forall q :: q in seeds <==> lo <= q < hi
    decreases hi - lo
  {
    if lo >= hi then {} else {lo} + Interval(lo + 1, hi)
  }

  /** The cells of s marked are exactly those struck by some seed in seeds. */
  ghost predicate Sieved(s: seq<bool>, seeds: set<int>)
  {
    forall j :: 0 <= j < |s| ==> (s[j] <==> exists q :: q in seeds && StruckBy(j, q))
  }

  /** A seed's multiples from its square are multiples of any seed striking it. */
  lemma StruckTransitive(j: int, p: int, q: int)
    requires StruckBy(j, p) && StruckBy(p, q)
    ensures StruckBy(j, q)
  {
    MulLeq(1, p, p);
    var a, b := j / p, p / q;
    assert j == a * p && p == b * q;
    assert j == (a * b) * q;
    DivModUnique(j, q, a * b, 0);
  }

  /** One candidate's step of a worker, seen at cell j: the cell ends up struck by the old seeds or by p. */
  lemma CandidateSieves(s: seq<bool>, seeds: set<int>, p: int, j: int)
    requires 2 <= p < |s| && 0 <= j < |s|
    requires Sieved(s, seeds)
    ensures Step(s, p)[j] <==> exists q :: q in seeds + {p} && StruckBy(j, q)
  {
    assert s[j] <==> exists q :: q in seeds && StruckBy(j, q);
    if s[p] {
      var q0 :| q0 in seeds && StruckBy(p, q0);
      if StruckBy(j, p) {
        StruckTransitive(j, p, q0);
      }
      assert Step(s, p)[j] == s[j];
    } else {
      StrikeAt(s, p, p * p, j);
      if p * p <= j {
        ModShift(j, p);
      }
      assert Step(s, p)[j] == (s[j] || StruckBy(j, p));
    }
  }

  /** One candidate's step of a worker keeps the sieve invariant and adds the candidate to the seeds. */
  lemma StepSieves(s: seq<bool>, seeds: set<int>, p: int)
    requires 2 <= p < |s|
    requires Sieved(s, seeds)
    ensures Sieved(Step(s, p), seeds + {p})
  {
    forall j | 0 <= j < |s|
      ensures Step(s, p)[j] <==> exists q :: q in seeds + {p} && StruckBy(j, q)
    {
      CandidateSieves(s, seeds, p, j);
    }
  }

  /**
   * A worker's pass keeps the sieve invariant and adds its candidates to the seeds,
   * whatever else has run before: a candidate skipped because it is already marked
   * is struck by an earlier seed, which has already struck all its multiples.
   */
  lemma {:induction false} WorkerSieves(s: seq<bool>, seeds: set<int>, lo: int, hi: int)
    requires 2 <= lo && hi <= |s|
    requires Sieved(s, seeds)
    ensures Sieved(Worker(s, lo, hi), seeds + Interval(lo, hi))
    decreases hi - lo
  {
    if lo >= hi {
      assert seeds + Interval(lo, hi) == seeds;
    } else {
      StepSieves(s, seeds, lo);
      WorkerSieves(Step(s, lo), seeds + {lo}, lo + 1, hi);
      assert seeds + {lo} + Interval(lo + 1, hi) == seeds + Interval(lo, hi);
    }
  }

  /** Every range lies within the candidates and inside an array of size n. */
  ghost predicate ValidRanges(rs: seq<(int, int)>, n: int)
  {
    forall k :: 0 <= k < |rs| ==> 2 <= rs[k].0 && rs[k].1 <= n
  }

  /** Workers run one after another, in the order of rs. */
  function RunWorkers(s: seq<bool>, rs: seq<(int, int)>): (r: seq<bool>)
    requires ValidRanges(rs, |s|)
    ensures |r| == |s|
  {
    if rs == [] then s
    else
      var last := rs[|rs| - 1];
      Worker(RunWorkers(s, rs[..|rs| - 1]), last.0, last.1)
  }

  /** Running one more worker after a prefix of the schedule. */
  lemma RunWorkersExtend(s: seq<bool>, rs: seq<(int, int)>, i: int)
    requires ValidRanges(rs, |s|) && 0 <= i < |rs|
    ensures ValidRanges(rs[..i], |s|) && ValidRanges(rs[..i + 1], |s|)
    ensures RunWorkers(s, rs[..i + 1]) == Worker(RunWorkers(s, rs[..i]), rs[i].0, rs[i].1)
  {
    assert rs[..i + 1][..i] == rs[..i];
  }

  /** All seeds of the ranges rs. */
  ghost function Seeds(rs: seq<(int, int)>): set<int>
  {
    if rs == [] then {}
    else
      var last := rs[|rs| - 1];
      Seeds(rs[..|rs| - 1]) + Interval(last.0, last.1)
  }

  /** A seed belongs to Seeds(rs) exactly when one of the ranges holds it. */
  lemma {:induction false} SeedsMembership(rs: seq<(int, int)>, q: int)
    ensures q in Seeds(rs) <==> exists k :: 0 <= k < |rs| && rs[k].0 <= q < rs[k].1
  {
    if rs != [] {
      var prefix := rs[..|rs| - 1];
      SeedsMembership(prefix, q);
      if k :| 0 <= k < |prefix| && prefix[k].0 <= q < prefix[k].1 {
        assert rs[k] == prefix[k];
      }
      if k :| 0 <= k < |rs| - 1 && rs[k].0 <= q < rs[k].1 {
        assert rs[k] == prefix[k];
      }
    }
  }

  /** Running workers in sequence keeps the sieve invariant, with all their candidates as seeds. */
  lemma {:induction false} RunWorkersSieves(s: seq<bool>, seeds: set<int>, rs: seq<(int, int)>)
    requires ValidRanges(rs, |s|)
    requires Sieved(s, seeds)
    ensures Sieved(RunWorkers(s, rs), seeds + Seeds(rs))
  {
    if rs != [] {
      var prefix := rs[..|rs| - 1];
      var last := rs[|rs| - 1];
      RunWorkersSieves(s, seeds, prefix);
      WorkerSieves(RunWorkers(s, prefix), seeds + Seeds(prefix), last.0, last.1);
      assert seeds + Seeds(prefix) + Interval(last.0, last.1) == seeds + Seeds(rs);
    }
  }

  /** The sieve invariant determines the array. */
  lemma SievedUnique(s: seq<bool>, s': seq<bool>, seeds: set<int>)
    requires |s| == |s'| && Sieved(s, seeds) && Sieved(s', seeds)
    ensures s == s'
  {
  }

  /** The array a correct sieve of n cells ends with: cell j marked exactly when j is composite. */
  ghost function CompositeFlags(n: nat): (s: seq<bool>)
    ensures |s| == n && forall j :: 0 <= j < n ==> (s[j] <==> IsComposite(j))
  {
    seq(n, j => IsComposite(j))
  }

  /** The least divisor of j that is at least d. */
  function SmallestFactor(j: int, d: int): (f: int)
    requires 2 <= d <= j
    ensures d <= f <= j && j % f == 0
    ensures forall e :: d <= e < f ==> j % e != 0
    decreases j - d
  {
    if j % d == 0 then d else SmallestFactor(j, d + 1)
  }

  /** The cofactor of a proper divisor f of j is itself a divisor, at least 2. */
  lemma Cofactor(j: int, f: int)
    requires 2 <= f < j && j % f == 0
    ensures j == (j / f) * f && 2 <= j / f && j % (j / f) == 0
  {
    var m := j / f;
    assert j == m * f + j % f;
    if m <= 1 {
      MulLeq(m, 1, f);
    }
    DivModUnique(j, m, f, 0);
  }

  /** A composite is struck by its least prime factor. */
  lemma CompositeStruckBySmallestFactor(j: int)
    requires IsComposite(j)
    ensures StruckBy(j, SmallestFactor(j, 2))
  {
    var f := SmallestFactor(j, 2);
    var d :| 2 <= d < j && j % d == 0;
    assert f < j;
    var m := j / f;
    Cofactor(j, f);
    assert f <= m;
    MulLeq(f, m, f);
  }

  /**
   * With all of [2, p) as seeds and an array no larger than p * p, the marked cells
   * are exactly the composites.
   */
  lemma SievedIsComposites(s: seq<bool>, p: int)
    requires 2 <= p && |s| <= p * p
    requires Sieved(s, Interval(2, p))
    ensures forall j :: 0 <= j < |s| ==> (s[j] <==> IsComposite(j))
  {
    forall j | 0 <= j < |s|
      ensures s[j] <==> IsComposite(j)
    {
      if s[j] {
        var q :| q in Interval(2, p) && StruckBy(j, q);
        StruckIsComposite(j, q);
      }
      if IsComposite(j) {
        var f := SmallestFactor(j, 2);
        CompositeStruckBySmallestFactor(j);
        if f >= p {
          MulLeq(p, f, p);
          MulLeq(p, f, f);
          assert false;
        }
        assert f in Interval(2, p);
      }
    }
  }

  /**
   * All t workers of the partition of [2, p), run one after another in any order
   * (a worker may even run twice) on a zeroed array of n >= p cells, leave the
   * sieve invariant with every candidate of [2, p) as a seed.
   */
  lemma ScheduleSieves(n: int, t: int, p: int, order: seq<int>)
    requires 1 <= t && 2 <= p <= n
    requires forall k :: 0 <= k < |order| ==> 0 <= order[k] < t
    requires forall i :: 0 <= i < t ==> i in order
    ensures ValidRanges(Schedule(order, t, p), n)
    ensures Sieved(RunWorkers(Zeros(n), Schedule(order, t, p)), Interval(2, p))
  {
    var rs := Schedule(order, t, p);
    ScheduleCovers(order, t, p, 2);
    RunWorkersSieves(Zeros(n), {}, rs);
    forall x
      ensures x in Seeds(rs) <==> x in Interval(2, p)
    {
      ScheduleCovers(order, t, p, x);
      SeedsMembership(rs, x);
    }
    assert {} + Seeds(rs) == Interval(2, p);
  }

  /**
   * Running all t workers of the partition of [2, p) one after another, in any
   * order (a worker may even run twice), on a zeroed array of n >= 2 cells with
   * p <= n <= p * p, marks exactly the composites below n.
   */
  lemma SieveInAnyOrder(n: int, t: int, p: int, order: seq<int>)
    requires 1 <= t && 2 <= p <= n <= p * p
    requires forall k :: 0 <= k < |order| ==> 0 <= order[k] < t
    requires forall i :: 0 <= i < t ==> i in order
    ensures ValidRanges(Schedule(order, t, p), n)
    ensures RunWorkers(Zeros(n), Schedule(order, t, p)) == CompositeFlags(n)
  {
    ScheduleSieves(n, t, p, order);
    SievedIsComposites(RunWorkers(Zeros(n), Schedule(order, t, p)), p);
  }

  /** In particular for the schedule `Sieve::run` launches: every worker once, in index order. */
  lemma LaunchOrderSieves(n: int, t: int, p: int)
    requires 1 <= t && 2 <= p <= n <= p * p
    ensures ValidRanges(Schedule(LaunchOrder(t), t, p), n)
    ensures RunWorkers(Zeros(n), Schedule(LaunchOrder(t), t, p)) == CompositeFlags(n)
  {
    LaunchOrderNamesAll(t);
    SieveInAnyOrder(n, t, p, LaunchOrder(t));
  }

  /**
   * The final array does not depend on the order in which the workers run, even
   * when the seeds do not reach the square root of n: both arrays satisfy the
   * sieve invariant for the same seeds, which determines them.
   */
  lemma OrderIrrelevant(n: int, t: int, p: int, order: seq<int>, order': seq<int>)
    requires 1 <= t && 2 <= p <= n
    requires forall k :: 0 <= k < |order| ==> 0 <= order[k] < t
    requires forall i :: 0 <= i < t ==> i in order
    requires forall k :: 0 <= k < |order'| ==> 0 <= order'[k] < t
    requires forall i :: 0 <= i < t ==> i in order'
    ensures ValidRanges(Schedule(order, t, p), n) && ValidRanges(Schedule(order', t, p), n)
    ensures RunWorkers(Zeros(n), Schedule(order, t, p)) == RunWorkers(Zeros(n), Schedule(order', t, p))
  {
    ScheduleSieves(n, t, p, order);
    ScheduleSieves(n, t, p, order');
    SievedUnique(RunWorkers(Zeros(n), Schedule(order, t, p)), RunWorkers(Zeros(n), Schedule(order', t, p)), Interval(2, p));
  }
}
