/**
 * The shared sieve object: the `bit_array` every worker reads and writes, the lock
 * table of the lock-based variants, the marking loop `run_thread` and the driver
 * `Sieve::run`, with the workers run one after another.
 */
module Sieve {
  import opened Arith
  import opened Constants
  import opened Partition
  import opened Locks
  import opened SieveSpec

  /** The four synchronisation disciplines; run by one thread at a time they behave alike. */
  datatype Discipline = Mutex | Spinlock | Atomic | Unsafe
  {
    /** Mutex and Spinlock take the lock of a cell's block around every access. */
    predicate HasLockTable()
    {
      this == Mutex || this == Spinlock
    }
  }

  class SharedSieve {
    const discipline: Discipline
    /** `SIEVE_LIMIT`, `PRIME_LIMIT` and `LOCK_GRANULARITY` of this instance. */
    const limit: int32
    const primeLimit: int32
    const granularity: int32
    /** `bit_array`: true for a cell marked composite. */
    const bits: array<bool>
    /** The size of `locks`; the Atomic and Unsafe variants have no lock table. */
    const lockCount: int

    ghost predicate Valid()
    {
      && Configured(limit as int, primeLimit as int, granularity as int)
      && bits.Length == limit as int
      && lockCount == (if discipline.HasLockTable() then LockCount(limit as int, granularity as int) else 0)
    }

    /** Every variant starts from an all-zero array; the lock-based ones also build the lock table. */
    constructor (d: Discipline, n: int32, p: int32, g: int32)
      requires Configured(n as int, p as int, g as int)
      ensures Valid() && fresh(bits)
      ensures discipline == d && limit == n && primeLimit == p && granularity == g
      ensures bits[..] == Zeros(n as int)
    {
      discipline, limit, primeLimit, granularity := d, n, p, g;
      bits := new bool[n](_ => false);
      lockCount := if d.HasLockTable() then LockCount(n as int, g as int) else 0;
    }

    /** `get(index)`, or the relaxed load: whether cell index is marked; the lock it takes exists. */
    method Get(index: int64) returns (marked: bool)
      requires Valid() && 0 <= index as int < limit as int
      ensures marked == bits[index]
      ensures discipline.HasLockTable() ==> LockIndex(index as int, granularity as int) < lockCount
    {
      LockIndexInBounds(index as int, limit as int, granularity as int);
      marked := bits[index];
    }

    /** `set(index)`, or the relaxed store: cell index becomes marked and nothing else changes. */
    method Set(index: int64)
      requires Valid() && 0 <= index as int < limit as int
      modifies bits
      ensures bits[..] == old(bits[..])[index := true]
      ensures discipline.HasLockTable() ==> LockIndex(index as int, granularity as int) < lockCount
    {
      LockIndexInBounds(index as int, limit as int, granularity as int);
      bits[index] := true;
    }

    /**
     * `run_thread(start_prime, end_prime)`: for each candidate not yet marked, mark
     * its multiples from its square, testing every cell before marking it. The
     * square and the loop counter are 64-bit, and every access stays in bounds.
     */
    method RunThread(startPrime: int32, endPrime: int32)
      requires Valid() && 2 <= startPrime && endPrime <= primeLimit
      modifies bits
      ensures bits[..] == Worker(old(bits[..]), startPrime as int, endPrime as int)
    {
      var p := startPrime;
      while p < endPrime
        invariant startPrime <= p && (p <= endPrime || p == startPrime)
        invariant Worker(bits[..], p as int, endPrime as int) == Worker(old(bits[..]), startPrime as int, endPrime as int)
      {
        var seen := Get(p as int64);
        if !seen {
          ghost var before := bits[..];
          MulLeq(p as int, 0x8000_0000, p as int);
          var i: int64 := (p as int64) * (p as int64);
          while i < limit as int64
            invariant 0 <= i
            invariant Strike(bits[..], p as int, i as int) == Strike(before, p as int, (p as int) * (p as int))
            decreases limit as int - i as int
          {
            var marked := Get(i);
            if !marked {
              Set(i);
            }
            i := i + p as int64;
          }
        }
        p := p + 1;
      }
    }

    /**
     * `Sieve::run(num_threads)`: split [2, PRIME_LIMIT) among the workers and run
     * each on its range, here one after another in launch order.
     */
    method Run(numThreads: int32)
      requires Valid() && 1 <= numThreads
      modifies bits
      ensures ValidRanges(Schedule(LaunchOrder(numThreads as int), numThreads as int, primeLimit as int), primeLimit as int)
      ensures ValidRanges(Schedule(LaunchOrder(numThreads as int), numThreads as int, primeLimit as int), limit as int)
      ensures bits[..] == RunWorkers(old(bits[..]), Schedule(LaunchOrder(numThreads as int), numThreads as int, primeLimit as int))
    {
      ghost var t, s0 := numThreads as int, bits[..];
      ghost var rs := Schedule(LaunchOrder(t), t, primeLimit as int);
      LaunchOrderNamesAll(t);
      ScheduleCovers(LaunchOrder(t), t, primeLimit as int, 2);
      assert ValidRanges(rs[..0], |s0|);
      var rangePerThread := (primeLimit - 2) / numThreads;
      var i: int32 := 0;
      while i < numThreads
        invariant 0 <= i <= numThreads
        invariant ValidRanges(rs[..i], |s0|) && bits[..] == RunWorkers(s0, rs[..i])
      {
        var range := LaunchRange(i, numThreads, primeLimit, rangePerThread);
        assert rs[i] == (range.0 as int, range.1 as int);
        RunThread(range.0, range.1);
        RunWorkersExtend(s0, rs, i as int);
        i := i + 1;
      }
      assert rs[..numThreads] == rs;
    }
  }

  /**
   * `main` after its arguments are accepted: build the chosen variant with the
   * benchmark's constants and run it; sequentially it computes the composites
   * below `SIEVE_LIMIT`.
   */
  method RunBenchmark(d: Discipline, numThreads: int32) returns (sieve: SharedSieve)
    requires 1 <= numThreads
    ensures sieve.Valid() && fresh(sieve.bits) && sieve.discipline == d
    ensures sieve.bits.Length == SieveLimit
    ensures sieve.bits[..] == CompositeFlags(SieveLimit)
  {
    DefaultsConfigured();
    sieve := new SharedSieve(d, SieveLimit as int32, PrimeLimit as int32, LockGranularity as int32);
    sieve.Run(numThreads);
    LaunchOrderSieves(SieveLimit, numThreads as int, PrimeLimit);
  }
}
