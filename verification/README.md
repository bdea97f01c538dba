# Concurrent sieve benchmark: sequential model

The benchmark fills a shared array of `SIEVE_LIMIT` cells with "composite" marks.
`Sieve::run` splits the candidate seeds `[2, PRIME_LIMIT)` among `num_threads`
workers. Each worker runs `run_thread` on its own range: for every candidate
`p` that is not yet marked, it marks `p*p, p*p+p, …` below `SIEVE_LIMIT`, testing
each cell before it marks it. There are four variants: Mutex, Spinlock, Atomic
and Unsafe. They differ only in how a single `get`/`set` is synchronised. The
Mutex and Spinlock variants take the lock `locks[index / LOCK_GRANULARITY]`
from a table of `SIEVE_LIMIT / LOCK_GRANULARITY` locks.

This project models that core one thread at a time and proves what it computes.

- `constants.dfy` (`Constants`): the C++ `int` and `long long` widths as newtypes, and
  the three limits. `Configured(n, p, g)` holds the relations the code relies on:
  `n % g == 0`, `2 <= p <= n`, `n <= p * p`, and `n` fits in an `int`.
- `arith.dfy` (`Arith`): facts about multiplication and Euclidean division that the
  other proofs use. Every operand there is non-negative, so Dafny's `/` and `%` agree
  with C++'s.
- `partition.dfy` (`Partition`): the per-worker range formula `Range(i, t, p)`. It is
  proved to be a partition of `[2, p)` through an independent `Owner` function
  that names the worker owning a candidate.
- `locks.dfy` (`Locks`): the lock-index mapping and the size of the lock table.
- `sieve_spec.dfy` (`SieveSpec`): the marking loops as functions on `seq<bool>`:
  `Mark`, `Strike` for the inner loop, `Worker` for a whole `run_thread`, and
  `RunWorkers` for workers run one after another. It also holds the sieve invariant
  `Sieved(s, seeds)`: a cell is marked exactly when some seed `q` in `seeds` has
  `q*q <= j` and `q | j`. Every worker pass preserves this invariant, in any order,
  and this gives the final theorem. For any order of the workers, the marked cells
  are exactly the composites below `SIEVE_LIMIT`.
- `sieve.dfy` (`Sieve`): the class `SharedSieve`. It holds the `bit_array` as an
  `array<bool>` and the size of the lock table. `Get`, `Set` and `RunThread` are
  imperative methods with nested `while` loops over 32-bit `p` and 64-bit `i`, as in
  the source. The verifier checks that every index is in bounds and that no
  arithmetic overflows. `Run` is `Sieve::run` with the workers run one after another
  in launch order. A `Discipline` datatype names the four variants. Run sequentially,
  they share one semantics, so the discipline only decides whether a lock table exists.

The code never marks cells 0 and 1: the array starts at zero and the first write is at `p*p >= 4`.
`SieveInAnyOrder` and `WorkerKeepsNonComposites` state that 0, 1 and every prime
stay unmarked.

## Model

| member | source | states |
|---|---|---|
| `Constants.Configured` | sieve_experiment.cpp:12-15 | The relations the code relies on between the limits imply that the lock table has at least one lock and covers the array exactly, and that `p*p` fits in a `long long`. |
| `Constants.DefaultsConfigured` | sieve_experiment.cpp:12-15 | The built-in limits 10^8, 10^4 and 256 satisfy the relations the loops and lock table rely on, and the table has 390625 locks. |
| `Partition.Chunk` | sieve_experiment.cpp:48 | `range_per_thread` is the floor of `(PRIME_LIMIT-2)/num_threads`: `c*t <= p-2 < (c+1)*t`. |
| `Partition.Range` | sieve_experiment.cpp:49-51 | Every worker's `[start_prime, end_prime)` lies within `[2, PRIME_LIMIT]` and is not reversed. |
| `Partition.Owner` | sieve_experiment.cpp:48-51 | An independent description of which worker owns a candidate, always a valid worker index. |
| `Partition.RangeHoldsIffOwner` | sieve_experiment.cpp:48-51 | A candidate lies in worker i's range if and only if it is in `[2, p)` and `Owner` names i. |
| `Partition.RangesCover` | sieve_experiment.cpp:48-51 | Every candidate in `[2, PRIME_LIMIT)` is in some worker's range. |
| `Partition.RangesDisjoint` | sieve_experiment.cpp:48-51 | No candidate is in two workers' ranges. |
| `Partition.RangesChain` | sieve_experiment.cpp:49-51 | Worker 0 starts at 2, each worker ends where the next starts, and the last ends at `PRIME_LIMIT`. |
| `Partition.RangesOrdered` | sieve_experiment.cpp:49-51 | A lower-numbered worker's range ends no later than a higher-numbered one's starts. |
| `Partition.RangeSizes` | sieve_experiment.cpp:48-51 | All workers but the last get `(p-2)/t` candidates; the last gets `(p-2)/t + (p-2)%t`. |
| `Partition.SurplusWorkersIdle` | sieve_experiment.cpp:48-51 | With more workers than candidates, every worker but the last gets the empty range `[2,2)` and the last gets `[2,p)`. |
| `Partition.PartitionExamples` | sieve_experiment.cpp:48-51 | Worked splits of `[2,10)`: four workers get two each; with three workers the last gets `[6,10)`. |
| `Partition.LaunchBounds` | sieve_experiment.cpp:50-51 | Given `range_per_thread`, worker i's start `2 + i*range_per_thread` lies in `[2, PRIME_LIMIT]`, and its end is the partition's. |
| `Partition.LaunchRange` | sieve_experiment.cpp:48-51 | The 32-bit computation of `start_prime` and `end_prime` never overflows and yields exactly `Range(i, t, p)`. |
| `Partition.LaunchOrderNamesAll` | sieve_experiment.cpp:49 | The loop over `i` in `0..num_threads` starts every worker. |
| `Partition.LaunchOrder` | sieve_experiment.cpp:49 | The loop `for (int i = 0; i < num_threads; ++i)` starts workers 0, 1, …, t-1 in that order. |
| `Partition.Schedule` | sieve_experiment.cpp:49-52 | The ranges handed to `emplace_back`, in the order listed; each starts at 2 or later, is not reversed and ends by `PRIME_LIMIT`. |
| `Partition.ScheduleCovers` | sieve_experiment.cpp:48-53 | When a schedule names every worker, in any order, its ranges stay within `[2, p)` and together hold every candidate. |
| `Locks.LockCount` | sieve_experiment.cpp:76 | The size `SIEVE_LIMIT / LOCK_GRANULARITY` of the lock table (also line 106) is the number of whole blocks of `LOCK_GRANULARITY` cells in the array. |
| `Locks.LockIndex` | sieve_experiment.cpp:91 | The lock index `index / LOCK_GRANULARITY` is the block holding the cell: `k*g <= index < (k+1)*g`. |
| `Locks.LockGuardsBlock` | sieve_experiment.cpp:95 | Lock k guards exactly the cells `[k*g, (k+1)*g)`, in both directions. |
| `Locks.LockIndexInBounds` | sieve_experiment.cpp:76 | When `SIEVE_LIMIT` is a multiple of `LOCK_GRANULARITY`, every cell's lock index is below the table size `SIEVE_LIMIT / LOCK_GRANULARITY`. |
| `Locks.LastCellNeedsMultiple` | sieve_experiment.cpp:12-15 | The last cell has a lock in the table if and only if the array size is a multiple of the granularity. |
| `Locks.EveryLockGuardsFullBlock` | sieve_experiment.cpp:76 | Every lock in the table guards a full block of cells inside the array. |
| `SieveSpec.Zeros` | sieve_experiment.cpp:162 | A new sieve array has `n` cells, none marked. |
| `SieveSpec.Mark` | sieve_experiment.cpp:82-84 | Marking behind the test guard gives the same array as an unconditional write of 1. |
| `SieveSpec.MarkIdempotentCommutative` | sieve_experiment.cpp:147-150 | Marking a cell twice equals marking it once, and marks of two cells commute. |
| `SieveSpec.Strike` | sieve_experiment.cpp:81-85 | The inner loop keeps the array's length. |
| `SieveSpec.StrikeAt` | sieve_experiment.cpp:81-85 | After the inner loop from i with step p, a cell is marked if and only if it was marked before or is i plus a multiple of p. |
| `SieveSpec.Step` | sieve_experiment.cpp:80-86 | One iteration of the outer loop keeps the array's length. |
| `SieveSpec.Worker` | sieve_experiment.cpp:79-87 | A worker's pass keeps the array's length. |
| `SieveSpec.WorkerFrame` | sieve_experiment.cpp:79-87 | A worker never unmarks a cell, and every cell it newly marks is `q*q + k*q` for one of its candidates q. |
| `SieveSpec.StruckIsComposite` | sieve_experiment.cpp:81 | A cell reached from `q*q` by steps of q is `q*m` with `m >= q`, so it is composite and at least 4. |
| `SieveSpec.WorkerKeepsNonComposites` | sieve_experiment.cpp:79-85 | A worker leaves cells 0 and 1 and every prime as it found them. |
| `SieveSpec.StruckTransitive` | sieve_experiment.cpp:80 | If a candidate is struck by an earlier seed, every cell it would strike is struck by that seed, so skipping it loses nothing. |
| `SieveSpec.CandidateSieves` | sieve_experiment.cpp:80-86 | After one candidate's step, a cell is marked if and only if an old seed or the candidate strikes it, whether the candidate was skipped or not. |
| `SieveSpec.StepSieves` | sieve_experiment.cpp:80-86 | One candidate's step keeps the sieve invariant and adds the candidate to the seeds. |
| `SieveSpec.WorkerSieves` | sieve_experiment.cpp:78-88 | From a state where the marks are exactly the multiples struck by some seeds, a worker's pass leaves exactly the multiples struck by those seeds plus its own range. |
| `SieveSpec.RunWorkers` | sieve_experiment.cpp:52-60 | Running workers one after another keeps the array's length. |
| `SieveSpec.RunWorkersExtend` | sieve_experiment.cpp:49-53 | Running one more worker after a prefix of the schedule is that worker's pass on the prefix's result. |
| `SieveSpec.SeedsMembership` | sieve_experiment.cpp:49-51 | A seed is in the union of the ranges if and only if some range holds it. |
| `SieveSpec.RunWorkersSieves` | sieve_experiment.cpp:49-60 | Workers run in sequence keep the sieve invariant, with all their ranges added to the seeds. |
| `SieveSpec.SievedUnique` | sieve_experiment.cpp:56-60 | The sieve invariant for a given set of seeds determines the whole array. |
| `SieveSpec.Cofactor` | sieve_experiment.cpp:81 | Helper of `CompositeStruckBySmallestFactor`: the cofactor `j/f` of a proper divisor f of j is a divisor of j and at least 2, so the least factor's square does not exceed j and the inner loop's start at `p*p` misses no composite. |
| `SieveSpec.CompositeStruckBySmallestFactor` | sieve_experiment.cpp:81 | Every composite is struck by its least factor, whose square does not exceed it. |
| `SieveSpec.SievedIsComposites` | sieve_experiment.cpp:12-13 | With all of `[2, p)` as seeds and at most `p*p` cells, the marked cells are exactly the composites. |
| `SieveSpec.SieveInAnyOrder` | sieve_experiment.cpp:48-60 | All workers of the partition, run in any order on a zeroed array, leave `CompositeFlags(n)`: cell j is marked if and only if j is composite. |
| `SieveSpec.LaunchOrderSieves` | sieve_experiment.cpp:47-60 | The workers in launch order, from a zeroed array, leave exactly the composites marked. |
| `SieveSpec.ScheduleSieves` | sieve_experiment.cpp:48-60 | All workers of the partition, run in any order on a zeroed array, leave exactly the cells struck by some candidate of `[2, PRIME_LIMIT)` marked. |
| `SieveSpec.OrderIrrelevant` | sieve_experiment.cpp:52-60 | Any two orders of running whole workers give the same final array, even when the seeds do not reach the square root of the array size; it follows from `SievedUnique`. |
| `Sieve.Discipline.HasLockTable` | sieve_experiment.cpp:74-76 | Of the four subclasses (lines 74, 104, 134, 160), exactly `MutexSieve` and `SpinlockSieve` (line 106) own a `locks` table. |
| `Sieve.SharedSieve.constructor` | sieve_experiment.cpp:76 | A new sieve has an all-zero array of `SIEVE_LIMIT` cells, and a lock table of `SIEVE_LIMIT / LOCK_GRANULARITY` locks for Mutex and Spinlock. |
| `Sieve.SharedSieve.Get` | sieve_experiment.cpp:90-93 | Reads one cell without changing anything; in the lock-based variants the lock it takes is inside the table. |
| `Sieve.SharedSieve.Set` | sieve_experiment.cpp:94-97 | Writes 1 to one cell and changes nothing else; in the lock-based variants the lock it takes is inside the table. |
| `Sieve.SharedSieve.RunThread` | sieve_experiment.cpp:78-88 | The nested loops leave the array equal to `Worker` of the old array, with every access in bounds and no 32- or 64-bit overflow. The four variants' loops (lines 108-118 through `get`/`set`, 143-154 through relaxed `load`/`store`, 164-174 on `bit_array[i]` directly) share this one sequential semantics. |
| `Sieve.SharedSieve.Run` | sieve_experiment.cpp:47-53 | Computes each worker's range in a loop and leaves the array equal to `RunWorkers` of the old array over the launch-order schedule, whose ranges all start at 2 or later and end by `PRIME_LIMIT` (hence inside the array). |
| `Sieve.RunBenchmark` | sieve_experiment.cpp:190-211 | Building any variant with the built-in limits and running it marks exactly the composites below `SIEVE_LIMIT`. |

## Left out

- Threads: creating and joining them (sieve_experiment.cpp:44-45, 52-60) is not modelled. Workers run one after another, each to completion. `OrderIrrelevant` covers every order of whole workers, but not workers whose steps interleave.
- The `Spinlock` class, `std::mutex` and the `lock_guard` acquire/release are not modelled. Only the index of the lock taken is, and it is proved to be in the table. Exclusion and memory ordering do not arise when one thread runs at a time.
- The relaxed atomic loads and stores of `AtomicSieve` are modelled as plain reads and writes. Per-cell atomicity and the lack of cross-cell ordering are outside a sequential model.
- The data race of `UnsafeSieve` is not modelled. Its sequential semantics is the shared one.
- `AtomicSieve`'s constructor stores 0 in each cell with a loop (sieve_experiment.cpp:137-141). The model allocates an all-false array, which has the same result.
- Wall-clock timing and all console output in `Sieve::run` and `main` are left out as I/O.
- `main`'s argument checks, `std::stoi` parsing and version-name dispatch (sieve_experiment.cpp:181-207) are left out. `RunBenchmark` starts from an accepted variant and a thread count of at least 1. In the source a count of 0 divides by zero at sieve_experiment.cpp:48, and a negative count makes `reserve` at sieve_experiment.cpp:45 throw `std::length_error`.
- plot_results.py is not part of this model. It reads CSV files and plots results.
- `Partition.Range` requires `2 <= p`. `PRIME_LIMIT` is the constant 10000, so the source never meets a smaller value, and C++'s truncating division of a negative `p - 2` is not modelled.
