/** Machine integer widths and the benchmark's fixed limits. */
module Constants {
  import opened Arith

  /** C++ `int` on the platforms the benchmark targets. */
  newtype int32 = x: int | -0x8000_0000 <= x < 0x8000_0000

  /** C++ `long long`, the type of the marking loop's counter. */
  newtype int64 = x: int | -0x8000_0000_0000_0000 <= x < 0x8000_0000_0000_0000

  /** Size of the shared sieve array (`SIEVE_LIMIT`). */
  const SieveLimit: int := 100_000_000

  /** Candidate seeds are scanned in [2, PrimeLimit) (`PRIME_LIMIT`). */
  const PrimeLimit: int := 10_000

  /** Number of consecutive cells guarded by one lock (`LOCK_GRANULARITY`). */
  const LockGranularity: int := 256

  /**
   * The relations between a sieve size n, a seed limit p and a lock granularity g
   * that the marking loops and the lock table depend on: the lock table covers the
   * array exactly, every seed is a valid index, the seeds reach the square root of n,
   * and n fits in a C++ `int`.
   */
  predicate Configured(n: int, p: int, g: int): (ok: bool)
    ensures ok ==> 0 < g <= n && 1 <= n / g && (n / g) * g == n
    ensures ok ==> p * p < 0x4000_0000_0000_0000
  {
    if 0 < g && n % g == 0 && 2 <= p <= n && n <= p * p && n < 0x8000_0000 then
      MulLeq(p, 0x8000_0000, p);
      assert n == (n / g) * g + n % g;
      true
    else false
  }

  /** The constants the benchmark is built with satisfy those relations. */
  lemma DefaultsConfigured()
    ensures Configured(SieveLimit, PrimeLimit, LockGranularity)
    ensures SieveLimit / LockGranularity == 390_625
  {
  }
}
