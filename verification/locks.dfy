/**
 * The lock table of the Mutex and Spinlock variants: `n / g` locks, where the
 * lock for cell `index` is `locks[index / g]`.
 */
module Locks {
  import opened Arith

  /** The number of locks in the table (`SIEVE_LIMIT / LOCK_GRANULARITY`): the whole blocks of g cells in n. */
  function LockCount(n: int, g: int): (c: int)
    requires 0 < g
    ensures 0 <= n ==> 0 <= c && c * g <= n < (c + 1) * g
  {
    if 0 <= n then
      FloorDiv(n, g, n / g);
      FloorDiv(n, g, n / g + 1);
      n / g
    else n / g
  }

  /** The lock that guards cell index: the block of g cells that holds it. */
  function LockIndex(index: int, g: int): (k: nat)
    requires 0 <= index && 0 < g
    ensures k * g <= index < (k + 1) * g
  {
    FloorDiv(index, g, index / g);
    FloorDiv(index, g, index / g + 1);
    index / g
  }

  /** Lock k guards exactly the cells [k * g, (k + 1) * g). */
  lemma LockGuardsBlock(index: int, k: int, g: int)
    requires 0 <= index && 0 < g
    ensures LockIndex(index, g) == k <==> k * g <= index < (k + 1) * g
  {
    FloorDiv(index, g, k);
    FloorDiv(index, g, k + 1);
  }

  /** When n is a multiple of g, every cell of the array maps to a lock inside the table. */
  lemma LockIndexInBounds(index: int, n: int, g: int)
    requires 0 < g && n % g == 0 && 0 <= index < n
    ensures LockIndex(index, g) < LockCount(n, g)
  {
    var k := LockIndex(index, g);
    assert n == (n / g) * g;
    FloorDiv(n, g, k + 1);
  }

  /**
   * The multiple-of-g relation is what keeps the last cell in bounds: for a
   * non-empty array, cell n - 1 has a lock exactly when n is a multiple of g.
   */
  lemma LastCellNeedsMultiple(n: int, g: int)
    requires 0 < g && 0 < n
    ensures LockIndex(n - 1, g) < LockCount(n, g) <==> n % g == 0
  {
    if n % g == 0 {
      LockIndexInBounds(n - 1, n, g);
    } else {
      var k := n / g;
      assert n == k * g + n % g;
      LockGuardsBlock(n - 1, k, g);
    }
  }

  /** Every lock in the table guards a full block of g cells of the array. */
  lemma EveryLockGuardsFullBlock(k: int, n: int, g: int)
    requires 0 < g && n % g == 0 && 0 <= k < LockCount(n, g)
    ensures 0 <= k * g && (k + 1) * g <= n
  {
    assert n == (n / g) * g;
    MulLeq(k + 1, n / g, g);
    MulLeq(0, k, g);
  }
}
