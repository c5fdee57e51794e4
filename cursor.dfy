/**
 * The index arithmetic of `Map_display::switchViews`: the view cursor steps
 * one marker forward or back and wraps around the ends of the point list.
 */
module Cursor {

  /**
   * The cursor after one step from `index` over a list of `size` points:
   * the neighbouring index, where anything past the last index becomes 0
   * and anything below 0 becomes the last index, whatever `index` was before.
   */
  function Step(index: int, next: bool, size: nat): (r: int)
    ensures size >= 1 ==> 0 <= r < size
  {
    var stepped := if next then index + 1 else index - 1;
    var last := size - 1;
    if stepped > last then 0 else if stepped < 0 then last else stepped
  }

  /** The cursor after `k` forward steps from `index`. */
  function Forward(index: int, k: nat, size: nat): int
    decreases k
  {
    if k == 0 then index else Step(Forward(index, k - 1, size), true, size)
  }

  /** With a single point the cursor always lands on it. */
  lemma SinglePointStays(index: int, next: bool)
    ensures Step(index, next, 1) == 0
  {
  }

  /**
   * On an index inside the list, a step forward is the successor modulo the
   * list length and a step back the predecessor modulo the list length
   * (Dafny's `%` never yields a negative remainder, so `(0 - 1) % size` is
   * `size - 1`).
   */
  lemma StepIsModular(index: int, size: nat)
    requires 0 <= index < size
    ensures Step(index, true, size) == (index + 1) % size
    ensures Step(index, false, size) == (index - 1) % size
  {
    if index + 1 < size {
      ModOfSmall(index + 1, size);
    }
    if index > 0 {
      ModOfSmall(index - 1, size);
    }
  }

  lemma ModOfSmall(x: int, n: int)
    requires 0 <= x < n
    ensures x % n == x
  {
  }

  /** Each forward step from an index inside the list reaches the next one round the cycle. */
  lemma {:induction false} ForwardWraps(index: int, k: nat, size: nat)
    requires 0 <= index < size && k <= size
    ensures Forward(index, k, size) == if index + k < size then index + k else index + k - size
    decreases k
  {
    if k > 0 {
      ForwardWraps(index, k - 1, size);
    }
  }

  /** Stepping forward once per point brings the cursor back to where it started. */
  lemma FullCycle(index: int, size: nat)
    requires 0 <= index < size
    ensures Forward(index, size, size) == index
  {
    ForwardWraps(index, size, size);
  }

  /** A step forward followed by a step back returns to an index inside the list, and vice versa. */
  lemma StepsUndo(index: int, size: nat)
    requires 0 <= index < size
    ensures Step(Step(index, true, size), false, size) == index
    ensures Step(Step(index, false, size), true, size) == index
  {
  }
}
