/** The thread counts the benchmark driver tries: 1, 2, 4, ... while they do
    not exceed the maximum, and never more than ten of them. */
module ThreadCounts {

  /** The capacity of the driver's thread-count buffer. */
  const CAPACITY: int := 10

  function Pow2(k: nat): (p: nat)
    ensures p >= 1
  {
    if k == 0 then 1 else 2 * Pow2(k - 1)
  }

  /** Powers of two grow strictly with the exponent. */
  lemma {:induction false} Pow2StrictlyIncreasing(a: nat, b: nat)
    requires a < b
    ensures Pow2(a) < Pow2(b)
    decreases b
  {
    if a < b - 1 {
      Pow2StrictlyIncreasing(a, b - 1);
    }
  }

  /** Up to the buffer's capacity, the counts stay at most 2^10. */
  lemma Pow2Bound(k: nat)
    requires k <= CAPACITY
    ensures Pow2(k) <= 1024
  {
    if k < CAPACITY {
      Pow2StrictlyIncreasing(k, CAPACITY);
    }
    assert Pow2(CAPACITY) == 1024;
  }

  /** The next count after t: 2 after 1, otherwise the double. */
  function NextCount(t: int): int
  {
    if t == 1 then 2 else t * 2
  }

  /** Fills a ten-slot buffer with t = 1, NextCount(t), ... while t <= maxThreads
      and the buffer is not full, and returns the filled prefix. The k-th count
      is 2^k; they are all at most maxThreads; the loop stops either with ten
      counts or because the next power of two exceeds maxThreads. So the list
      starts at one thread whenever the maximum allows one, and strictly
      increases, so no count is measured twice. The running t never passes
      2^10, so it stays far inside a 32-bit int. */
  method ThreadCounts(maxThreads: int) returns (threads: seq<int>)
    ensures |threads| <= CAPACITY
    ensures forall k {:trigger threads[k]} :: 0 <= k < |threads| ==> threads[k] == Pow2(k)
    ensures forall k :: 0 <= k < |threads| ==> threads[k] <= maxThreads
    ensures |threads| == CAPACITY || Pow2(|threads|) > maxThreads
    ensures maxThreads >= 1 ==> |threads| >= 1 && threads[0] == 1
    ensures forall k, l :: 0 <= k < l < |threads| ==> threads[k] < threads[l]
  {
    var buf := new int[CAPACITY];
    var count := 0;
    var t := 1;
    while t <= maxThreads && count < CAPACITY
      invariant 0 <= count <= CAPACITY
      invariant t == Pow2(count) && t <= 1024
      invariant forall k {:trigger buf[k]} :: 0 <= k < count ==> buf[k] == Pow2(k) && buf[k] <= maxThreads
      decreases CAPACITY - count
    {
      buf[count] := t;
      count := count + 1;
      t := NextCount(t);
      Pow2Bound(count);
    }
    threads := buf[..count];
    forall k, l | 0 <= k < l < |threads| ensures threads[k] < threads[l] {
      Pow2StrictlyIncreasing(k, l);
    }
  }
}
