/**
 * `CountdownLatch` of `countdown_latch.h`: an `unsigned int` count that
 * `CountDown` lowers to zero and never below, and that `Await` waits on.
 *
 * Waiting is not modelled as blocking: the untimed `Await` is callable only
 * once the count is zero (the state in which it returns), and the timed
 * `Await` returns at once, reporting whether it gave up on a non-zero count.
 */
module Latches {

  /** `unsigned int`. */
  newtype uint32 = x: int | 0 <= x < 0x1_0000_0000

  class CountdownLatch {
    /** `m_count`. */
    var count: uint32

    /** `CountdownLatch(count)`. */
    constructor (count: uint32)
      ensures this.count == count
    {
      this.count := count;
    }

    /** `CountdownLatch()`: the default count is 1. */
    constructor Default()
      ensures count == 1
    {
      count := 1;
    }

    /** `CountDown`: one less, but nothing below zero. */
    method CountDown()
      modifies this
      ensures old(count) == 0 ==> count == 0
      ensures old(count) > 0 ==> count == old(count) - 1
    {
      if count == 0 {
        return;
      }
      count := count - 1;
    }

    /** `GetCount`. */
    method GetCount() returns (n: uint32)
      ensures n == count
    {
      n := count;
    }

    /** `Await()`: returns only once the count is zero, and changes nothing. */
    method Await()
      requires count == 0
      ensures count == old(count)
    {
    }

    /**
     * `Await(timeout)`, which returns nothing: `timedOut` records which exit
     * its wait loop takes. With no other thread counting down, the loop ends
     * on the timeout exactly when the count is not zero; the count is untouched.
     */
    method AwaitFor() returns (timedOut: bool)
      ensures timedOut <==> count > 0
    {
      timedOut := count > 0;
    }
  }

  /** `k` CountDowns on a latch of `n` leave `n - k`, or zero once `k` reaches `n`. */
  method CountDownTimes(n: uint32, k: nat) returns (remaining: uint32)
    ensures remaining == if k >= n as nat then 0 else n - k as uint32
  {
    var latch := new CountdownLatch(n);
    for i := 0 to k
      invariant latch.count as int == if i >= n as int then 0 else n as int - i
    {
      latch.CountDown();
    }
    remaining := latch.GetCount();
  }

  /** A latch of `n`, counted down `n` times, lets `Await` through with a count of zero. */
  method AwaitAfterCountDowns(n: uint32) returns (count: uint32)
    ensures count == 0
  {
    var latch := new CountdownLatch(n);
    for i := 0 to n as int
      invariant latch.count as int == n as int - i
    {
      latch.CountDown();
    }
    latch.Await();
    count := latch.GetCount();
  }

  /** A default latch that nobody counts down times out and keeps its count of 1. */
  method AwaitTimesOut() returns (timedOut: bool, count: uint32)
    ensures timedOut && count == 1
  {
    var latch := new CountdownLatch.Default();
    timedOut := latch.AwaitFor();
    count := latch.GetCount();
  }
}
