/**
 * `Scheduler` of `scheduler.h`: one worker thread runs tasks at given Unix
 * times (milliseconds), once or every `period` milliseconds.
 *
 * `m_queue` is a `std::priority_queue` ordered by `ScheduledTaskComparator`;
 * the model keeps its entries as a multiset and lets the worker see any entry
 * the comparator allows at the top. The clock is the parameter `now` of a
 * worker step; the task run by a step is recorded in the log `ran`.
 */
module Scheduling {

  /** `ScheduledTask`: the task, its next execution time and its period (0: run once). */
  datatype ScheduledTask<J> = ScheduledTask(task: J, executionTime: int, period: int)

  /** `ScheduledTaskComparator`: `a` sorts below `b` in the heap when it runs later. */
  predicate Comparator<J>(a: ScheduledTask<J>, b: ScheduledTask<J>)
  {
    a.executionTime > b.executionTime
  }

  /** `e` may be `top()` of a heap holding `q`: no entry of `q` outranks it. */
  predicate IsTop<J(==)>(e: ScheduledTask<J>, q: multiset<ScheduledTask<J>>)
  {
    e in q && forall x :: x in q ==> !Comparator(e, x)
  }

  /** An entry that no entry outranks under the comparator has the least execution time. */
  lemma TopIsEarliest<J>(e: ScheduledTask<J>, q: multiset<ScheduledTask<J>>)
    requires IsTop(e, q)
    ensures forall x :: x in q ==> e.executionTime <= x.executionTime
  {
  }

  /** A non-empty heap has a top. */
  lemma {:induction false} TopExists<J>(q: multiset<ScheduledTask<J>>)
    requires |q| > 0
    ensures exists e :: IsTop(e, q)
    decreases |q|
  {
    var x :| x in q;
    var rest := q - multiset{x};
    assert q == rest + multiset{x};
    if |rest| == 0 {
      assert rest == multiset{};
      assert IsTop(x, q);
    } else {
      TopExists(rest);
      var e :| IsTop(e, rest);
      if Comparator(e, x) {
        assert IsTop(x, q) by {
          forall y | y in q ensures !Comparator(x, y) {
            if y != x {
              assert y in rest;
            }
          }
        }
      } else {
        assert IsTop(e, q) by {
          forall y | y in q ensures !Comparator(e, y) {
            if y != x {
              assert y in rest;
            }
          }
        }
      }
    }
  }

  /** The heap after a fired entry `e`: popped, and pushed back `period` later if periodic. */
  function Fire<J(==)>(q: multiset<ScheduledTask<J>>, e: ScheduledTask<J>): (r: multiset<ScheduledTask<J>>)
    requires e in q
    ensures |r| == if e.period > 0 then |q| else |q| - 1
    ensures e.period > 0 ==> e.(executionTime := e.executionTime + e.period) in r
    ensures forall x :: x in q && x != e ==> x in r
  {
    var popped := q - multiset{e};
    if e.period > 0 then popped + multiset{e.(executionTime := e.executionTime + e.period)} else popped
  }

  /** What one worker iteration did. */
  datatype Step<J> =
    | Exited                          // stopped with an empty queue: the thread returns
    | Fired(entry: ScheduledTask<J>)  // the top was due: it was popped (and rescheduled) and run
    | Waiting(entry: ScheduledTask<J>) // the top is not due: `wait_until` its time, queue untouched

  class Scheduler<J(==)> {
    /** `m_queue`. */
    var queue: multiset<ScheduledTask<J>>
    /** `m_stopped`. */
    var stopped: bool
    /** The worker thread has returned. */
    var finished: bool
    /** The tasks the worker has run, in order. */
    var ran: seq<J>

    /** `Scheduler()`: an empty queue and a waiting worker. */
    constructor ()
      ensures queue == multiset{} && !stopped && !finished && ran == []
    {
      queue := multiset{};
      stopped := false;
      finished := false;
      ran := [];
    }

    /** `Schedule(startTime, task)`: one entry to run once, at `startTime`. */
    method Schedule(startTime: int, task: J)
      modifies this
      ensures queue == old(queue) + multiset{ScheduledTask(task, startTime, 0)}
      ensures stopped == old(stopped) && finished == old(finished) && ran == old(ran)
    {
      queue := queue + multiset{ScheduledTask(task, startTime, 0)};
    }

    /** `Schedule(firstTime, period, task)`: one entry to run at `firstTime`, then every `period`. */
    method SchedulePeriodic(firstTime: int, period: int, task: J)
      modifies this
      ensures queue == old(queue) + multiset{ScheduledTask(task, firstTime, period)}
      ensures stopped == old(stopped) && finished == old(finished) && ran == old(ran)
    {
      queue := queue + multiset{ScheduledTask(task, firstTime, period)};
    }

    /**
     * One iteration of the worker loop, once its wait is over (stopped, or
     * something queued), at clock reading `now`.
     */
    method WorkerStep(now: int) returns (step: Step<J>)
      requires !finished && (stopped || |queue| > 0)
      modifies this
      ensures step.Exited? <==> old(stopped) && |old(queue)| == 0
      ensures step.Exited? ==> finished && queue == old(queue) && ran == old(ran)
      ensures step.Fired? ==> IsTop(step.entry, old(queue)) && step.entry.executionTime <= now &&
                              queue == Fire(old(queue), step.entry) && ran == old(ran) + [step.entry.task]
      ensures step.Waiting? ==> IsTop(step.entry, old(queue)) && step.entry.executionTime > now &&
                                queue == old(queue) && ran == old(ran)
      ensures !step.Exited? ==> !finished
      ensures stopped == old(stopped)
    {
      if stopped && |queue| == 0 {
        finished := true;
        return Exited;
      }
      TopExists(queue);
      var top :| IsTop(top, queue);
      if top.executionTime <= now {
        queue := Fire(queue, top);
        ran := ran + [top.task];
        return Fired(top);
      }
      return Waiting(top);
    }

    /**
     * `~Scheduler`: set `m_stopped`, pop every entry, join the worker. Entries
     * still queued never run.
     */
    method Destroy(now: int)
      requires !stopped && !finished
      modifies this
      ensures stopped && finished && queue == multiset{}
      ensures ran == old(ran)
    {
      stopped := true;
      while |queue| > 0
        invariant stopped && !finished && ran == old(ran)
        decreases |queue|
      {
        TopExists(queue);
        var top :| IsTop(top, queue);
        queue := queue - multiset{top};
      }
      var step := WorkerStep(now);
    }
  }

  /** A one-shot task runs once its time has come, and is gone afterwards; before that the worker waits. */
  method OneShot<J(==)>(startTime: int, now: int, task: J) returns (step: Step<J>, pending: nat)
    ensures now >= startTime ==> step == Fired(ScheduledTask(task, startTime, 0)) && pending == 0
    ensures now < startTime ==> step == Waiting(ScheduledTask(task, startTime, 0)) && pending == 1
  {
    var s := new Scheduler<J>();
    s.Schedule(startTime, task);
    step := s.WorkerStep(now);
    pending := |s.queue|;
  }

  /** A periodic task that fires is put back one period later, so the queue keeps its size. */
  method Periodic<J(==)>(firstTime: int, period: int, now: int, task: J) returns (step: Step<J>, next: multiset<ScheduledTask<J>>)
    requires period > 0 && now >= firstTime
    ensures step == Fired(ScheduledTask(task, firstTime, period))
    ensures next == multiset{ScheduledTask(task, firstTime + period, period)}
  {
    var s := new Scheduler<J>();
    s.SchedulePeriodic(firstTime, period, task);
    step := s.WorkerStep(now);
    next := s.queue;
  }

  /** Of two due tasks, the earlier runs first. */
  method EarlierFirst<J(==)>(t1: int, t2: int, now: int, a: J, b: J) returns (first: J)
    requires t1 < t2 <= now
    ensures first == a
  {
    var s := new Scheduler<J>();
    s.Schedule(t2, b);
    s.Schedule(t1, a);
    var step := s.WorkerStep(now);
    assert ScheduledTask(a, t1, 0) in s.queue + multiset{ScheduledTask(a, t1, 0)};
    first := step.entry.task;
  }

  /** `int64_t`. */
  predicate InInt64(x: int)
  {
    -0x8000_0000_0000_0000 <= x < 0x8000_0000_0000_0000
  }

  /** Integer division rounding toward zero, as `duration_cast` does. */
  function TruncDiv(a: int, b: int): (r: int)
    requires b > 0
    ensures a >= 0 ==> 0 <= r && r * b <= a < r * b + b
    ensures a < 0 ==> r <= 0 && r * b - b < a <= r * b
  {
    if a >= 0 then a / b
    else
      var q := (-a) / b;
      assert q * b <= -a < q * b + b;
      -q
  }

  /** A `system_clock::time_point`: a tick count since the epoch, `ticksPerMs` ticks per millisecond. */
  datatype TimePoint = TimePoint(ticks: int)

  /** `ToUnixTime`: milliseconds since the epoch, truncated toward zero. */
  function ToUnixTime(tp: TimePoint, ticksPerMs: nat): (r: int)
    requires ticksPerMs > 0
    ensures InInt64(tp.ticks) ==> InInt64(r)
  {
    TruncDiv(tp.ticks, ticksPerMs)
  }

  /** `ToTimePoint`: the time point `unixTime` milliseconds after the epoch. */
  function ToTimePoint(unixTime: int, ticksPerMs: nat): (r: TimePoint)
    requires ticksPerMs > 0
    ensures r.ticks == unixTime * ticksPerMs
  {
    TimePoint(unixTime * ticksPerMs)
  }

  /** Converting milliseconds to a time point and back gives the milliseconds back. */
  lemma {:induction false} UnixTimeRoundTrip(ms: int, ticksPerMs: nat)
    requires ticksPerMs > 0
    ensures ToUnixTime(ToTimePoint(ms, ticksPerMs), ticksPerMs) == ms
  {
    var r := ToUnixTime(ToTimePoint(ms, ticksPerMs), ticksPerMs);
    if ms >= 0 {
      MulCancel(r, ms, ticksPerMs);
    } else {
      MulCancel(ms, r, ticksPerMs);
    }
  }

  /** Two multiples of `k` less than `k` apart are equal. */
  lemma MulCancel(a: int, b: int, k: int)
    requires k > 0 && a * k <= b * k < a * k + k
    ensures a == b
  {
    var d := b - a;
    assert d * k == b * k - a * k;
    ProductBounds(d, k);
  }

  /** A nonzero multiple of `k` is at least `k` away from 0. */
  lemma ProductBounds(d: int, k: int)
    requires k > 0
    ensures d >= 1 ==> d * k >= k
    ensures d <= -1 ==> d * k <= -k
  {
    assert d * k == (d - 1) * k + k;
    assert d * k == (d + 1) * k - k;
  }

  /** Before the epoch, a time point between two milliseconds rounds up, not down. */
  lemma {:induction false} UnixTimeTruncatesTowardZero(ticksPerMs: nat)
    requires ticksPerMs > 1
    ensures ToUnixTime(TimePoint(-1), ticksPerMs) == 0
  {
    assert 1 / ticksPerMs == 0;
  }
}
