/**
 * `ThreadPool` of `thread_pool.h`: a fixed set of workers that pop tasks from
 * one `BlockingQueue` and run them.
 *
 * A task is a `std::function<void()>`; the pool's poison is the empty
 * function, and a worker that pops an entry whose `target_type()` equals the
 * poison's returns. Running a task is recorded in the log `ran`; which job a
 * task performs is the type parameter `J`. One call of `WorkerStep` is one
 * iteration of a worker's loop; the blocking `Pop` is its precondition.
 */
module ThreadPools {
  import opened Queues

  /** An entry of `m_queue`: the poison (the empty function), or a task to run. */
  datatype PoolTask<J> = Poison | Work(job: J)

  /** No entry of `q` is the poison. */
  predicate NoPoison<J>(q: seq<PoolTask<J>>)
  {
    forall k :: 0 <= k < |q| ==> q[k].Work?
  }

  /** The jobs of the tasks in `q`, in queue order, poisons skipped. */
  function Jobs<J>(q: seq<PoolTask<J>>): seq<J>
  {
    if q == [] then []
    else if q[0].Poison? then Jobs(q[1..])
    else [q[0].job] + Jobs(q[1..])
  }

  /** `n` poisons. */
  function Stops<J>(n: nat): (r: seq<PoolTask<J>>)
    ensures |r| == n && forall k :: 0 <= k < n ==> r[k] == Poison
  {
    if n == 0 then [] else [Poison] + Stops(n - 1)
  }

  lemma {:induction false} JobsAppend<J>(a: seq<PoolTask<J>>, b: seq<PoolTask<J>>)
    ensures Jobs(a + b) == Jobs(a) + Jobs(b)
  {
    if a == [] {
      assert a + b == b;
    } else {
      assert (a + b)[1..] == a[1..] + b;
      JobsAppend(a[1..], b);
    }
  }

  /** Poisons carry no job. */
  lemma {:induction false} JobsOfStops<J>(n: nat)
    ensures Jobs(Stops<J>(n)) == []
  {
    if n > 0 {
      JobsOfStops<J>(n - 1);
    }
  }

  /** The front of `front[k..] + Stops(n)`: the next job while there is one, then a poison. */
  lemma PopFront<J>(front: seq<PoolTask<J>>, k: nat, n: nat)
    requires k <= |front| && n >= 1
    ensures var q := front[k..] + Stops(n);
      |q| > 0 &&
      (k < |front| ==> q[0] == front[k] && q[1..] == front[k + 1..] + Stops(n)) &&
      (k == |front| ==> q[0] == Poison && q[1..] == Stops(n - 1))
  {
    var q := front[k..] + Stops(n);
    if k < |front| {
      assert q[1..] == front[k + 1..] + Stops(n);
    } else {
      assert front[k..] == [];
      assert q == Stops(n);
      assert Stops<J>(n) == [Poison] + Stops(n - 1);
    }
  }

  class ThreadPool<J> {
    /** `m_threads.size()`. */
    const size: nat
    /** `m_queue`. */
    const queue: BlockingQueue<PoolTask<J>>
    /** `m_shutdownNow`. */
    var shutdownNow: bool
    /** Whether worker `i` is still inside its loop. */
    var alive: seq<bool>
    /** The jobs the workers have dequeued and started, in the order they dequeued them. */
    var ran: seq<J>
    /** Every job dispatched so far. */
    ghost var dispatched: seq<J>
    /** The jobs the destructor threw away unrun. */
    ghost var dropped: seq<J>

    /** Every dispatched job has been started, is still queued, or was dropped, in dispatch order. */
    ghost predicate Valid()
      reads this, queue
    {
      |alive| == size && ran + Jobs(queue.queue) + dropped == dispatched
    }

    /** Before destruction: every worker is alive, nothing was dropped, no poison is queued. */
    ghost predicate Running()
      reads this, queue
    {
      Valid() && dropped == [] && NoPoison(queue.queue) &&
      forall i :: 0 <= i < size ==> alive[i]
    }

    /** `ThreadPool(nThreads)`: start `nThreads` workers on an empty queue. */
    constructor (nThreads: nat)
      ensures size == nThreads && fresh(queue)
      ensures Running() && queue.queue == [] && !shutdownNow
      ensures ran == [] && dispatched == []
    {
      size := nThreads;
      queue := new BlockingQueue();
      shutdownNow := false;
      ran := [];
      dispatched := [];
      dropped := [];
      alive := [];
      new;
      for i := 0 to nThreads
        invariant |alive| == i && forall j :: 0 <= j < i ==> alive[j]
        invariant queue.queue == [] && ran == [] && dispatched == [] && dropped == []
        invariant !shutdownNow
      {
        alive := alive + [true];
      }
    }

    /** Queue every task except the poison, which is dropped. */
    method Dispatch(task: PoolTask<J>)
      requires Running()
      modifies this, queue
      ensures queue.queue == old(queue.queue) + if task.Work? then [task] else []
      ensures dispatched == old(dispatched) + if task.Work? then [task.job] else []
      ensures alive == old(alive) && ran == old(ran) && dropped == old(dropped)
      ensures shutdownNow == old(shutdownNow)
      ensures Running()
    {
      if task.Work? {
        JobsAppend(queue.queue, [task]);
        queue.Emplace(task);
        dispatched := dispatched + [task.job];
      }
    }

    /** `SetShutdownNow`: only the flag changes. */
    method SetShutdownNow(now: bool)
      modifies this
      ensures shutdownNow == now
      ensures alive == old(alive) && ran == old(ran)
      ensures dispatched == old(dispatched) && dropped == old(dropped)
    {
      shutdownNow := now;
    }

    /** One iteration of worker `i`: pop the front task; exit on the poison, else run the task. */
    method WorkerStep(i: nat) returns (exited: bool)
      requires Valid() && i < size && alive[i] && |queue.queue| > 0
      modifies this, queue
      ensures queue.queue == old(queue.queue)[1..]
      ensures exited <==> old(queue.queue)[0].Poison?
      ensures alive == old(alive)[i := !exited]
      ensures ran == old(ran) + if exited then [] else [old(queue.queue)[0].job]
      ensures dispatched == old(dispatched) && dropped == old(dropped)
      ensures shutdownNow == old(shutdownNow)
      ensures Valid()
      ensures old(Running()) ==> Running() && !exited
    {
      var q := queue.queue;
      assert q == [q[0]] + q[1..];
      JobsAppend([q[0]], q[1..]);
      assert Jobs([q[0]]) == if q[0].Poison? then [] else [q[0].job];
      var task := queue.Pop();
      if task.Poison? {
        alive := alive[i := false];
        return true;
      }
      ran := ran + [task.job];
      return false;
    }

    /**
     * `~ThreadPool`: when `shutdownNow` is set, clear the queue; push one poison
     * per worker; join every worker in turn, each running until it exits.
     */
    method Destroy()
      requires Running()
      modifies this, queue
      ensures Valid()
      ensures forall i :: 0 <= i < size ==> !alive[i]
      ensures queue.queue == if size == 0 && !old(shutdownNow) then old(queue.queue) else []
      ensures ran == old(ran) + if old(shutdownNow) || size == 0 then [] else Jobs(old(queue.queue))
      ensures dropped == if old(shutdownNow) then Jobs(old(queue.queue)) else []
      ensures dispatched == old(dispatched)
      ensures shutdownNow == old(shutdownNow)
    {
      if shutdownNow {
        dropped := Jobs(queue.queue);
        queue.Clear();
      }
      ghost var pending := queue.queue;
      PushStops();
      JoinAll(pending);
    }

    /** The destructor's first loop: one poison per worker, after what is queued. */
    method PushStops()
      requires Valid() && NoPoison(queue.queue)
      modifies this, queue
      ensures queue.queue == old(queue.queue) + Stops(size)
      ensures alive == old(alive) && ran == old(ran)
      ensures dispatched == old(dispatched) && dropped == old(dropped)
      ensures shutdownNow == old(shutdownNow)
      ensures Valid()
    {
      ghost var pending := queue.queue;
      for i := 0 to size
        invariant queue.queue == pending + Stops(i)
        invariant alive == old(alive) && ran == old(ran)
        invariant dispatched == old(dispatched) && dropped == old(dropped)
        invariant shutdownNow == old(shutdownNow)
        invariant Valid()
      {
        assert Stops<J>(i + 1) == Stops<J>(i) + [Poison];
        JobsAppend(pending, Stops(i + 1));
        JobsAppend(pending, Stops(i));
        JobsOfStops<J>(i);
        JobsOfStops<J>(i + 1);
        queue.Push(Poison);
      }
    }

    /** The destructor's second loop: join the workers in turn. */
    method JoinAll(ghost pending: seq<PoolTask<J>>)
      requires Valid() && NoPoison(pending) && queue.queue == pending + Stops(size)
      requires forall i :: 0 <= i < size ==> alive[i]
      modifies this, queue
      ensures Valid()
      ensures forall i :: 0 <= i < size ==> !alive[i]
      ensures queue.queue == if size == 0 then pending else []
      ensures ran == old(ran) + if size == 0 then [] else Jobs(pending)
      ensures dispatched == old(dispatched) && dropped == old(dropped)
      ensures shutdownNow == old(shutdownNow)
    {
      for i := 0 to size
        invariant |alive| == size
        invariant forall j :: 0 <= j < size ==> alive[j] == (j >= i)
        invariant queue.queue == (if i == 0 then pending else []) + Stops(size - i)
        invariant ran == old(ran) + if i == 0 then [] else Jobs(pending)
        invariant dispatched == old(dispatched) && dropped == old(dropped)
        invariant shutdownNow == old(shutdownNow)
        invariant Valid()
      {
        Join(i, if i == 0 then pending else [], size - i);
        assert Jobs<J>([]) == [];
      }
      if size == 0 {
        assert pending + Stops(0) == pending;
      }
    }

    /**
     * `m_threads[i].join()`: worker `i` dequeues and starts the tasks queued ahead of the
     * poisons, in order, then pops a poison and exits.
     */
    method Join(i: nat, ghost front: seq<PoolTask<J>>, ghost n: nat)
      requires Valid() && i < size && alive[i]
      requires NoPoison(front) && n >= 1 && queue.queue == front + Stops(n)
      modifies this, queue
      ensures Valid()
      ensures alive == old(alive)[i := false]
      ensures queue.queue == Stops(n - 1)
      ensures ran == old(ran) + Jobs(front)
      ensures dispatched == old(dispatched) && dropped == old(dropped)
      ensures shutdownNow == old(shutdownNow)
    {
      ghost var k := 0;
      while alive[i]
        invariant Valid()
        invariant alive == old(alive)[i := alive[i]]
        invariant 0 <= k <= |front|
        invariant alive[i] ==> queue.queue == front[k..] + Stops(n)
        invariant !alive[i] ==> queue.queue == Stops(n - 1) && k == |front|
        invariant ran == old(ran) + Jobs(front[..k])
        invariant dispatched == old(dispatched) && dropped == old(dropped)
        invariant shutdownNow == old(shutdownNow)
        decreases |queue.queue|
      {
        PopFront(front, k, n);
        var exited := WorkerStep(i);
        if !exited {
          assert front[..k + 1] == front[..k] + [front[k]];
          JobsAppend(front[..k], [front[k]]);
          k := k + 1;
        }
      }
      assert front[..k] == front;
    }
  }

  /** Dispatch `jobs` to a pool of `n` threads, then destroy it gracefully: every job is dequeued and started once, in dispatch order (none when there are no threads). */
  method GracefulShutdown<J>(n: nat, jobs: seq<J>) returns (ran: seq<J>)
    ensures ran == if n == 0 then [] else jobs
  {
    var pool := DispatchAll(n, jobs);
    pool.Destroy();
    ran := pool.ran;
  }

  /** With `SetShutdownNow(true)` before destruction, the jobs still queued never run. */
  method ImmediateShutdown<J>(n: nat, jobs: seq<J>) returns (ran: seq<J>)
    ensures ran == []
  {
    var pool := DispatchAll(n, jobs);
    pool.SetShutdownNow(true);
    pool.Destroy();
    ran := pool.ran;
  }

  /** A pool of `n` threads with `jobs` dispatched, none of them run yet. */
  method DispatchAll<J>(n: nat, jobs: seq<J>) returns (pool: ThreadPool<J>)
    ensures fresh(pool) && fresh(pool.queue) && pool.size == n
    ensures pool.Running() && !pool.shutdownNow && pool.ran == []
    ensures Jobs(pool.queue.queue) == jobs
  {
    pool := new ThreadPool<J>(n);
    for i := 0 to |jobs|
      invariant fresh(pool.queue) && pool.size == n
      invariant pool.Running() && !pool.shutdownNow && pool.ran == []
      invariant Jobs(pool.queue.queue) == jobs[..i]
    {
      ghost var before := pool.queue.queue;
      pool.Dispatch(Work(jobs[i]));
      JobsAppend(before, [Work(jobs[i])]);
      assert jobs[..i + 1] == jobs[..i] + [jobs[i]];
    }
    assert jobs[..|jobs|] == jobs;
  }
}
