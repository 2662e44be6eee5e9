/**
 * The `Actor` of `actor_boost.h`: no mailbox of its own; `Send` packages the
 * handler call and dispatches it to a `ThreadPool`, either one made for this
 * actor with a single thread or one shared with other actors.
 */
module PooledActors {
  import opened Handles
  import opened ThreadPools

  class PooledActor<M> {
    /** `m_pool`. */
    const pool: ThreadPool<Task<M>>

    /** `Actor(onReceive)`: a private pool of one thread. */
    constructor ()
      ensures fresh(pool) && fresh(pool.queue)
      ensures pool.size == 1 && pool.Running()
      ensures pool.queue.queue == [] && pool.dispatched == [] && pool.ran == [] && !pool.shutdownNow
    {
      pool := new ThreadPool(1);
    }

    /** `Actor(pool, onReceive)`: share `pool`, which is left as it is. */
    constructor Shared(pool: ThreadPool<Task<M>>)
      ensures this.pool == pool
    {
      this.pool := pool;
    }

    /** `Send`: dispatch one task for `message` to the pool and hand back its future. */
    method Send(message: M) returns (future: Future)
      requires pool.Running()
      modifies pool, pool.queue
      ensures fresh(future)
      ensures pool.queue.queue == old(pool.queue.queue) + [Work(Task(message, future))]
      ensures pool.dispatched == old(pool.dispatched) + [Task(message, future)]
      ensures pool.ran == old(pool.ran) && pool.alive == old(pool.alive) && pool.shutdownNow == old(pool.shutdownNow)
      ensures pool.Running()
    {
      future := new Future();
      pool.Dispatch(Work(Task(message, future)));
    }

    /** `SetShutdownNow`: forwarded to the pool, which may be shared. */
    method SetShutdownNow(now: bool)
      modifies pool
      ensures pool.shutdownNow == now
      ensures pool.alive == old(pool.alive) && pool.ran == old(pool.ran)
      ensures pool.dispatched == old(pool.dispatched) && pool.dropped == old(pool.dropped)
    {
      pool.SetShutdownNow(now);
    }
  }

  /** Two actors sharing one two-thread pool: the pool dequeues and starts both actors' messages, in send order. */
  method SharedPool<M>(first: M, second: M) returns (received: seq<M>)
    ensures received == [first, second]
  {
    var pool := new ThreadPool<Task<M>>(2);
    var a := new PooledActor.Shared(pool);
    var b := new PooledActor.Shared(pool);
    var f1 := a.Send(first);
    var f2 := b.Send(second);
    assert pool.queue.queue == [Work(Task(first, f1)), Work(Task(second, f2))];
    assert Jobs(pool.queue.queue) == [Task(first, f1), Task(second, f2)];
    pool.Destroy();
    received := [pool.ran[0].message, pool.ran[1].message];
  }

  /** A privately pooled actor destroyed gracefully runs every message it was sent, in order. */
  method GracefulShutdown<M>(messages: seq<M>) returns (received: seq<M>)
    ensures received == messages
  {
    var actor := new PooledActor<M>();
    ghost var tasks: seq<Task<M>> := [];
    for i := 0 to |messages|
      invariant actor.pool.Running() && !actor.pool.shutdownNow && actor.pool.ran == []
      invariant |tasks| == i && Jobs(actor.pool.queue.queue) == tasks
      invariant forall j :: 0 <= j < i ==> tasks[j].message == messages[j]
    {
      ghost var before := actor.pool.queue.queue;
      var f := actor.Send(messages[i]);
      JobsAppend(before, [Work(Task(messages[i], f))]);
      tasks := tasks + [Task(messages[i], f)];
    }
    actor.pool.Destroy();
    received := [];
    for i := 0 to |actor.pool.ran|
      invariant |received| == i && forall j :: 0 <= j < i ==> received[j] == actor.pool.ran[j].message
    {
      received := received + [actor.pool.ran[i].message];
    }
  }
}
