/**
 * The mailbox `Actor` of `actor.h`.
 *
 * `Send` wraps the message in a `packaged_task` and appends it to the
 * mailbox; one worker thread pops tasks from the front and runs them. The
 * destructor sets `m_stopped`, empties the mailbox first when `m_shutdownNow`
 * is set, and joins the worker, which returns once it finds the actor stopped
 * with an empty mailbox. Running a task (which fulfils its future) is
 * recorded in the log `handled`; the handler's own effect is not modelled.
 */
module Actors {
  import opened Handles

  class Actor<M> {
    /** `m_mailbox`, front first. */
    var mailbox: seq<Task<M>>
    /** `m_stopped`. */
    var stopped: bool
    /** `m_shutdownNow`. */
    var shutdownNow: bool
    /** The worker thread has returned. */
    var finished: bool
    /** The tasks the worker has run, in the order it ran them. */
    var handled: seq<Task<M>>
    /** Every task `Send` has queued. */
    ghost var sent: seq<Task<M>>
    /** The tasks the destructor threw away unrun. */
    ghost var dropped: seq<Task<M>>

    /**
     * Sent tasks are handled, dropped or waiting, in send order; the worker
     * only returns once stopped with an empty mailbox; nothing is dropped
     * before the actor is stopped, and after dropping the mailbox is empty.
     */
    ghost predicate Valid()
      reads this
    {
      handled + dropped + mailbox == sent &&
      (finished ==> stopped && mailbox == []) &&
      (!stopped ==> dropped == []) &&
      (dropped != [] ==> mailbox == [])
    }

    /** `Actor(onReceive)`: an empty mailbox and a waiting worker. */
    constructor ()
      ensures Valid()
      ensures mailbox == [] && handled == [] && sent == []
      ensures !stopped && !shutdownNow && !finished
    {
      mailbox := [];
      stopped := false;
      shutdownNow := false;
      finished := false;
      handled := [];
      sent := [];
      dropped := [];
    }

    /** Queue one task for `message` at the back of the mailbox and hand back its future. */
    method Send(message: M) returns (future: Future)
      requires Valid() && !stopped
      modifies this
      ensures fresh(future)
      ensures mailbox == old(mailbox) + [Task(message, future)]
      ensures sent == old(sent) + [Task(message, future)]
      ensures handled == old(handled) && dropped == old(dropped)
      ensures stopped == old(stopped) && shutdownNow == old(shutdownNow) && finished == old(finished)
      ensures Valid()
    {
      future := new Future();
      mailbox := mailbox + [Task(message, future)];
      sent := sent + [Task(message, future)];
    }

    /** `SetShutdownNow`: only the flag changes. */
    method SetShutdownNow(now: bool)
      modifies this
      ensures shutdownNow == now
      ensures mailbox == old(mailbox) && handled == old(handled) && sent == old(sent) && dropped == old(dropped)
      ensures stopped == old(stopped) && finished == old(finished)
    {
      shutdownNow := now;
    }

    /**
     * One iteration of the worker loop, once its wait is over (stopped, or a
     * task queued): return when stopped with an empty mailbox, else run the
     * front task.
     */
    method WorkerStep() returns (exited: bool)
      requires Valid() && !finished && (stopped || mailbox != [])
      modifies this
      ensures exited <==> old(stopped) && old(mailbox) == []
      ensures exited ==> finished && handled == old(handled) && mailbox == old(mailbox)
      ensures !exited ==> !finished && handled == old(handled) + [old(mailbox)[0]] && mailbox == old(mailbox)[1..]
      ensures sent == old(sent) && dropped == old(dropped)
      ensures stopped == old(stopped) && shutdownNow == old(shutdownNow)
      ensures Valid()
    {
      if stopped && mailbox == [] {
        finished := true;
        return true;
      }
      var task := mailbox[0];
      assert mailbox == [task] + mailbox[1..];
      mailbox := mailbox[1..];
      handled := handled + [task];
      return false;
    }

    /**
     * `~Actor`: set `m_stopped`, empty the mailbox if `m_shutdownNow` is set,
     * then join the worker.
     */
    method Destroy()
      requires Valid() && !stopped
      modifies this
      ensures Valid()
      ensures stopped && finished && mailbox == []
      ensures handled == old(handled) + if old(shutdownNow) then [] else old(mailbox)
      ensures dropped == if old(shutdownNow) then old(mailbox) else []
      ensures sent == old(sent)
      ensures shutdownNow == old(shutdownNow)
    {
      stopped := true;
      if shutdownNow {
        while mailbox != []
          invariant handled == old(handled) && sent == old(sent) && stopped && !finished && shutdownNow == old(shutdownNow)
          invariant dropped + mailbox == old(mailbox)
          decreases |mailbox|
        {
          dropped := dropped + [mailbox[0]];
          mailbox := mailbox[1..];
        }
      }
      ghost var pending := mailbox;
      ghost var k := 0;
      while !finished
        invariant Valid() && stopped && sent == old(sent) && shutdownNow == old(shutdownNow)
        invariant dropped == if old(shutdownNow) then old(mailbox) else []
        invariant 0 <= k <= |pending| && mailbox == pending[k..]
        invariant handled == old(handled) + pending[..k]
        invariant finished ==> k == |pending|
        decreases |mailbox| + if finished then 0 else 1
      {
        var exited := WorkerStep();
        if !exited {
          assert pending[..k + 1] == pending[..k] + [pending[k]];
          k := k + 1;
        }
      }
      assert pending[..k] == pending;
    }
  }

  /** Every message sent to an actor destroyed gracefully is handled, in send order. */
  method GracefulShutdown<M>(messages: seq<M>) returns (received: seq<M>)
    ensures received == messages
  {
    var actor := new Actor<M>();
    for i := 0 to |messages|
      invariant actor.Valid() && !actor.stopped && !actor.shutdownNow && actor.handled == []
      invariant |actor.mailbox| == i && forall j :: 0 <= j < i ==> actor.mailbox[j].message == messages[j]
    {
      var _ := actor.Send(messages[i]);
    }
    actor.Destroy();
    received := [];
    for i := 0 to |actor.handled|
      invariant |received| == i && forall j :: 0 <= j < i ==> received[j] == actor.handled[j].message
    {
      received := received + [actor.handled[i].message];
    }
  }

  /** With `shutdownNow` set, the messages still in the mailbox are never handled. */
  method ImmediateShutdown<M>(messages: seq<M>) returns (received: nat)
    ensures received == 0
  {
    var actor := new Actor<M>();
    for i := 0 to |messages|
      invariant actor.Valid() && !actor.stopped && !actor.shutdownNow && actor.handled == []
    {
      var _ := actor.Send(messages[i]);
    }
    actor.SetShutdownNow(true);
    assert actor.Valid();
    actor.Destroy();
    received := |actor.handled|;
  }
}
