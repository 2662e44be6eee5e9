/**
 * Opaque identities shared by the actor, pool and routing models.
 *
 * An actor is referred to by a `shared_ptr<Actor>`, whose `==` compares the
 * pointed-to object; the routing layers only ever compare and copy such
 * pointers, so an actor reference is modelled as an opaque number.
 * A `std::future` returned by `Send` is modelled as a freshly allocated
 * `Future` object: its identity tells the sends apart, and a task "fulfils"
 * its future when the task is run.
 */
module Handles {

  /** Identity of an actor object (what `shared_ptr<Actor>::operator==` compares). */
  type ActorId = nat

  /** The future handed back by `Actor::Send`; its shared state is not modelled. */
  class Future {
    constructor ()
    {
    }
  }

  /** A `packaged_task` that calls the actor's handler on `message`, and the future it fulfils. */
  datatype Task<M> = Task(message: M, future: Future)

  /** One call `actor->Send(message)` made by a routing layer. */
  datatype Delivery<M> = Delivery(to: ActorId, message: M)

  /** The Sends made by a loop `for (auto& actor : actors) actor->Send(message)`. */
  function SendAll<M>(actors: seq<ActorId>, message: M): (r: seq<Delivery<M>>)
    ensures |r| == |actors|
    ensures forall i :: 0 <= i < |r| ==> r[i] == Delivery(actors[i], message)
  {
    if actors == [] then [] else [Delivery(actors[0], message)] + SendAll(actors[1..], message)
  }

  /** Sending to a concatenation sends to the first list, then to the second. */
  lemma SendAllAppend<M>(a: seq<ActorId>, b: seq<ActorId>, message: M)
    ensures SendAll(a + b, message) == SendAll(a, message) + SendAll(b, message)
  {
  }

  /** The recipients of a delivery log, in order. */
  function Recipients<M>(log: seq<Delivery<M>>): (r: seq<ActorId>)
    ensures |r| == |log|
    ensures forall i :: 0 <= i < |r| ==> r[i] == log[i].to
  {
    if log == [] then [] else [log[0].to] + Recipients(log[1..])
  }

  /** The loop `for (auto& actor : actors) actor->Send(message)`, one Send per entry in order. */
  method SendEach<M>(actors: seq<ActorId>, message: M) returns (log: seq<Delivery<M>>)
    ensures log == SendAll(actors, message)
  {
    log := [];
    for i := 0 to |actors|
      invariant log == SendAll(actors[..i], message)
    {
      assert actors[..i + 1] == actors[..i] + [actors[i]];
      SendAllAppend(actors[..i], [actors[i]], message);
      log := log + [Delivery(actors[i], message)];
    }
    assert actors[..|actors|] == actors;
  }
}
