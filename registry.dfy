/**
 * `ActorSystem` of `actor.h` and of `actor_boost.h` (the two are the same
 * code over different `Actor` classes): a registry mapping addresses to
 * actors, kept in a `std::map`.
 *
 * The registry only stores, compares and copies actor references, so it is
 * modelled over `ActorId`; a call `actor->Send(message)` it makes is recorded
 * as a `Delivery`. The process-wide singleton (`GetInstance`) is the one
 * object the constructor makes.
 */
module Registry {
  import opened Wrappers
  import opened Handles
  import opened OrderedMap

  type Addresses = seq<Entry<ActorId>>

  /** `ActorSystem::Send`: one delivery to the actor at `address`, or none (an empty future) when nothing is registered there. */
  function Route<M>(m: Addresses, address: string, message: M): (r: Option<Delivery<M>>)
    ensures r.None? <==> Find(m, address).None?
    ensures r.Some? ==> r.value == Delivery(Find(m, address).value, message)
  {
    match Find(m, address)
    case None => None
    case Some(actor) => Some(Delivery(actor, message))
  }

  /** `ActorSystem::Broadcast`: one delivery per registered address, in address order. */
  function BroadcastLog<M>(m: Addresses, message: M): seq<Delivery<M>>
  {
    SendAll(Values(m), message)
  }

  /** A broadcast reaches exactly the actors registered under some address, with the message. */
  lemma BroadcastRecipients<M>(m: Addresses, message: M, d: Delivery<M>)
    requires Sorted(m)
    ensures d in BroadcastLog(m, message) <==> d.message == message && exists address :: Find(m, address) == Some(d.to)
  {
    var log := BroadcastLog(m, message);
    if d in log {
      var i :| 0 <= i < |log| && log[i] == d;
      FindAt(m, i);
    }
    if d.message == message && exists address :: Find(m, address) == Some(d.to) {
      var address :| Find(m, address) == Some(d.to);
      var i :| 0 <= i < |m| && m[i] == Entry(address, d.to);
      assert log[i] == d;
    }
  }

  /** The number of addresses under which `actor` is registered. */
  function Registrations(m: Addresses, actor: ActorId): (r: nat)
    ensures r <= |m|
  {
    if m == [] then 0 else (if m[0].value == actor then 1 else 0) + Registrations(m[1..], actor)
  }

  /** A broadcast sends to an actor once per address it is registered under. */
  lemma {:induction false} BroadcastCount<M>(m: Addresses, message: M, actor: ActorId)
    ensures multiset(Recipients(BroadcastLog(m, message)))[actor] == Registrations(m, actor)
  {
    if m != [] {
      BroadcastCount(m[1..], message, actor);
      var log := BroadcastLog(m, message);
      assert Values(m) == [m[0].value] + Values(m[1..]);
      assert log == [Delivery(m[0].value, message)] + BroadcastLog(m[1..], message);
      assert Recipients(log) == [m[0].value] + Recipients(BroadcastLog(m[1..], message));
    }
  }

  /** An actor registered under two addresses receives every broadcast at least twice. */
  lemma BroadcastTwice<M>(m: Addresses, message: M, a1: string, a2: string, actor: ActorId)
    requires Sorted(m) && a1 != a2
    ensures multiset(Recipients(BroadcastLog(Put(Put(m, a1, actor), a2, actor), message)))[actor] >= 2
  {
    var m2 := Put(Put(m, a1, actor), a2, actor);
    BroadcastCount(m2, message, actor);
    var i :| 0 <= i < |m2| && m2[i] == Entry(a1, actor);
    var j :| 0 <= j < |m2| && m2[j] == Entry(a2, actor);
    RegistrationsOfTwo(m2, actor, i, j);
  }

  /** Two distinct entries holding `actor` count twice. */
  lemma {:induction false} RegistrationsOfTwo(m: Addresses, actor: ActorId, i: nat, j: nat)
    requires i < |m| && j < |m| && i != j && m[i].value == actor && m[j].value == actor
    ensures Registrations(m, actor) >= 2
  {
    if i > 0 && j > 0 {
      RegistrationsOfTwo(m[1..], actor, i - 1, j - 1);
    } else {
      var k := if i == 0 then j else i;
      RegistrationsOfOne(m[1..], actor, k - 1);
    }
  }

  /** One entry holding `actor` counts once. */
  lemma {:induction false} RegistrationsOfOne(m: Addresses, actor: ActorId, i: nat)
    requires i < |m| && m[i].value == actor
    ensures Registrations(m, actor) >= 1
  {
    if i > 0 {
      RegistrationsOfOne(m[1..], actor, i - 1);
    }
  }

  /** After `Register(address, actor)`, a Send to `address` reaches `actor`. */
  lemma RegisterThenRoute<M>(m: Addresses, address: string, actor: ActorId, message: M)
    requires Sorted(m)
    ensures Route(Put(m, address, actor), address, message) == Some(Delivery(actor, message))
  {
  }

  /** After `Unregister(address)`, a Send to `address` reaches nobody, and Sends elsewhere are unaffected. */
  lemma UnregisterThenRoute<M>(m: Addresses, address: string, other: string, message: M)
    requires Sorted(m)
    ensures Route(Erase(m, address).0, address, message).None?
    ensures other != address ==> Route(Erase(m, address).0, other, message) == Route(m, other, message)
  {
  }

  /** Unregistering twice: the second call finds nothing and changes nothing. */
  lemma UnregisterTwice(m: Addresses, address: string)
    requires Sorted(m)
    ensures Erase(Erase(m, address).0, address).1 == 0
    ensures Erase(Erase(m, address).0, address).0 == Erase(m, address).0
  {
    var once := Erase(m, address).0;
    Extensionality(Erase(once, address).0, once);
  }

  class ActorSystem {
    /** `m_actors`. */
    var actors: Addresses

    predicate Valid()
      reads this
    {
      Sorted(actors)
    }

    /** The singleton's default-constructed, empty map. */
    constructor ()
      ensures Valid() && actors == []
    {
      actors := [];
    }

    /** `Register`: `m_actors[address] = actor`, replacing any earlier registration. */
    method Register(address: string, actor: ActorId)
      requires Valid()
      modifies this
      ensures Valid()
      ensures actors == Put(old(actors), address, actor)
    {
      actors := Put(actors, address, actor);
    }

    /** `Unregister`: erase `address`; true exactly when an entry was removed. */
    method Unregister(address: string) returns (erased: bool)
      requires Valid()
      modifies this
      ensures Valid()
      ensures erased <==> Find(old(actors), address).Some?
      ensures actors == Erase(old(actors), address).0
    {
      var (rest, n) := Erase(actors, address);
      actors := rest;
      erased := n == 1;
    }

    /** `Send`: deliver to the actor found at `address`; `m_actors[address]` is read only after `find` succeeded, so the map never grows. */
    method Send<M>(address: string, message: M) returns (sent: Option<Delivery<M>>)
      requires Valid()
      ensures sent == Route(actors, address, message)
    {
      var found := Find(actors, address);
      if found.Some? {
        sent := Some(Delivery(found.value, message));
      } else {
        sent := None;
      }
    }

    /** `Broadcast`: walk the map in address order and Send to each actor. */
    method Broadcast<M>(message: M) returns (log: seq<Delivery<M>>)
      requires Valid()
      ensures log == BroadcastLog(actors, message)
      ensures |log| == |actors|
    {
      log := SendEach(Values(actors), message);
    }
  }

  /**
   * Two actors at two addresses get one Send each; after unregistering the
   * second, a broadcast reaches only the first: three Sends in all.
   */
  method SendUnregisterBroadcast<M>(address1: string, address2: string, actor1: ActorId, actor2: ActorId, message: M)
    returns (sends: nat)
    requires address1 != address2
    ensures sends == 3
  {
    var system := new ActorSystem();
    system.Register(address1, actor1);
    system.Register(address2, actor2);
    var d1 := system.Send(address1, message);
    var d2 := system.Send(address2, message);
    var erased := system.Unregister(address2);
    var log := system.Broadcast(message);
    sends := (if d1.Some? then 1 else 0) + (if d2.Some? then 1 else 0) + |log|;
  }
}
