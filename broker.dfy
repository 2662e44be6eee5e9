/**
 * The topic broker `PubSub` of `pubsub.h`.
 *
 * The broker keeps a `std::map` from topic to the list of subscribed actors.
 * Every public operation runs under the broker's mutex, so each is one atomic
 * step on the map. `actor->Send(message)` is not executed here: the routing
 * operations return the log of the Sends they make, in order.
 */
module Broker {
  import opened Wrappers
  import opened Handles
  import opened OrderedMap
  import opened TopicPattern

  /** `m_actors`: topic to subscribed actors, in `std::map` order. */
  type Subscriptions = seq<Entry<seq<ActorId>>>

  /** What `m_actors[topic]` reads: the list stored under `topic`, or the empty list it inserts. */
  function Subscribers(m: Subscriptions, topic: string): seq<ActorId>
  {
    GetOr(m, topic, [])
  }

  /** `vec.erase(it)` at the first element equal to `x`; no change when there is none. */
  function RemoveFirst(xs: seq<ActorId>, x: ActorId): (r: seq<ActorId>)
    ensures x !in xs ==> r == xs
    ensures multiset(r) == multiset(xs) - multiset{x}
  {
    if xs == [] then []
    else if xs[0] == x then
      assert xs == [xs[0]] + xs[1..];
      xs[1..]
    else
      assert xs == [xs[0]] + xs[1..];
      [xs[0]] + RemoveFirst(xs[1..], x)
  }

  /** At the first index `i` holding `x`, `RemoveFirst` erases exactly that element and keeps the order. */
  lemma {:induction false} RemoveFirstAt(xs: seq<ActorId>, x: ActorId, i: nat)
    requires i < |xs| && xs[i] == x && x !in xs[..i]
    ensures RemoveFirst(xs, x) == xs[..i] + xs[i + 1..]
  {
    if i > 0 {
      assert xs[0] == xs[..i][0];
      assert x !in xs[1..][..i - 1] by { assert xs[1..][..i - 1] == xs[..i][1..]; }
      RemoveFirstAt(xs[1..], x, i - 1);
      assert xs[..i] == [xs[0]] + xs[1..][..i - 1];
      assert xs[i + 1..] == xs[1..][i..];
    }
  }

  /** Removing an actor that was just appended, and occurred nowhere before, gives the list back. */
  lemma {:induction false} RemoveFirstAppended(xs: seq<ActorId>, x: ActorId)
    requires x !in xs
    ensures RemoveFirst(xs + [x], x) == xs
  {
    if xs != [] {
      assert (xs + [x])[1..] == xs[1..] + [x];
      RemoveFirstAppended(xs[1..], x);
    }
  }

  /** The Sends of `Broadcast`: every list, in topic order, each in list order. */
  function BroadcastLog<M>(m: Subscriptions, message: M): seq<Delivery<M>>
  {
    if m == [] then [] else SendAll(m[0].value, message) + BroadcastLog(m[1..], message)
  }

  /** The Sends of `Multicast`: the lists of the topics the terms match, in topic order. */
  function MulticastLog<M>(m: Subscriptions, terms: seq<Term>, message: M): seq<Delivery<M>>
  {
    if m == [] then []
    else
      var head := if Matches(terms, m[0].key) then SendAll(m[0].value, message) else [];
      head + MulticastLog(m[1..], terms, message)
  }

  /** How many subscriptions there are, over all topics. */
  function TotalSubscriptions(m: Subscriptions): nat
  {
    if m == [] then 0 else |m[0].value| + TotalSubscriptions(m[1..])
  }

  lemma {:induction false} BroadcastLogAppend<M>(a: Subscriptions, b: Subscriptions, message: M)
    ensures BroadcastLog(a + b, message) == BroadcastLog(a, message) + BroadcastLog(b, message)
  {
    if a == [] {
      assert a + b == b;
    } else {
      assert (a + b)[1..] == a[1..] + b;
      BroadcastLogAppend(a[1..], b, message);
    }
  }

  lemma {:induction false} MulticastLogAppend<M>(a: Subscriptions, b: Subscriptions, terms: seq<Term>, message: M)
    ensures MulticastLog(a + b, terms, message) == MulticastLog(a, terms, message) + MulticastLog(b, terms, message)
  {
    if a == [] {
      assert a + b == b;
    } else {
      assert (a + b)[1..] == a[1..] + b;
      MulticastLogAppend(a[1..], b, terms, message);
    }
  }

  /** `Broadcast` makes one Send per (topic, subscriber) pair. */
  lemma {:induction false} BroadcastCount<M>(m: Subscriptions, message: M)
    ensures |BroadcastLog(m, message)| == TotalSubscriptions(m)
  {
    if m != [] {
      BroadcastCount(m[1..], message);
    }
  }

  /** A pattern that matches every topic multicasts exactly what `Broadcast` sends. */
  lemma {:induction false} MulticastEverywhere<M>(m: Subscriptions, terms: seq<Term>, message: M)
    requires forall i :: 0 <= i < |m| ==> Matches(terms, m[i].key)
    ensures MulticastLog(m, terms, message) == BroadcastLog(m, message)
  {
    if m != [] {
      assert Matches(terms, m[0].key);
      assert forall i :: 0 <= i < |m[1..]| ==> Matches(terms, m[1..][i].key) by {
        forall i | 0 <= i < |m[1..]| ensures Matches(terms, m[1..][i].key) {
          assert m[1..][i] == m[i + 1];
        }
      }
      MulticastEverywhere(m[1..], terms, message);
    }
  }

  /**
   * `Multicast` sends to an actor exactly when it is subscribed to a topic the
   * pattern matches; the actors of the other topics receive nothing.
   */
  lemma {:induction false} MulticastRecipients<M>(m: Subscriptions, terms: seq<Term>, message: M, d: Delivery<M>)
    ensures d in MulticastLog(m, terms, message) <==>
      d.message == message && exists i :: 0 <= i < |m| && Matches(terms, m[i].key) && d.to in m[i].value
  {
    if m != [] {
      MulticastRecipients(m[1..], terms, message, d);
      var head := if Matches(terms, m[0].key) then SendAll(m[0].value, message) else [];
      assert d in head <==> d.message == message && Matches(terms, m[0].key) && d.to in m[0].value by {
        if d in head {
          var k :| 0 <= k < |head| && head[k] == d;
        }
        if d.message == message && Matches(terms, m[0].key) && d.to in m[0].value {
          var k :| 0 <= k < |m[0].value| && m[0].value[k] == d.to;
          assert head[k] == d;
        }
      }
      if exists i :: 0 <= i < |m| && Matches(terms, m[i].key) && d.to in m[i].value {
        var i :| 0 <= i < |m| && Matches(terms, m[i].key) && d.to in m[i].value;
        if i > 0 {
          assert m[1..][i - 1] == m[i];
        }
      }
      if exists i :: 0 <= i < |m[1..]| && Matches(terms, m[1..][i].key) && d.to in m[1..][i].value {
        var i :| 0 <= i < |m[1..]| && Matches(terms, m[1..][i].key) && d.to in m[1..][i].value;
        assert m[i + 1] == m[1..][i];
      }
    }
  }

  /** Terms that match no topic of the map multicast nothing. */
  lemma {:induction false} MulticastNowhere<M>(m: Subscriptions, terms: seq<Term>, message: M)
    requires forall i :: 0 <= i < |m| ==> !Matches(terms, m[i].key)
    ensures MulticastLog(m, terms, message) == []
  {
    if m != [] {
      assert !Matches(terms, m[0].key);
      assert forall i :: 0 <= i < |m[1..]| ==> !Matches(terms, m[1..][i].key) by {
        forall i | 0 <= i < |m[1..]| ensures !Matches(terms, m[1..][i].key) {
          assert m[1..][i] == m[i + 1];
        }
      }
      MulticastNowhere(m[1..], terms, message);
    }
  }

  /** Terms that match exactly one topic multicast what `Publish` sends on that topic. */
  lemma {:induction false} MulticastSingleTopic<M>(m: Subscriptions, terms: seq<Term>, topic: string, message: M)
    requires Sorted(m)
    requires forall i :: 0 <= i < |m| ==> (Matches(terms, m[i].key) <==> m[i].key == topic)
    ensures MulticastLog(m, terms, message) == SendAll(Subscribers(m, topic), message)
  {
    if m != [] {
      assert forall i :: 0 <= i < |m[1..]| ==> (Matches(terms, m[1..][i].key) <==> m[1..][i].key == topic) by {
        forall i | 0 <= i < |m[1..]| ensures Matches(terms, m[1..][i].key) <==> m[1..][i].key == topic {
          assert m[1..][i] == m[i + 1];
        }
      }
      FindTail(m, topic);
      if m[0].key == topic {
        assert forall i :: 0 <= i < |m[1..]| ==> !Matches(terms, m[1..][i].key) by {
          forall i | 0 <= i < |m[1..]| ensures !Matches(terms, m[1..][i].key) {
            assert m[1..][i] == m[i + 1];
            StringOrder.LessIrreflexive(topic);
            assert StringOrder.Less(m[0].key, m[i + 1].key);
          }
        }
        MulticastNowhere(m[1..], terms, message);
        assert SendAll(m[0].value, message) + [] == SendAll(m[0].value, message);
      } else {
        MulticastSingleTopic(m[1..], terms, topic, message);
      }
    }
  }

  /** A pattern with no `+` and no final `#` multicasts exactly what `Publish` sends on it. */
  lemma LiteralMulticastIsPublish<M>(m: Subscriptions, p: string, message: M)
    requires Sorted(m) && |p| > 0 && p[|p| - 1] != '#'
    requires forall i :: 0 <= i < |p| ==> p[i] != '+'
    ensures MulticastLog(m, PatternTerms(p), message) == SendAll(Subscribers(m, p), message)
  {
    forall i | 0 <= i < |m| ensures Matches(PatternTerms(p), m[i].key) <==> m[i].key == p {
      LiteralPatternMatchesItself(p, m[i].key);
    }
    MulticastSingleTopic(m, PatternTerms(p), p, message);
  }

  /** Subscribing an actor and unsubscribing it again leaves the map `Publish` would leave. */
  lemma SubscribeUnsubscribe(m: Subscriptions, topic: string, actor: ActorId)
    requires Sorted(m) && actor !in Subscribers(m, topic)
    ensures var m1 := Put(m, topic, Subscribers(m, topic) + [actor]);
      Put(m1, topic, RemoveFirst(Subscribers(m1, topic), actor)) == Put(m, topic, Subscribers(m, topic))
  {
    var m1 := Put(m, topic, Subscribers(m, topic) + [actor]);
    assert Subscribers(m1, topic) == Subscribers(m, topic) + [actor];
    RemoveFirstAppended(Subscribers(m, topic), actor);
    PutPut(m, topic, Subscribers(m, topic) + [actor], Subscribers(m, topic));
  }

  /** `m_actors[topic]` on a topic already present leaves the map as it was. */
  lemma TouchKnownTopic(m: Subscriptions, topic: string)
    requires Sorted(m) && Find(m, topic).Some?
    ensures Put(m, topic, Subscribers(m, topic)) == m
  {
    PutFound(m, topic);
  }

  /** `m_actors[topic]` on an unknown topic inserts it with no subscribers, so `GetTopics` lists it from then on. */
  lemma TouchUnknownTopic(m: Subscriptions, topic: string)
    requires Sorted(m) && Find(m, topic).None?
    ensures var m1 := Put(m, topic, Subscribers(m, topic));
      Subscribers(m1, topic) == [] && topic in Keys(m1) && |Keys(m1)| == |Keys(m)| + 1
  {
    var m1 := Put(m, topic, Subscribers(m, topic));
    var i :| 0 <= i < |m1| && m1[i] == Entry(topic, []);
    assert Keys(m1)[i] == topic;
  }

  /** A further `push_back` on a list just stored is one store of the longer list. */
  lemma AppendStep(m: Subscriptions, topic: string, xs: seq<ActorId>, y: ActorId)
    requires Sorted(m)
    ensures Put(Put(m, topic, xs), topic, Subscribers(Put(m, topic, xs), topic) + [y]) == Put(m, topic, xs + [y])
  {
    assert Subscribers(Put(m, topic, xs), topic) == xs;
    PutPut(m, topic, xs, xs + [y]);
  }

  class PubSub<M> {
    /** `m_actors`. */
    var actors: Subscriptions

    /** The entries are in `std::map` order, one per topic. */
    predicate Valid()
      reads this
    {
      Sorted(actors)
    }

    /** `PubSub() = default`: no topic. */
    constructor ()
      ensures Valid() && actors == []
    {
      actors := [];
    }

    /** `m_actors[topic].push_back(actor)`: append, keeping duplicates; other topics unchanged. */
    method Subscribe(topic: string, actor: ActorId)
      requires Valid()
      modifies this
      ensures Valid()
      ensures actors == Put(old(actors), topic, Subscribers(old(actors), topic) + [actor])
    {
      actors := Put(actors, topic, Subscribers(actors, topic) + [actor]);
    }

    /**
     * The vector overload: one `push_back` per given actor, in order. With no
     * actors `operator[]` is never reached and the map is left as it is.
     */
    method SubscribeAll(topic: string, list: seq<ActorId>)
      requires Valid()
      modifies this
      ensures Valid()
      ensures actors == if list == [] then old(actors) else Put(old(actors), topic, Subscribers(old(actors), topic) + list)
    {
      var start := Subscribers(actors, topic);
      for i := 0 to |list|
        invariant Valid()
        invariant i == 0 ==> actors == old(actors)
        invariant i > 0 ==> actors == Put(old(actors), topic, start + list[..i])
      {
        assert start + list[..i + 1] == (start + list[..i]) + [list[i]];
        if i > 0 {
          AppendStep(old(actors), topic, start + list[..i], list[i]);
        } else {
          assert start + list[..i] == start;
        }
        actors := Put(actors, topic, Subscribers(actors, topic) + [list[i]]);
      }
      assert list[..|list|] == list;
    }

    /**
     * `m_actors[topic]` (which inserts an absent topic with no subscribers),
     * then erase the first entry equal to `actor`.
     */
    method Unsubscribe(topic: string, actor: ActorId)
      requires Valid()
      modifies this
      ensures Valid()
      ensures actors == Put(old(actors), topic, RemoveFirst(Subscribers(old(actors), topic), actor))
    {
      var vec := Subscribers(actors, topic);
      var i := 0;
      while i < |vec| && vec[i] != actor
        invariant 0 <= i <= |vec|
        invariant actor !in vec[..i]
      {
        assert vec[..i + 1] == vec[..i] + [vec[i]];
        i := i + 1;
      }
      if i < |vec| {
        RemoveFirstAt(vec, actor, i);
        vec := vec[..i] + vec[i + 1..];
      } else {
        assert vec[..i] == vec;
      }
      actors := Put(actors, topic, vec);
    }

    /**
     * One Send per entry of exactly this topic's list, in list order; an
     * unknown topic gets inserted with no subscribers and receives nothing.
     */
    method Publish(topic: string, message: M) returns (log: seq<Delivery<M>>)
      requires Valid()
      modifies this
      ensures Valid()
      ensures log == SendAll(Subscribers(old(actors), topic), message)
      ensures actors == Put(old(actors), topic, Subscribers(old(actors), topic))
    {
      var list := Subscribers(actors, topic);
      actors := Put(actors, topic, list);
      log := SendEach(list, message);
    }

    /** One Send per (topic, subscriber) pair, in topic order and then list order. */
    method Broadcast(message: M) returns (log: seq<Delivery<M>>)
      ensures log == BroadcastLog(actors, message)
      ensures |log| == TotalSubscriptions(actors)
    {
      log := [];
      for i := 0 to |actors|
        invariant log == BroadcastLog(actors[..i], message)
      {
        var sent := SendEach(actors[i].value, message);
        assert actors[..i + 1] == actors[..i] + [actors[i]];
        BroadcastLogAppend(actors[..i], [actors[i]], message);
        assert BroadcastLog([actors[i]], message) == sent + [];
        log := log + sent;
      }
      assert actors[..|actors|] == actors;
      BroadcastCount(actors, message);
    }

    /**
     * Translate the topic pattern into a regular expression, then send to the
     * subscribers of every topic it matches in full, in topic order. An empty
     * pattern fails before the lock is taken and sends nothing.
     */
    method Multicast(topic: string, message: M) returns (r: Result<seq<Delivery<M>>, PatternError>)
      requires IsPattern(topic)
      ensures topic == [] ==> r == Err(OutOfRange)
      ensures topic != [] ==> r == Ok(MulticastLog(actors, PatternTerms(topic), message))
    {
      var pattern := TopicRegex(topic);
      if pattern.Err? {
        TranslateFailsIffEmpty(topic);
        return Err(pattern.error);
      }
      TranslateMeaning(topic);
      var terms := ParseRegex(pattern.value).value;
      var log := SendMatching(terms, message);
      return Ok(log);
    }

    /** The loop of `Multicast`: send to every subscriber of every topic the regex matches, in topic order. */
    method SendMatching(terms: seq<Term>, message: M) returns (log: seq<Delivery<M>>)
      ensures log == MulticastLog(actors, terms, message)
    {
      log := [];
      for i := 0 to |actors|
        invariant log == MulticastLog(actors[..i], terms, message)
      {
        assert actors[..i + 1] == actors[..i] + [actors[i]];
        MulticastLogAppend(actors[..i], [actors[i]], terms, message);
        if Matches(terms, actors[i].key) {
          var sent := SendEach(actors[i].value, message);
          assert MulticastLog([actors[i]], terms, message) == sent + [];
          log := log + sent;
        } else {
          assert MulticastLog([actors[i]], terms, message) == [];
        }
      }
      assert actors[..|actors|] == actors;
    }

    /** The topics, in `std::map` order: strictly increasing, one per entry. */
    method GetTopics() returns (topics: seq<string>)
      requires Valid()
      ensures topics == Keys(actors)
      ensures forall i, j :: 0 <= i < j < |topics| ==> StringOrder.Less(topics[i], topics[j])
    {
      topics := [];
      for i := 0 to |actors|
        invariant topics == Keys(actors[..i])
      {
        assert Keys(actors[..i + 1]) == Keys(actors[..i]) + [actors[i].key];
        topics := topics + [actors[i].key];
      }
      assert actors[..|actors|] == actors;
    }

    /** A copy of `m_actors[topic]`; an unknown topic gets inserted with no subscribers. */
    method GetSubscribers(topic: string) returns (subs: seq<ActorId>)
      requires Valid()
      modifies this
      ensures Valid()
      ensures subs == Subscribers(old(actors), topic)
      ensures actors == Put(old(actors), topic, subs)
    {
      subs := Subscribers(actors, topic);
      actors := Put(actors, topic, subs);
    }
  }
}
