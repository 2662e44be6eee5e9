# cpp-concurrent-library, modelled in Dafny

This project models the sequential logic of a small C++ concurrency library:
- a topic broker (`PubSub`) whose `Multicast` selects topics with `+`/`#` patterns;
- an address registry (`ActorSystem`);
- two kinds of actor: one with its own mailbox and worker thread, and one that runs on a thread pool;
- a fixed-size `ThreadPool` with a poison-pill shutdown;
- a FIFO `BlockingQueue`;
- a type-erased value `any`;
- a time-based `Scheduler` over a priority queue;
- a `CountdownLatch`;
- a `Continuation` that composes functions.

Each critical section that runs under a lock is one atomic step of the model. A blocking wait becomes a precondition: `Pop` needs a non-empty queue, and a worker step needs its wake-up condition. A worker thread's loop becomes a `WorkerStep` method. `join` becomes a loop of worker steps that ends when the worker returns.

Some modelling choices:
- **Actor references.** `shared_ptr<Actor>` values are compared by identity, so they are opaque numbers (`Handles.ActorId`).
- **Sends.** A call `actor->Send(message)` made by a routing layer is recorded as a `Delivery` in a returned log.
- **Futures.** A future returned by `Send` is a fresh `Future` object. The task it belongs to is "run" when it reaches the `handled` or `ran` log of its actor or pool.
- **`std::map<std::string, V>`.** This is a sequence of entries with strictly increasing keys (`OrderedMap`). Iteration order, as used by `Broadcast`, `Multicast` and `GetTopics`, is therefore lexicographic order on character codes (`StringOrder.Less`). `m[key]` is `Put(m, key, GetOr(m, key, default))`.

| module (file) | models |
|---|---|
| `Wrappers` (wrappers.dfy) | `Option`, `Result` |
| `Handles` (handles.dfy) | actor ids, futures, tasks, delivery logs, the loop `for (actor : actors) actor->Send(m)` |
| `StringOrder` (string_order.dfy) | `std::string::operator<` |
| `OrderedMap` (ordered_map.dfy) | `std::map` find, `operator[]` assignment and erase |
| `TopicPattern` (topic_pattern.dfy) | `PubSub::replace`, the pattern translation and full-match semantics of `Multicast` |
| `Broker` (broker.dfy) | `PubSub` |
| `Queues` (blocking_queue.dfy) | `BlockingQueue` |
| `ThreadPools` (thread_pool.dfy) | `ThreadPool` |
| `Actors` (actor.dfy) | the mailbox `Actor` of `actor.h` |
| `PooledActors` (pooled_actor.dfy) | the pool-backed `Actor` of `actor_boost.h` |
| `Registry` (registry.dfy) | `ActorSystem` of both actor headers |
| `Anys` (any.dfy) | `ccl::any`, `any_cast`, `bad_any_cast` |
| `Scheduling` (scheduler.dfy) | `Scheduler`, `ScheduledTask`, `ScheduledTaskComparator`, time conversions |
| `Latches` (latch.dfy) | `CountdownLatch` |
| `Continuations` (continuation.dfy) | `Continuation` |

Notes on what the code does:
- **`+` in a `Multicast` pattern.** `replace(pattern, "+", "\\w+")` (ccl/src/ccl/pubsub.h:66) makes `+` match one or more word characters `[A-Za-z0-9_]`, so it also stops at characters such as `-` or `.`.
- **`#`.** Only a final `#` becomes `.+`, and it matches at least one character other than `'\n'` and `'\r'`, the only characters that `.` of the `char`-based `std::regex` (ccl/src/ccl/pubsub.h:71) refuses. A `#` anywhere else is a literal.
- **The empty pattern.** It makes `pattern.at(-1)` throw `std::out_of_range`. This is the `Err(OutOfRange)` result of `Multicast`.
- **A pool with zero threads.** `ThreadPool(0)` never runs a dispatched task. Its destructor pushes no poison, joins nobody, and leaves the queue as it was, unless `shutdownNow` is set, in which case it clears it (ccl/src/ccl/thread_pool.h:49-51).
- **`BlockingQueue::Clear`.** ccl/src/ccl/blocking_queue.h does not define it, but the thread-pool destructor calls it. It is modelled as emptying the queue, which is what the library's queue test expects.
- **The two `ActorSystem` classes.** The one in `actor.h` and the one in `actor_boost.h` are the same code over different `Actor` types. One class models both.

## Model

| member | source | states |
|---|---|---|
| Handles.SendAll | ccl/src/ccl/pubsub.h:50-52 | one Send per list entry, to that entry, in list order, with the same message |
| Handles.Recipients | ccl/src/ccl/actor.h:135-140 | the recipients of a delivery log, entry by entry |
| Handles.SendAllAppend | ccl/src/ccl/pubsub.h:57-61 | sending to a concatenation sends to the first list, then the second |
| Handles.SendEach | ccl/src/ccl/pubsub.h:50-52 | the Send loop produces exactly `SendAll` |
| OrderedMap.Keys | ccl/src/ccl/pubsub.h:84-91 | the keys in iteration order, one per entry |
| OrderedMap.Values | ccl/src/ccl/actor.h:137-139 | the values in iteration order, one per entry |
| OrderedMap.Find | ccl/src/ccl/actor.h:128 | `find` fails exactly when no entry has the key; when it succeeds, an entry with that key holds the value |
| OrderedMap.FindAt | ccl/src/ccl/pubsub.h:57 | in a sorted map, iterating over the entries visits exactly what `find` returns for each key |
| OrderedMap.Put | ccl/src/ccl/actor.h:116-119 | `m[key] = v`: the map stays sorted, `key` then holds `v`, every other key holds what it held, and the size grows by one exactly when `key` was new |
| OrderedMap.Erase | ccl/src/ccl/actor.h:121-124 | `erase(key)`: the map stays sorted, `key` is gone, other keys are unchanged, and the count is 1 exactly when the key was present |
| OrderedMap.FindTail | ccl/src/ccl/pubsub.h:57 | the entries after the first hold every key except the first one |
| OrderedMap.Extensionality | ccl/src/ccl/pubsub.h:16 | two sorted maps that answer every `find` alike are equal |
| OrderedMap.PutPut | ccl/src/ccl/actor.h:116-119 | a second `m[key] = v` overwrites the first |
| OrderedMap.PutFound | ccl/src/ccl/pubsub.h:39 | `operator[]` on a present key changes nothing |
| StringOrder.Less | ccl/src/ccl/pubsub.h:16 | `a < b` on the map's `std::string` keys, compared character by character; its meaning is stated by `StringOrder.LessIsLexLess` and the order lemmas below |
| StringOrder.LessIsLexLess | ccl/src/ccl/pubsub.h:16 | the comparison used for keys is lexicographic order (a proper prefix comes first, otherwise the first differing character decides) |
| StringOrder.LessIrreflexive | ccl/src/ccl/pubsub.h:16 | no key is less than itself |
| StringOrder.LessTransitive | ccl/src/ccl/pubsub.h:16 | the key order is transitive |
| StringOrder.LessTotal | ccl/src/ccl/pubsub.h:16 | any two distinct keys are ordered one way |
| StringOrder.LessAsymmetric | ccl/src/ccl/pubsub.h:16 | two keys are never less than each other both ways |
| TopicPattern.FindFrom | ccl/src/ccl/pubsub.h:101 | `str.find(oldstr, pos)` returns the first occurrence at or after `pos`, or none exists |
| TopicPattern.Replace | ccl/src/ccl/pubsub.h:99-105 | the `replace` loop computes `Replaced` (every occurrence replaced, left to right), with length `len + count·(|new| − |old|)` |
| TopicPattern.ReplacedLength | ccl/src/ccl/pubsub.h:99-105 | the output length is `len + count·(|new| − |old|)` |
| TopicPattern.ReplacedSkips | ccl/src/ccl/pubsub.h:101-102 | text between occurrences is copied unchanged |
| TopicPattern.ReplacedAtOccurrence | ccl/src/ccl/pubsub.h:102-103 | at an occurrence the output continues with the replacement, then resumes after the replaced text |
| TopicPattern.ReplaceDoesNotRescan | ccl/src/ccl/pubsub.h:103 | inserted text is not scanned again: replacing `+` by `\w+` in `+` gives `\w+` |
| TopicPattern.TopicRegex | ccl/src/ccl/pubsub.h:65-70 | the pattern built by `Multicast` is `Translate(topic)`: `+` to `\w+`, a final `#` to `.+`, and an error on the empty topic |
| TopicPattern.ParseAtom | ccl/src/ccl/pubsub.h:71 | an atom of the regex fragment takes 1 or 2 characters |
| TopicPattern.TermsOf | ccl/src/ccl/pubsub.h:66 | a pattern without a final `#` stands for one term per character: `+` for `\w+`, any other character for itself |
| TopicPattern.Translate | ccl/src/ccl/pubsub.h:65-70 | the regex string `Multicast` builds: `Err(OutOfRange)` for the empty pattern, otherwise every `+` replaced by `\w+` and a final `#` by `.+`; stated by `TopicPattern.TopicRegex`, `TranslateFailsIffEmpty` and `TranslateMeaning` |
| TopicPattern.Matches | ccl/src/ccl/pubsub.h:76 | `std::regex_match`: the terms match the whole topic, a `+` term taking one or more characters, with backtracking; its meaning is stated by `PlusMeaning`, `LiteralsMatchExactly`, `DotPlusMeaning` and `WordPlusThenLiteral` |
| TopicPattern.TranslateMeaning | ccl/src/ccl/pubsub.h:65-71 | for a non-empty pattern the generated regex is well formed, and it parses to the per-character terms of the pattern, with a final `#` as `.+` |
| TopicPattern.TranslateFailsIffEmpty | ccl/src/ccl/pubsub.h:67-68 | the translation fails exactly on the empty pattern |
| TopicPattern.ParseExpanded | ccl/src/ccl/pubsub.h:66 | after `+` is expanded, the regex parses back to the per-character terms |
| TopicPattern.PlusMeaning | ccl/src/ccl/pubsub.h:76 | an atom with `+` matches exactly one or more characters it accepts, followed by a match of the rest |
| TopicPattern.LiteralsMatchExactly | ccl/src/ccl/pubsub.h:76 | literal characters match exactly themselves, in order |
| TopicPattern.LiteralPatternMatchesItself | ccl/src/ccl/pubsub.h:64-80 | a pattern with no `+` and no final `#` selects exactly the topic equal to it |
| TopicPattern.DotPlusMeaning | ccl/src/ccl/pubsub.h:68-69 | `.+` matches exactly a non-empty run of characters other than `'\n'` and `'\r'` |
| TopicPattern.ForwardPatternMeaning | ccl/src/ccl/pubsub.h:64-80 | `prefix#` selects exactly the topics that extend `prefix` by one or more characters other than `'\n'` and `'\r'` |
| TopicPattern.WordPlusThenLiteral | ccl/src/ccl/pubsub.h:66 | `\w+` followed by literal text matches one or more word characters followed by that text |
| TopicPattern.SegmentPatternMeaning | ccl/src/ccl/pubsub.h:64-80 | `a+b`, with no other `+`, selects exactly the topics made of `a`, one or more word characters, then `b` |
| TopicPattern.ForwardMatchExample | ccl/test/pubsub_test.cpp:113-150 | `/a/actor/#` matches `/a/actor/` followed by any single character other than `'\n'` and `'\r'`, e.g. `/a/actor/1` |
| TopicPattern.ForwardMismatchExample | ccl/test/pubsub_test.cpp:113-150 | `/a/actor/#` does not match `/b/actor/2` |
| TopicPattern.PartialMatchExample | ccl/test/pubsub_test.cpp:152-189 | `/+/actor/2` matches `/c/actor/2` for every word character `c` |
| TopicPattern.PartialMismatchExample | ccl/test/pubsub_test.cpp:152-189 | `/+/actor/2` does not match `/a/actor/1` |
| Broker.RemoveFirst | ccl/src/ccl/pubsub.h:40-45 | removing an absent actor changes nothing; otherwise exactly one occurrence goes |
| Broker.RemoveFirstAt | ccl/src/ccl/pubsub.h:40-45 | exactly the first occurrence is removed, and the rest keep their order |
| Broker.RemoveFirstAppended | ccl/test/pubsub_test.cpp:28-45 | unsubscribing the actor just subscribed restores the list |
| Broker.BroadcastLogAppend | ccl/src/ccl/pubsub.h:55-62 | broadcasting over consecutive parts of the map concatenates their logs |
| Broker.MulticastLogAppend | ccl/src/ccl/pubsub.h:75-80 | multicasting over consecutive parts of the map concatenates their logs |
| Broker.BroadcastCount | ccl/src/ccl/pubsub.h:55-62 | Broadcast makes one Send per (topic, subscriber) entry, as many as all list lengths together |
| Broker.MulticastEverywhere | ccl/src/ccl/pubsub.h:75-80 | a pattern that matches every topic multicasts exactly what Broadcast sends |
| Broker.MulticastRecipients | ccl/src/ccl/pubsub.h:75-80 | a delivery is in the Multicast log exactly when it carries the message to a subscriber of some matching topic |
| Broker.MulticastNowhere | ccl/src/ccl/pubsub.h:75-80 | topics that do not match receive nothing |
| Broker.MulticastSingleTopic | ccl/src/ccl/pubsub.h:75-80 | a pattern matching exactly one topic sends to that topic's list, in order |
| Broker.LiteralMulticastIsPublish | ccl/src/ccl/pubsub.h:48-53 | Multicast of a pattern with no `+` and no final `#` sends exactly what Publish on that topic sends |
| Broker.SubscribeUnsubscribe | ccl/test/pubsub_test.cpp:28-45 | Subscribe followed by Unsubscribe of a new actor leaves the map that the `operator[]` touch alone would leave |
| Broker.TouchKnownTopic | ccl/src/ccl/pubsub.h:39 | `m_actors[topic]` on a present topic changes nothing |
| Broker.TouchUnknownTopic | ccl/src/ccl/pubsub.h:50 | `m_actors[topic]` on an unknown topic inserts it with no subscribers, so GetTopics lists it from then on |
| Broker.AppendStep | ccl/src/ccl/pubsub.h:32-34 | one more `push_back` on a just-stored list is the same as storing the longer list |
| Broker.PubSub.constructor | ccl/src/ccl/pubsub.h:20 | an empty map |
| Broker.PubSub.Subscribe | ccl/src/ccl/pubsub.h:25-28 | the actor is appended to the back of that topic's list, duplicates kept; other topics unchanged |
| Broker.PubSub.SubscribeAll | ccl/src/ccl/pubsub.h:30-35 | every listed actor is appended in order; an empty list leaves the map (even an unknown topic) as it was |
| Broker.PubSub.Unsubscribe | ccl/src/ccl/pubsub.h:37-46 | the first entry equal to the actor is removed; an unknown topic is inserted with an empty list |
| Broker.PubSub.Publish | ccl/src/ccl/pubsub.h:48-53 | one Send per entry of that topic's list, in order; an unknown topic gets no Send and is inserted |
| Broker.PubSub.Broadcast | ccl/src/ccl/pubsub.h:55-62 | one Send per (topic, entry), topics in map order; the map is unchanged |
| Broker.PubSub.Multicast | ccl/src/ccl/pubsub.h:64-82 | an error on the empty pattern; otherwise the Sends to every subscriber of every fully matching topic, in map order; the map is unchanged |
| Broker.PubSub.SendMatching | ccl/src/ccl/pubsub.h:75-80 | the loop over the map makes exactly the Multicast log |
| Broker.PubSub.GetTopics | ccl/src/ccl/pubsub.h:84-91 | the topics in map order, strictly increasing |
| Broker.PubSub.GetSubscribers | ccl/src/ccl/pubsub.h:93-96 | a copy of the topic's list; an unknown topic is inserted with an empty list |
| Queues.BlockingQueue.constructor | ccl/src/ccl/blocking_queue.h:26 | an empty queue |
| Queues.BlockingQueue.Push | ccl/src/ccl/blocking_queue.h:31-38 | the element is appended at the back; nothing else changes |
| Queues.BlockingQueue.Emplace | ccl/src/ccl/blocking_queue.h:40-47 | the element is appended at the back; nothing else changes |
| Queues.BlockingQueue.Pop | ccl/src/ccl/blocking_queue.h:49-58 | on a non-empty queue, removes and returns the front element |
| Queues.BlockingQueue.PopInto | ccl/src/ccl/blocking_queue.h:60-68 | the same resulting queue as `Pop()`, with the front element written into the argument |
| Queues.BlockingQueue.Size | ccl/src/ccl/blocking_queue.h:70-74 | the element count |
| Queues.BlockingQueue.Empty | ccl/src/ccl/blocking_queue.h:76-80 | true exactly when the size is 0 |
| Queues.BlockingQueue.Clear | ccl/src/ccl/thread_pool.h:50 | the queue becomes empty |
| Queues.PushThenPop | ccl/test/blocking_queue_test.cpp:70-87 | a push followed by a pop on an empty queue returns the pushed value |
| Queues.FirstInFirstOut | ccl/src/ccl/blocking_queue.h:49-58 | two pushes are popped in the order they were pushed |
| ThreadPools.Jobs | ccl/src/ccl/thread_pool.h:38-41 | the jobs a queue holds, in order, poisons skipped |
| ThreadPools.Stops | ccl/src/ccl/thread_pool.h:52-54 | `n` poisons |
| ThreadPools.JobsAppend | ccl/src/ccl/thread_pool.h:28 | the jobs of a concatenation are the jobs of its parts, in order |
| ThreadPools.JobsOfStops | ccl/src/ccl/thread_pool.h:38-40 | poisons carry no job |
| ThreadPools.ThreadPool.constructor | ccl/src/ccl/thread_pool.h:31-46 | `nThreads` live workers over an empty queue |
| ThreadPools.ThreadPool.Dispatch | ccl/src/ccl/thread_pool.h:60-64 | a task that is the poison (the empty function) is dropped; any other task is appended |
| ThreadPools.ThreadPool.SetShutdownNow | ccl/src/ccl/thread_pool.h:20-22 | only the flag changes |
| ThreadPools.ThreadPool.WorkerStep | ccl/src/ccl/thread_pool.h:34-43 | pops the front; on a poison the worker exits without running anything, otherwise the task is started; every dispatched job stays started, queued or dropped, in dispatch order |
| ThreadPools.ThreadPool.Destroy | ccl/src/ccl/thread_pool.h:48-58 | after shutdown every worker has exited; graceful, when the pool has at least one thread: every queued task was dequeued and started exactly once, in dispatch order, and the queue is empty; graceful with no thread: the queue is left as it was and nothing starts; `shutdownNow`: the queued tasks are dropped unrun |
| ThreadPools.ThreadPool.PushStops | ccl/src/ccl/thread_pool.h:52-54 | exactly one poison per worker, after what is queued |
| ThreadPools.ThreadPool.JoinAll | ccl/src/ccl/thread_pool.h:55-57 | when the pool has at least one thread, joining every worker in turn starts the pending tasks, in dispatch order, consumes one poison per worker and empties the queue; with none, the queue is left as it was and nothing starts |
| ThreadPools.ThreadPool.Join | ccl/src/ccl/thread_pool.h:56 | the joined worker dequeues and starts the tasks ahead of the poisons, in dispatch order, then consumes exactly one poison |
| ThreadPools.GracefulShutdown | ccl/test/thread_pool_test.cpp:12-37 | every dispatched job is dequeued and started exactly once, in dispatch order, when the pool has a thread |
| ThreadPools.ImmediateShutdown | ccl/test/thread_pool_test.cpp:39-59 | with `SetShutdownNow(true)`, jobs still queued at shutdown never run |
| ThreadPools.DispatchAll | ccl/src/ccl/thread_pool.h:60-64 | dispatching jobs one by one queues exactly those jobs, in order |
| Actors.Actor.constructor | ccl/src/ccl/actor.h:39-59 | an empty mailbox, flags clear, the worker waiting |
| Actors.Actor.Send | ccl/src/ccl/actor.h:78-90 | exactly one task is appended at the back of the mailbox, and its fresh future is returned |
| Actors.Actor.SetShutdownNow | ccl/src/ccl/actor.h:25-27 | only the flag changes |
| Actors.Actor.WorkerStep | ccl/src/ccl/actor.h:42-56 | the worker returns exactly when stopped with an empty mailbox; otherwise it runs the front task; handled, dropped and queued tasks stay the sent ones, in order |
| Actors.Actor.Destroy | ccl/src/ccl/actor.h:61-76 | graceful: every queued task is handled, in order, before the join ends; `shutdownNow`: the mailbox is emptied and those tasks are never handled; `shutdownNow` itself is unchanged |
| Actors.GracefulShutdown | ccl/test/actor_test.cpp:14-32 | every message sent is handled, in send order |
| Actors.ImmediateShutdown | ccl/test/actor_test.cpp:34-55 | with `shutdownNow`, messages still in the mailbox are never handled |
| PooledActors.PooledActor.constructor | ccl/src/ccl/actor_boost.h:17-18 | a private, fresh pool of exactly one thread |
| PooledActors.PooledActor.Shared | ccl/src/ccl/actor_boost.h:19-20 | the given, possibly shared pool |
| PooledActors.PooledActor.Send | ccl/src/ccl/actor_boost.h:35-41 | exactly one task for the message is dispatched to the pool and its fresh future returned |
| PooledActors.PooledActor.SetShutdownNow | ccl/src/ccl/actor_boost.h:26-28 | only the pool's flag changes |
| PooledActors.SharedPool | ccl/src/ccl/actor_boost.h:19-20 | two actors sharing one two-thread pool get their messages dequeued and started by it, in send order |
| PooledActors.GracefulShutdown | ccl/src/ccl/actor_boost.h:35-41 | every message sent to a privately pooled actor runs, in send order, when the pool shuts down gracefully |
| Registry.Route | ccl/src/ccl/actor.h:126-133 | one Send to the registered actor, or none (an empty future) exactly when nothing is registered at the address |
| Registry.BroadcastRecipients | ccl/src/ccl/actor.h:135-140 | a delivery is in the broadcast log exactly when it carries the message to an actor registered at some address |
| Registry.Registrations | ccl/src/ccl/actor.h:102 | the number of addresses an actor is registered under |
| Registry.BroadcastCount | ccl/src/ccl/actor.h:135-140 | Broadcast sends to an actor once per address it is registered under |
| Registry.BroadcastTwice | ccl/src/ccl/actor_boost.h:86-91 | an actor registered under two addresses receives a broadcast at least twice |
| Registry.RegisterThenRoute | ccl/src/ccl/actor.h:116-119 | after Register, a Send to that address reaches the new actor, whatever was there before |
| Registry.UnregisterThenRoute | ccl/src/ccl/actor.h:121-124 | after Unregister, a Send to that address reaches nobody, and other addresses are unaffected |
| Registry.UnregisterTwice | ccl/src/ccl/actor_boost.h:72-75 | a second Unregister of the same address returns false and changes nothing |
| Registry.ActorSystem.constructor | ccl/src/ccl/actor.h:105 | an empty registry |
| Registry.ActorSystem.Register | ccl/src/ccl/actor_boost.h:67-70 | `m_actors[address] = actor`, overwriting an earlier registration |
| Registry.ActorSystem.Unregister | ccl/src/ccl/actor_boost.h:72-75 | the entry is erased; true exactly when it existed |
| Registry.ActorSystem.Send | ccl/src/ccl/actor_boost.h:77-84 | `Route`: at most one Send; the registry is unchanged, so a missing address is not inserted |
| Registry.ActorSystem.Broadcast | ccl/src/ccl/actor_boost.h:86-91 | one Send per registered address, in address order |
| Registry.SendUnregisterBroadcast | ccl/test/actor_test.cpp:92-119 | two sends, an Unregister, then a broadcast make three Sends in all |
| Anys.TypeOfContent | ccl/src/ccl/any.h:77-79 | `type()` is `void` exactly when empty, otherwise the held type |
| Anys.CastPtr | ccl/src/ccl/any.h:131-139 | the pointer form gives the held value exactly when the operand is non-null and holds that type; otherwise null |
| Anys.CastRef | ccl/src/ccl/any.h:141-154 | the reference form gives the value exactly when the type matches; otherwise `bad_any_cast` |
| Anys.CastRoundTrip | ccl/src/ccl/any.h:23 | a value cast to its own type comes back unchanged, in both forms |
| Anys.CastMismatch | ccl/src/ccl/any.h:133 | a cast of an empty `any` or to another type gives null, or throws `bad_any_cast` |
| Anys.Any.constructor | ccl/src/ccl/any.h:20 | empty |
| Anys.Any.FromValue | ccl/src/ccl/any.h:22-37 | holds the value under its type |
| Anys.Any.Copy | ccl/src/ccl/any.h:25 | same type and value as the source |
| Anys.Any.Move | ccl/src/ccl/any.h:28-30 | takes the source's content and leaves the source empty |
| Anys.Any.Swap | ccl/src/ccl/any.h:44-47 | the two contents are exchanged |
| Anys.Any.CopyAssign | ccl/src/ccl/any.h:49-52 | takes a copy of the source's content; the source is unchanged |
| Anys.Any.MoveAssign | ccl/src/ccl/any.h:55-59 | takes the source's content and leaves the source empty (a self-move empties the object) |
| Anys.Any.AssignValue | ccl/src/ccl/any.h:62-66 | content and type are both replaced by the new value's |
| Anys.Any.IsEmpty | ccl/src/ccl/any.h:69-71 | true exactly when `type()` is `void` |
| Anys.Any.Clear | ccl/src/ccl/any.h:73-75 | becomes empty |
| Anys.Any.Type | ccl/src/ccl/any.h:77-79 | the held type, `void` exactly when empty |
| Anys.CopyIsIndependent | ccl/src/ccl/any.h:102-104 | assigning to a copy leaves the original's value in place |
| Anys.MovedFromIsEmpty | ccl/src/ccl/any.h:28-30 | after a move the target holds the value, and the source is empty and fails to cast |
| Scheduling.Comparator | ccl/src/ccl/scheduler.h:22-26 | `ScheduledTaskComparator`: `a` ranks below `b` in the `std::priority_queue` exactly when `a` runs later, so the top is the earliest entry (`Scheduling.TopIsEarliest`) |
| Scheduling.TopIsEarliest | ccl/src/ccl/scheduler.h:22-26 | an entry that no entry outranks under the comparator has the least execution time (the comparator orders by `executionTime` with `>`) |
| Scheduling.TopExists | ccl/src/ccl/scheduler.h:51 | a non-empty queue has a top |
| Scheduling.Fire | ccl/src/ccl/scheduler.h:54-58 | a fired one-shot entry leaves the queue, so the size drops by one; a periodic one returns `period` later, so the size stays |
| Scheduling.Scheduler.constructor | ccl/src/ccl/scheduler.h:37-69 | an empty queue and a waiting worker |
| Scheduling.Scheduler.Schedule | ccl/src/ccl/scheduler.h:97-103 | inserts exactly one entry, with period 0 |
| Scheduling.Scheduler.SchedulePeriodic | ccl/src/ccl/scheduler.h:105-111 | inserts exactly one entry, with the given period |
| Scheduling.Scheduler.WorkerStep | ccl/src/ccl/scheduler.h:40-66 | the worker returns exactly when stopped with an empty queue; otherwise it inspects a top entry, and either fires it (popped, rescheduled if periodic, run) or, if it is not due, waits and leaves the queue unchanged |
| Scheduling.Scheduler.Destroy | ccl/src/ccl/scheduler.h:71-82 | the queue is emptied and the worker returns; entries that had not fired never run |
| Scheduling.OneShot | ccl/test/scheduler_test.cpp:10-34 | a one-shot task fires once it is due and then leaves the queue; before that the worker waits |
| Scheduling.Periodic | ccl/test/scheduler_test.cpp:36-53 | a periodic task that fires is re-queued one period later |
| Scheduling.EarlierFirst | ccl/src/ccl/scheduler.h:22-26 | of two due tasks, the earlier runs first, whatever the scheduling order |
| Scheduling.TruncDiv | ccl/src/ccl/scheduler.h:89 | division rounding toward zero, as `duration_cast` does |
| Scheduling.ToUnixTime | ccl/src/ccl/scheduler.h:87-90 | the milliseconds of a time point, within `int64_t` whenever the tick count is |
| Scheduling.ToTimePoint | ccl/src/ccl/scheduler.h:92-95 | the time point `unixTime` milliseconds after the epoch |
| Scheduling.UnixTimeRoundTrip | ccl/src/ccl/scheduler.h:87-95 | `ToUnixTime(ToTimePoint(ms)) == ms` |
| Scheduling.UnixTimeTruncatesTowardZero | ccl/src/ccl/scheduler.h:89 | before the epoch, a fraction of a millisecond rounds toward zero, not down |
| Latches.CountdownLatch.constructor | ccl/src/ccl/countdown_latch.h:15 | the given count |
| Latches.CountdownLatch.Default | ccl/src/ccl/countdown_latch.h:15 | the default count is 1 |
| Latches.CountdownLatch.CountDown | ccl/src/ccl/countdown_latch.h:38-47 | decrements by exactly one when positive; at 0 nothing happens, so there is no underflow |
| Latches.CountdownLatch.GetCount | ccl/src/ccl/countdown_latch.h:49-52 | the current count |
| Latches.CountdownLatch.Await | ccl/src/ccl/countdown_latch.h:31-36 | completes only when the count is 0, and changes nothing |
| Latches.CountdownLatch.AwaitFor | ccl/src/ccl/countdown_latch.h:21-29 | `Await(timeout)` returns nothing; the result records which exit its wait loop takes: with nobody counting down, the loop ends on the timeout exactly when the count is not 0; the count is never changed |
| Latches.CountDownTimes | ccl/src/ccl/countdown_latch.h:38-47 | `k` CountDowns on a latch of `n` leave `max(n − k, 0)` |
| Latches.AwaitAfterCountDowns | ccl/test/countdown_latch_test.cpp:10-27 | after n CountDowns, a latch of n lets Await through and GetCount is 0 |
| Latches.AwaitTimesOut | ccl/test/countdown_latch_test.cpp:29-41 | a default latch that nobody counts down times out and still has count 1 |
| Continuations.Make | src/ccl/continuation.h:14-16 | a continuation holding `k` (`Continuations.RunMake`) |
| Continuations.Run | src/ccl/continuation.h:24-26 | applies the held function to `a` |
| Continuations.Then | src/ccl/continuation.h:28-31 | a new continuation that runs this one, then `k` on its result (`Continuations.RunThen`, `ThenAssociative`) |
| Continuations.RunMake | src/ccl/continuation.h:14-26 | `Make(f)->Run(a) == f(a)` |
| Continuations.RunThen | src/ccl/continuation.h:28-31 | `c->Then(k)->Run(a) == k(c->Run(a))` |
| Continuations.ThenAssociative | src/ccl/continuation.h:28-31 | chaining two steps runs like one step composed of both |
| Continuations.RunThenAll | src/ccl/continuation.h:28-31 | a chain of `Then`s runs the first continuation, then each step in the order added |
| Continuations.ThreeIncrements | test/continuation_test.cpp:8-29 | three chained `+1` steps run on 1 give 4 |

## Left out

- Threads, mutexes, condition variables, `notify_one`, `join` and `detach` are not modelled. Each critical section is one atomic step. A blocking wait is a precondition, or a loop of worker steps in the caller. Interleavings between threads are not modelled.
- Handlers, handler results and the futures' shared state are not modelled. A future is an opaque fresh object, and "the task ran" means it is in the run log.
- Exceptions thrown by handlers or tasks are not modelled.
- Regular expressions are covered only for the fragment that the translation of `+`/`#` patterns produces over the alphabet `[A-Za-z0-9_/+#]`. `Broker.PubSub.Multicast` therefore requires `IsPattern(topic)`. Topics with other regex metacharacters take `std::regex` semantics, which are not modelled.
- A `std::string` topic is modelled as a sequence of Dafny characters, while `std::regex` works on its UTF-8 bytes. For the patterns the model covers this makes no difference: each byte of a multi-byte character matches `.` and matches neither `\w` nor an ASCII literal, and `.` refuses exactly `'\n'` and `'\r'`.
- `TopicPattern.Replace` requires a non-empty `oldstr`. The only call passes `"+"`. An empty `oldstr` would make the source loop forever.
- The worker loops are not `while (true)` methods. Each iteration is one `WorkerStep` call, and `join` is a loop of such calls that ends when the worker returns.
- `Actors.Actor.Send` and `ThreadPools.ThreadPool.Dispatch` require the object not to be in its destructor. The flag `m_stopped` is only set there, and using a destroyed object is undefined in the source.
- `Latches.CountdownLatch.Await` is stated only as "requires count == 0". With no second thread in the model, the wait for another thread's CountDown is not represented.
- `Latches.CountdownLatch.AwaitFor` does not model the timeout duration, or a spurious or late wake-up. It reports the outcome with nobody counting down meanwhile.
- `Scheduling.Scheduler.WorkerStep` does not model `int64_t` overflow of `executionTime + period`. Times are unbounded integers, and signed overflow is undefined in the source.
- `Scheduling.ToTimePoint` does not model overflow of the tick count. The clock's tick length is the parameter `ticksPerMs`. `system_clock::now()` is the parameter `now`.
- `Scheduling.Scheduler.Destroy` does not model a task running at the moment of destruction. Its single worker step stands for the worker being joined after the clear.
- `ThreadPools.ThreadPool.Destroy`, `ThreadPools.ThreadPool.Join`, `ThreadPools.ThreadPool.JoinAll`, `ThreadPools.GracefulShutdown` and `PooledActors.SharedPool` state the order in which tasks are dequeued and started. A worker calls `task()` outside the queue's lock, so with more than one thread a later task can finish before an earlier one. Completion order on multi-thread pools is not modelled.
- The order among scheduler entries with equal execution times is not modelled. `std::priority_queue` does not fix it, and the model allows any such entry at the top.
- `Anys`: the value types are all drawn from one type parameter, tagged with the type's name. `typeid` identity is name equality. The `static_assert` of the rvalue `any_cast` and the `std::decay` of the forwarding constructor are not modelled.
- `ActorSystem::GetInstance` is not modelled. The singleton is the one object the constructor makes.
- The copy and move counting of values moved through queues is not modelled.
- `src/ccl/channel.h` is not part of this model.
- The timed `Push`/`Pop` and the capacity of a later queue version are not part of this model. `Clear` is modelled because the thread-pool destructor calls it.
- Scheduler `Cancel` and `repeatCount` are not part of this model.
- `ActorSystem::Multicast` of the examples is not part of this model.
