/**
 Threads, the run queue and events (kernel/kernel/src/sched/sched.cpp, kernel/kernel/src/sched/event.cpp) as
 functions on the state of the kernel. Between two of these steps any other thread or interrupt may act.
 */
module Scheduling {

  import opened Lists

  datatype ThreadState = READY | RUNNING | BLOCKED | ZOMBIE

  // inWait: inside Event::wait, past the point where its listeners were added. listeners holds the ids of the
  // thread's listeners and bySignal the signal that last woke it.
  datatype Thread = Thread(state: ThreadState, inWait: bool, listeners: seq<nat>, which: nat, bySignal: Option<nat>,
                           pending: set<nat>, mask: set<nat>, signalEvent: nat)

  datatype Event = Event(pending: nat, numListeners: int, listeners: seq<nat>)

  datatype Listener = Listener(thread: nat, event: nat, which: nat)

  datatype Kernel = Kernel(threads: map<nat, Thread>, queue: seq<nat>, running: nat, idle: nat,
                           events: map<nat, Event>, listeners: map<nat, Listener>, nextListener: nat)

  predicate Runnable(s: ThreadState) {
    s == READY || s == RUNNING
  }

  function WithThread(k: Kernel, t: nat, x: Thread): Kernel {
    k.(threads := k.threads[t := x])
  }

  // ----- the run queue -----

  function Enqueue(k: Kernel, t: nat, signal: Option<nat>): Kernel
    requires t in k.threads
  {
    if k.threads[t].state != BLOCKED then k
    else WithThread(k, t, k.threads[t].(state := READY, bySignal := signal)).(queue := k.queue + [t])
  }

  function Dequeue(k: Kernel, t: nat): Kernel
    requires t in k.threads && Runnable(k.threads[t].state)
  {
    WithThread(k, t, k.threads[t].(state := BLOCKED)).(queue := Without(k.queue, t))
  }

  function Terminate(k: Kernel, t: nat): Kernel
    requires t in k.threads
  {
    var x := k.threads[t];
    if x.state == ZOMBIE then k
    else
      WithThread(k, t, x.(state := ZOMBIE)).(queue := if Runnable(x.state) then Without(k.queue, t) else k.queue)
  }

  // The position of a thread on the queue, or its length.
  function Place(queue: seq<nat>, t: nat): (p: nat)
    ensures p <= |queue|
    ensures p < |queue| ==> queue[p] == t
    ensures forall i :: 0 <= i < p ==> queue[i] != t
  {
    if queue == [] || queue[0] == t then 0 else 1 + Place(queue[1..], t)
  }

  lemma PlaceOf(queue: seq<nat>, i: nat)
    requires NoDuplicates(queue) && i < |queue|
    ensures Place(queue, queue[i]) == i
  {
  }

  // The thread behind the current one, or the first of the queue, or the idle thread.
  function Next(queue: seq<nat>, current: nat, idle: nat): nat {
    var p := Place(queue, current);
    if p + 1 < |queue| then queue[p + 1] else if queue != [] then queue[0] else idle
  }

  function Preempt(k: Kernel): Kernel
    requires k.running in k.threads
  {
    var x := k.threads[k.running];
    if x.state == RUNNING then WithThread(k, k.running, x.(state := READY)) else k
  }

  function Schedule(k: Kernel): Kernel
    requires k.running in k.threads && Next(k.queue, k.running, k.idle) in k.threads
  {
    var next := Next(k.queue, k.running, k.idle);
    var k1 := Preempt(k);
    WithThread(k1, next, k1.threads[next].(state := RUNNING)).(running := next)
  }

  // A thread on the queue exactly once if it can run and not at all otherwise; the idle thread never.
  ghost predicate QueueSound(k: Kernel) {
    && NoDuplicates(k.queue)
    && (forall t :: t in k.threads && t != k.idle ==> (t in k.queue <==> Runnable(k.threads[t].state)))
    && (forall t :: t in k.queue ==> t in k.threads && t != k.idle)
    && k.idle in k.threads && Runnable(k.threads[k.idle].state)
    && k.running in k.threads
    && (forall t :: t in k.threads && k.threads[t].state == RUNNING ==> t == k.running)
  }

  lemma EnqueueSound(k: Kernel, t: nat, signal: Option<nat>)
    requires QueueSound(k) && t in k.threads
    ensures QueueSound(Enqueue(k, t, signal))
  {
    if k.threads[t].state == BLOCKED {
      var q := k.queue + [t];
      assert forall x :: x in q <==> x in k.queue || x == t;
    }
  }

  lemma DequeueSound(k: Kernel, t: nat)
    requires QueueSound(k) && t in k.threads && t != k.idle && Runnable(k.threads[t].state)
    ensures QueueSound(Dequeue(k, t))
  {
    WithoutMembers(k.queue, t);
  }

  lemma TerminateSound(k: Kernel, t: nat)
    requires QueueSound(k) && t in k.threads && t != k.idle
    ensures QueueSound(Terminate(k, t))
  {
    WithoutMembers(k.queue, t);
  }

  /** The thread that the scheduler picks can run, so that its assertion never fails. */
  lemma NextIsRunnable(k: Kernel)
    requires QueueSound(k)
    ensures var next := Next(k.queue, k.running, k.idle); next in k.threads && Runnable(k.threads[next].state)
    ensures k.queue != [] ==> Next(k.queue, k.running, k.idle) in k.queue
  {
    var p := Place(k.queue, k.running);
    if p + 1 < |k.queue| {
      assert k.queue[p + 1] in k.queue;
    } else if k.queue != [] {
      assert k.queue[0] in k.queue;
    }
  }

  lemma PreemptSound(k: Kernel)
    requires QueueSound(k)
    ensures QueueSound(Preempt(k)) && forall t :: t in k.threads ==> Preempt(k).threads[t].state != RUNNING
  {
  }

  lemma PickSound(k: Kernel, next: nat)
    requires QueueSound(k) && next in k.threads && Runnable(k.threads[next].state)
    requires forall t :: t in k.threads ==> k.threads[t].state != RUNNING
    ensures QueueSound(WithThread(k, next, k.threads[next].(state := RUNNING)).(running := next))
  {
  }

  lemma ScheduleSound(k: Kernel)
    requires QueueSound(k)
    ensures k.running in k.threads && Next(k.queue, k.running, k.idle) in k.threads && QueueSound(Schedule(k))
    ensures Schedule(k).threads[Schedule(k).running].state == RUNNING && Schedule(k).queue == k.queue
  {
    hide QueueSound, Next;
    assert k.running in k.threads by {
      RunningExists(k);
    }
    NextIsRunnable(k);
    PreemptSound(k);
    PickSound(Preempt(k), Next(k.queue, k.running, k.idle));
  }

  lemma RunningExists(k: Kernel)
    requires QueueSound(k)
    ensures k.running in k.threads
  {
  }

  // ----- listeners -----

  // num_listeners counts the list of an event, whose members are its listeners, and nothing is pending while
  // somebody listens.
  ghost predicate EventSound(ev: Event, e: nat, listeners: map<nat, Listener>) {
    && NoDuplicates(ev.listeners) && ev.numListeners == |ev.listeners|
    && (ev.pending == 0 || ev.listeners == [])
    && (forall id :: id in ev.listeners ==> id in listeners && listeners[id].event == e)
  }

  // The listeners of a thread are its own; outside of a wait it has none and is not blocked.
  ghost predicate ThreadSound(x: Thread, t: nat, listeners: map<nat, Listener>) {
    && NoDuplicates(x.listeners)
    && (!x.inWait ==> x.listeners == [] && x.state != BLOCKED)
    && (forall id :: id in x.listeners ==> id in listeners && listeners[id].thread == t)
  }

  // A listener is linked into its event's list and held by its thread.
  ghost predicate ListenerSound(k: Kernel, l: Listener, id: nat) {
    && id < k.nextListener
    && l.event in k.events && id in k.events[l.event].listeners
    && l.thread in k.threads && id in k.threads[l.thread].listeners
  }

  ghost predicate EventsSound(k: Kernel) {
    forall e :: e in k.events ==> EventSound(k.events[e], e, k.listeners)
  }

  ghost predicate ThreadsSound(k: Kernel) {
    forall t :: t in k.threads ==> ThreadSound(k.threads[t], t, k.listeners) && k.threads[t].signalEvent in k.events
  }

  ghost predicate ListenersSound(k: Kernel) {
    forall id :: id in k.listeners ==> ListenerSound(k, k.listeners[id], id)
  }

  ghost predicate Sound(k: Kernel) {
    QueueSound(k) && EventsSound(k) && ThreadsSound(k) && ListenersSound(k)
  }

  // ----- trigger -----

  function Wake(k: Kernel, id: nat): Kernel
    requires id in k.listeners && k.listeners[id].thread in k.threads
  {
    var l := k.listeners[id];
    Enqueue(WithThread(k, l.thread, k.threads[l.thread].(which := l.which)), l.thread, None)
  }

  ghost predicate Listeners(k: Kernel, ids: seq<nat>) {
    forall id :: id in ids ==> id in k.listeners && k.listeners[id].thread in k.threads
  }

  ghost function WakeAll(k: Kernel, ids: seq<nat>): Kernel
    requires Listeners(k, ids)
    decreases ids
  {
    if ids == [] then k
    else
      assert ids[0] in ids;
      WakeAll(Wake(k, ids[0]), ids[1..])
  }

  ghost function Trigger(k: Kernel, e: nat, drop: bool): Kernel
    requires e in k.events && Listeners(k, k.events[e].listeners)
  {
    var ev := k.events[e];
    if ev.numListeners == 0 then
      (if drop then k else k.(events := k.events[e := ev.(pending := ev.pending + 1)]))
    else WakeAll(k, ev.listeners)
  }

  // What waking threads leaves alone.
  ghost predicate OnlyWoken(k: Kernel, k': Kernel) {
    && k'.threads.Keys == k.threads.Keys && k'.events == k.events && k'.listeners == k.listeners
    && k'.nextListener == k.nextListener && k'.running == k.running && k'.idle == k.idle
    && (forall t :: t in k.threads ==>
          && k'.threads[t].inWait == k.threads[t].inWait && k'.threads[t].listeners == k.threads[t].listeners
          && k'.threads[t].pending == k.threads[t].pending && k'.threads[t].mask == k.threads[t].mask
          && k'.threads[t].signalEvent == k.threads[t].signalEvent
          && (k'.threads[t].state == k.threads[t].state || (k.threads[t].state == BLOCKED && k'.threads[t].state == READY)))
  }

  ghost predicate HasListener(k: Kernel, ids: seq<nat>, t: nat) {
    exists id :: id in ids && id in k.listeners && k.listeners[id].thread == t
  }

  ghost function StateWhenWoken(k: Kernel, ids: seq<nat>, t: nat): ThreadState
    requires t in k.threads
  {
    if k.threads[t].state == BLOCKED && HasListener(k, ids, t) then READY else k.threads[t].state
  }

  lemma WakeOnly(k: Kernel, id: nat)
    requires id in k.listeners && k.listeners[id].thread in k.threads
    ensures OnlyWoken(k, Wake(k, id)) && Wake(k, id).threads[k.listeners[id].thread].state != BLOCKED
    ensures forall t :: t in k.threads && t != k.listeners[id].thread ==> Wake(k, id).threads[t] == k.threads[t]
  {
  }

  /** Waking a list of listeners makes exactly their blocked threads ready. */
  lemma {:induction false} WakeAllEffect(k: Kernel, ids: seq<nat>)
    requires Listeners(k, ids)
    ensures OnlyWoken(k, WakeAll(k, ids))
    ensures forall t :: t in k.threads ==> WakeAll(k, ids).threads[t].state == StateWhenWoken(k, ids, t)
    decreases ids
  {
    if ids != [] {
      assert ids[0] in ids;
      WakeOnly(k, ids[0]);
      var k1 := Wake(k, ids[0]);
      WakeAllEffect(k1, ids[1..]);
      forall t | t in k.threads
        ensures HasListener(k, ids, t) <==> k.listeners[ids[0]].thread == t || HasListener(k1, ids[1..], t)
      {
        assert ids == [ids[0]] + ids[1..];
        if HasListener(k, ids, t) {
          var id :| id in ids && id in k.listeners && k.listeners[id].thread == t;
          assert id == ids[0] || id in ids[1..];
        }
      }
    } else {
      assert forall t :: !HasListener(k, ids, t);
    }
  }

  lemma {:induction false} WakeAllSound(k: Kernel, ids: seq<nat>)
    requires QueueSound(k) && Listeners(k, ids)
    ensures QueueSound(WakeAll(k, ids))
    decreases ids
  {
    if ids != [] {
      assert ids[0] in ids;
      var l := k.listeners[ids[0]];
      var k1 := WithThread(k, l.thread, k.threads[l.thread].(which := l.which));
      EnqueueSound(k1, l.thread, None);
      WakeOnly(k, ids[0]);
      WakeAllSound(Wake(k, ids[0]), ids[1..]);
    }
  }

  lemma OnlyWokenSound(k: Kernel, k': Kernel)
    requires OnlyWoken(k, k') && EventsSound(k) && ThreadsSound(k) && ListenersSound(k)
    ensures EventsSound(k') && ThreadsSound(k') && ListenersSound(k')
  {
    hide EventSound, NoDuplicates;
  }

  lemma EventListeners(k: Kernel, e: nat)
    requires EventsSound(k) && ListenersSound(k) && e in k.events
    ensures Listeners(k, k.events[e].listeners)
  {
  }

  function AddPending(k: Kernel, e: nat, n: nat): Kernel
    requires e in k.events
  {
    k.(events := k.events[e := k.events[e].(pending := n)])
  }

  lemma AddPendingSound(k: Kernel, e: nat, n: nat)
    requires EventsSound(k) && ThreadsSound(k) && ListenersSound(k) && e in k.events
    requires k.events[e].listeners == []
    ensures var k' := AddPending(k, e, n); EventsSound(k') && ThreadsSound(k') && ListenersSound(k')
  {
    hide NoDuplicates, ThreadSound;
  }

  // The state after a trigger in which somebody listened.
  lemma WakingSound(k: Kernel, e: nat)
    requires Sound(k) && e in k.events && Listeners(k, k.events[e].listeners)
    ensures var k' := WakeAll(k, k.events[e].listeners);
      && Sound(k') && k'.threads.Keys == k.threads.Keys && k'.listeners == k.listeners
  {
    hide QueueSound, EventsSound, ThreadsSound, ListenersSound;
    WakeAllSound(k, k.events[e].listeners);
    WakeAllEffect(k, k.events[e].listeners);
    OnlyWokenSound(k, WakeAll(k, k.events[e].listeners));
  }

  lemma TriggerSound(k: Kernel, e: nat, drop: bool)
    requires Sound(k) && e in k.events
    ensures Listeners(k, k.events[e].listeners)
    ensures Sound(Trigger(k, e, drop)) && Trigger(k, e, drop).threads.Keys == k.threads.Keys
    ensures Trigger(k, e, drop).listeners == k.listeners && Trigger(k, e, drop).running == k.running
  {
    hide WakeAll, ThreadsSound, ListenersSound;
    EventListeners(k, e);
    if k.events[e].listeners != [] {
      WakingSound(k, e);
      WakeAllEffect(k, k.events[e].listeners);
    } else if !drop {
      AddPendingSound(k, e, k.events[e].pending + 1);
    }
  }

  /** After an unbounded trigger no listener of the event is blocked; without a listener it is remembered. */
  lemma TriggerWakesAll(k: Kernel, e: nat, drop: bool)
    requires Sound(k) && e in k.events
    ensures Listeners(k, k.events[e].listeners)
    ensures var k' := Trigger(k, e, drop);
      && (forall id :: id in k.listeners && k.listeners[id].event == e ==>
            k.listeners[id].thread in k'.threads && k'.threads[k.listeners[id].thread].state != BLOCKED)
      && (k.events[e].listeners == [] && !drop ==> k' == AddPending(k, e, k.events[e].pending + 1))
  {
    hide WakeAll, ThreadsSound, QueueSound;
    TriggerSound(k, e, drop);
    forall id | id in k.listeners && k.listeners[id].event == e
      ensures k.listeners[id].thread in k.threads && Trigger(k, e, drop).threads[k.listeners[id].thread].state != BLOCKED
    {
      WakeAllEffect(k, k.events[e].listeners);
      assert HasListener(k, k.events[e].listeners, k.listeners[id].thread);
    }
  }

  // ----- taking listeners away -----

  function Unlink(k: Kernel, id: nat): Kernel
    requires id in k.listeners && k.listeners[id].event in k.events
  {
    var e := k.listeners[id].event;
    var ev := k.events[e];
    k.(events := k.events[e := ev.(listeners := Without(ev.listeners, id), numListeners := ev.numListeners - 1)],
       listeners := k.listeners - {id})
  }

  ghost predicate Unlinkable(k: Kernel, ids: seq<nat>) {
    NoDuplicates(ids) && forall id :: id in ids ==> id in k.listeners && k.listeners[id].event in k.events
  }

  lemma UnlinkableRest(k: Kernel, ids: seq<nat>)
    requires Unlinkable(k, ids) && ids != []
    ensures ids[0] in ids && ids[0] in k.listeners && k.listeners[ids[0]].event in k.events
    ensures Unlinkable(Unlink(k, ids[0]), ids[1..])
  {
    assert ids[0] in ids;
    assert forall id :: id in ids[1..] ==> id in ids && id != ids[0];
  }

  ghost function UnlinkAll(k: Kernel, ids: seq<nat>): Kernel
    requires Unlinkable(k, ids)
    decreases ids
  {
    if ids == [] then k
    else
      UnlinkableRest(k, ids);
      UnlinkAll(Unlink(k, ids[0]), ids[1..])
  }

  lemma UnlinkSound(k: Kernel, id: nat)
    requires EventsSound(k) && id in k.listeners && k.listeners[id].event in k.events
    requires id in k.events[k.listeners[id].event].listeners
    ensures EventsSound(Unlink(k, id)) && Unlink(k, id).events.Keys == k.events.Keys
    ensures forall e, x :: e in k.events && x in k.events[e].listeners && x != id ==> x in Unlink(k, id).events[e].listeners
  {
    WithoutMembers(k.events[k.listeners[id].event].listeners, id);
  }

  // Every listener is in the list of its event.
  ghost predicate AllLinked(k: Kernel) {
    forall id :: id in k.listeners ==> k.listeners[id].event in k.events && id in k.events[k.listeners[id].event].listeners
  }

  lemma {:induction false} UnlinkAllEffect(k: Kernel, ids: seq<nat>)
    requires EventsSound(k) && AllLinked(k) && Unlinkable(k, ids)
    ensures var k' := UnlinkAll(k, ids);
      && EventsSound(k') && AllLinked(k') && k'.events.Keys == k.events.Keys
      && k' == k.(events := k'.events, listeners := k'.listeners)
      && (forall id :: id in k'.listeners <==> id in k.listeners && id !in ids)
      && (forall id :: id in k'.listeners ==> k'.listeners[id] == k.listeners[id])
    decreases ids
  {
    hide EventsSound;
    if ids != [] {
      UnlinkableRest(k, ids);
      UnlinkSound(k, ids[0]);
      var k1 := Unlink(k, ids[0]);
      assert AllLinked(k1);
      UnlinkAllEffect(k1, ids[1..]);
      assert forall id :: id in ids <==> id == ids[0] || id in ids[1..];
    }
  }

  // clear_listeners.
  ghost function ClearListeners(k: Kernel, t: nat): Kernel
    requires t in k.threads && Unlinkable(k, k.threads[t].listeners)
  {
    var k1 := UnlinkAll(k, k.threads[t].listeners);
    k1.(threads := k.threads[t := k.threads[t].(listeners := [], inWait := false)])
  }

  lemma OwnListeners(k: Kernel, t: nat)
    requires ThreadsSound(k) && ListenersSound(k) && t in k.threads
    ensures Unlinkable(k, k.threads[t].listeners) && AllLinked(k)
  {
  }

  lemma ClearListenersSound(k: Kernel, t: nat)
    requires Sound(k) && t in k.threads && k.threads[t].state != BLOCKED
    ensures Unlinkable(k, k.threads[t].listeners) && Sound(ClearListeners(k, t))
    ensures ClearListeners(k, t).events.Keys == k.events.Keys
    ensures ClearListeners(k, t).queue == k.queue && ClearListeners(k, t).running == k.running
    ensures forall id :: id in ClearListeners(k, t).listeners <==> id in k.listeners && k.listeners[id].thread != t
    ensures forall id :: id in ClearListeners(k, t).listeners ==> ClearListeners(k, t).listeners[id] == k.listeners[id]
  {
    OwnListeners(k, t);
    UnlinkAllEffect(k, k.threads[t].listeners);
    ClearedSound(k, ClearListeners(k, t), t);
  }

  lemma ClearedSound(k: Kernel, k': Kernel, t: nat)
    requires Sound(k) && t in k.threads && k.threads[t].state != BLOCKED
    requires EventsSound(k') && AllLinked(k') && k'.events.Keys == k.events.Keys
    requires k' == k.(events := k'.events, listeners := k'.listeners,
                      threads := k.threads[t := k.threads[t].(listeners := [], inWait := false)])
    requires forall id :: id in k'.listeners <==> id in k.listeners && id !in k.threads[t].listeners
    requires forall id :: id in k'.listeners ==> k'.listeners[id] == k.listeners[id]
    ensures Sound(k') && forall id :: id in k'.listeners <==> id in k.listeners && k.listeners[id].thread != t
  {
    hide EventsSound, QueueSound;
    assert QueueSound(k') by {
      SameStatesSound(k, k');
    }
    ClearedListeners(k, k', t);
    forall u | u in k'.threads ensures ThreadSound(k'.threads[u], u, k'.listeners) && k'.threads[u].signalEvent in k'.events {
      assert ThreadSound(k.threads[u], u, k.listeners);
    }
    forall id | id in k'.listeners ensures ListenerSound(k', k'.listeners[id], id) {
      assert ListenerSound(k, k.listeners[id], id);
    }
  }

  // A listener is gone exactly if it was the thread's.
  lemma ClearedListeners(k: Kernel, k': Kernel, t: nat)
    requires ListenersSound(k) && ThreadsSound(k) && t in k.threads
    requires forall id :: id in k'.listeners <==> id in k.listeners && id !in k.threads[t].listeners
    ensures forall id :: id in k'.listeners <==> id in k.listeners && k.listeners[id].thread != t
  {
    hide ThreadsSound;
    OneThreadSound(k, t);
    forall id ensures id in k'.listeners <==> id in k.listeners && k.listeners[id].thread != t {
      assert id in k.listeners ==> ListenerSound(k, k.listeners[id], id);
    }
  }

  lemma OneThreadSound(k: Kernel, t: nat)
    requires t in k.threads
    ensures ThreadsSound(k) ==> ThreadSound(k.threads[t], t, k.listeners)
  {
  }

  // The queue only depends on the states of the threads.
  lemma SameStatesSound(k: Kernel, k': Kernel)
    requires QueueSound(k) && k'.threads.Keys == k.threads.Keys
    requires forall t :: t in k.threads ==> k'.threads[t].state == k.threads[t].state
    requires k'.queue == k.queue && k'.running == k.running && k'.idle == k.idle
    ensures QueueSound(k')
  {
  }

  // ----- waiting -----

  ghost predicate Known(k: Kernel, events: seq<Option<nat>>) {
    forall i :: 0 <= i < |events| && events[i].Some? ==> events[i].value in k.events
  }

  predicate HasPendingSignals(x: Thread) {
    x.pending - x.mask != {}
  }

  // The first event that is pending, or the number of events.
  function FirstPending(k: Kernel, events: seq<Option<nat>>, i: nat): (j: nat)
    requires i <= |events| && Known(k, events)
    ensures i <= j <= |events|
    ensures j < |events| ==> events[j].Some? && k.events[events[j].value].pending > 0
    ensures forall n :: i <= n < j && events[n].Some? ==> k.events[events[n].value].pending == 0
    decreases |events| - i
  {
    if i == |events| then i
    else if events[i].Some? && k.events[events[i].value].pending > 0 then i
    else FirstPending(k, events, i + 1)
  }

  // One more listener for thread t.
  function AddListener(k: Kernel, t: nat, e: nat, which: nat): Kernel
    requires t in k.threads && e in k.events
  {
    var id, ev, x := k.nextListener, k.events[e], k.threads[t];
    k.(threads := k.threads[t := x.(listeners := x.listeners + [id])],
       events := k.events[e := ev.(listeners := ev.listeners + [id], numListeners := ev.numListeners + 1)],
       listeners := k.listeners[id := Listener(t, e, which)],
       nextListener := id + 1)
  }

  function AddListeners(k: Kernel, t: nat, events: seq<Option<nat>>, i: nat): Kernel
    requires i <= |events| && t in k.threads && Known(k, events)
    decreases |events| - i
  {
    if i == |events| then k
    else if events[i].None? then AddListeners(k, t, events, i + 1)
    else AddListeners(AddListener(k, t, events[i].value, i), t, events, i + 1)
  }

  lemma AddListenerSound(k: Kernel, t: nat, e: nat, which: nat)
    requires EventsSound(k) && ThreadsSound(k) && ListenersSound(k) && t in k.threads && e in k.events
    requires k.threads[t].inWait && k.events[e].pending == 0
    ensures var k' := AddListener(k, t, e, which); EventsSound(k') && ThreadsSound(k') && ListenersSound(k')
  {
    hide EventsSound, ThreadsSound, ListenersSound;
    AddListenerEventsSound(k, t, e, which);
    AddListenerThreadsSound(k, t, e, which);
    AddListenerLinksSound(k, t, e, which);
  }

  lemma AddListenerEventsSound(k: Kernel, t: nat, e: nat, which: nat)
    requires EventsSound(k) && ListenersSound(k) && t in k.threads && e in k.events && k.events[e].pending == 0
    ensures EventsSound(AddListener(k, t, e, which))
  {
    var k', id := AddListener(k, t, e, which), k.nextListener;
    forall f | f in k'.events ensures EventSound(k'.events[f], f, k'.listeners) {
      assert EventSound(k.events[f], f, k.listeners);
      assert id in k.events[f].listeners ==> ListenerSound(k, k.listeners[id], id);
    }
  }

  lemma AddListenerThreadsSound(k: Kernel, t: nat, e: nat, which: nat)
    requires ThreadsSound(k) && ListenersSound(k) && t in k.threads && e in k.events && k.threads[t].inWait
    ensures ThreadsSound(AddListener(k, t, e, which))
  {
    var k', id := AddListener(k, t, e, which), k.nextListener;
    forall u | u in k'.threads ensures ThreadSound(k'.threads[u], u, k'.listeners) && k'.threads[u].signalEvent in k'.events {
      assert ThreadSound(k.threads[u], u, k.listeners);
      assert id in k.threads[u].listeners ==> ListenerSound(k, k.listeners[id], id);
    }
  }

  lemma AddListenerLinksSound(k: Kernel, t: nat, e: nat, which: nat)
    requires ListenersSound(k) && t in k.threads && e in k.events
    ensures ListenersSound(AddListener(k, t, e, which))
  {
    var k', id := AddListener(k, t, e, which), k.nextListener;
    forall x | x in k'.listeners ensures ListenerSound(k', k'.listeners[x], x) {
      assert x != id ==> ListenerSound(k, k.listeners[x], x);
    }
  }

  lemma {:induction false} AddListenersSound(k: Kernel, t: nat, events: seq<Option<nat>>, i: nat)
    requires Sound(k) && i <= |events| && t in k.threads && k.threads[t].inWait && Known(k, events)
    requires forall n :: 0 <= n < |events| && events[n].Some? ==> k.events[events[n].value].pending == 0
    ensures var k' := AddListeners(k, t, events, i);
      && Sound(k') && k'.queue == k.queue && k'.running == k.running && k'.idle == k.idle
      && k'.threads.Keys == k.threads.Keys && k'.threads[t].state == k.threads[t].state && k'.threads[t].inWait
      && (forall u :: u in k.threads && u != t ==> k'.threads[u] == k.threads[u])
      && (forall id :: id in k.listeners ==> id in k'.listeners && k'.listeners[id] == k.listeners[id])
    decreases |events| - i
  {
    hide EventsSound, ThreadsSound, ListenersSound, QueueSound;
    if i < |events| {
      if events[i].None? {
        AddListenersSound(k, t, events, i + 1);
      } else {
        var k1 := AddListener(k, t, events[i].value, i);
        AddListenerSound(k, t, events[i].value, i);
        SameStatesSound(k, k1);
        assert forall id :: id in k.listeners ==> id != k.nextListener by {
          assert ListenersSound(k);
          ListenerIdsBelow(k);
        }
        AddListenersSound(k1, t, events, i + 1);
      }
    }
  }

  lemma ListenerIdsBelow(k: Kernel)
    requires ListenersSound(k)
    ensures forall id :: id in k.listeners ==> id < k.nextListener
  {
  }

  datatype WaitResult = Interrupted | Consumed(which: nat) | WouldBlock | Suspended

  // Event::wait up to the point where the thread gives up the processor, for the running thread.
  function WaitState(k: Kernel, events: seq<Option<nat>>, nonblocking: bool): Kernel
    requires k.running in k.threads && Runnable(k.threads[k.running].state) && Known(k, events)
  {
    var t := k.running;
    var i := FirstPending(k, events, 0);
    if HasPendingSignals(k.threads[t]) then k
    else if i < |events| then AddPending(k, events[i].value, k.events[events[i].value].pending - 1)
    else if nonblocking then k
    else Suspend(k, events)
  }

  function Suspend(k: Kernel, events: seq<Option<nat>>): Kernel
    requires k.running in k.threads && Runnable(k.threads[k.running].state) && Known(k, events)
  {
    var t := k.running;
    var k1 := AddListeners(WithThread(k, t, k.threads[t].(inWait := true)), t, events, 0);
    SameThreads(WithThread(k, t, k.threads[t].(inWait := true)), t, events, 0);
    Dequeue(k1, t)
  }

  lemma {:induction false} SameThreads(k: Kernel, t: nat, events: seq<Option<nat>>, i: nat)
    requires i <= |events| && t in k.threads && Known(k, events)
    ensures var k' := AddListeners(k, t, events, i);
      k'.threads.Keys == k.threads.Keys && k'.threads[t].state == k.threads[t].state
    decreases |events| - i
  {
    if i < |events| {
      if events[i].None? {
        SameThreads(k, t, events, i + 1);
      } else {
        SameThreads(AddListener(k, t, events[i].value, i), t, events, i + 1);
      }
    }
  }

  function WaitResultOf(k: Kernel, events: seq<Option<nat>>, nonblocking: bool): WaitResult
    requires k.running in k.threads && Known(k, events)
  {
    var i := FirstPending(k, events, 0);
    if HasPendingSignals(k.threads[k.running]) then Interrupted
    else if i < |events| then Consumed(i)
    else if nonblocking then WouldBlock
    else Suspended
  }

  // The rest of Event::wait once the thread runs again.
  ghost function ResumeState(k: Kernel): Kernel
    requires k.running in k.threads && Unlinkable(k, k.threads[k.running].listeners)
  {
    ClearListeners(k, k.running)
  }

  function ResumeResult(x: Thread): WaitResult {
    if x.bySignal.Some? then Interrupted else Consumed(x.which)
  }

  // The running thread executes code of its own, outside of a wait.
  ghost predicate Executing(k: Kernel) {
    && k.running in k.threads && k.running != k.idle
    && k.threads[k.running].state == RUNNING && !k.threads[k.running].inWait
  }

  lemma WaitSound(k: Kernel, events: seq<Option<nat>>, nonblocking: bool)
    requires Sound(k) && Executing(k) && Known(k, events)
    ensures k.threads[k.running].listeners == []
    ensures Sound(WaitState(k, events, nonblocking))
  {
    hide EventsSound, ThreadsSound, ListenersSound, QueueSound;
    var t := k.running;
    var i := FirstPending(k, events, 0);
    OneThreadSound(k, t);
    if HasPendingSignals(k.threads[t]) {
    } else if i < |events| {
      ConsumeSound(k, events[i].value);
    } else if !nonblocking {
      SuspendSound(k, events);
    }
  }

  lemma ConsumeSound(k: Kernel, e: nat)
    requires Sound(k) && e in k.events && k.events[e].pending > 0
    ensures Sound(AddPending(k, e, k.events[e].pending - 1))
  {
    hide ThreadsSound, ListenersSound, QueueSound;
    var k' := AddPending(k, e, k.events[e].pending - 1);
    assert EventSound(k.events[e], e, k.listeners);
    AddPendingSound(k, e, k.events[e].pending - 1);
    SameStatesSound(k, k');
  }

  lemma SuspendSound(k: Kernel, events: seq<Option<nat>>)
    requires Sound(k) && Executing(k) && Known(k, events)
    requires forall n :: 0 <= n < |events| && events[n].Some? ==> k.events[events[n].value].pending == 0
    ensures Sound(Suspend(k, events)) && Suspend(k, events).threads[k.running].state == BLOCKED
    ensures Suspend(k, events).threads.Keys == k.threads.Keys && Suspend(k, events).running == k.running
    ensures forall u :: u in k.threads && u != k.running ==> Suspend(k, events).threads[u] == k.threads[u]
    ensures forall id :: id in k.listeners ==> id in Suspend(k, events).listeners && Suspend(k, events).listeners[id] == k.listeners[id]
  {
    hide EventsSound, ThreadsSound, ListenersSound, QueueSound;
    var t := k.running;
    var k0 := WithThread(k, t, k.threads[t].(inWait := true));
    assert Sound(k0) by {
      EnterSound(k);
    }
    AddListenersSound(k0, t, events, 0);
    var k1 := AddListeners(k0, t, events, 0);
    DequeueSound(k1, t);
    BlockedSound(k1, t);
  }

  lemma EnterSound(k: Kernel)
    requires Sound(k) && Executing(k)
    ensures Sound(WithThread(k, k.running, k.threads[k.running].(inWait := true)))
  {
    hide EventSound, QueueSound, NoDuplicates;
    SameStatesSound(k, WithThread(k, k.running, k.threads[k.running].(inWait := true)));
  }

  lemma BlockedSound(k: Kernel, t: nat)
    requires EventsSound(k) && ThreadsSound(k) && ListenersSound(k) && t in k.threads
    requires k.threads[t].inWait && Runnable(k.threads[t].state)
    ensures var k' := Dequeue(k, t); EventsSound(k') && ThreadsSound(k') && ListenersSound(k')
  {
    hide EventSound, NoDuplicates;
  }

  // ----- the other steps keep the listeners as they are -----

  // k' differs from k only in what threads do, not in what they listen to.
  ghost predicate ListensAlike(k: Kernel, k': Kernel) {
    && k'.events == k.events && k'.listeners == k.listeners && k'.nextListener == k.nextListener
    && k'.threads.Keys == k.threads.Keys && k'.idle == k.idle
    && (forall t :: t in k.threads ==>
          && k'.threads[t].listeners == k.threads[t].listeners && k'.threads[t].inWait == k.threads[t].inWait
          && k'.threads[t].signalEvent == k.threads[t].signalEvent
          && (k'.threads[t].state == BLOCKED ==> k.threads[t].state == BLOCKED))
  }

  lemma ListensAlikeSound(k: Kernel, k': Kernel)
    requires ListensAlike(k, k') && EventsSound(k) && ThreadsSound(k) && ListenersSound(k)
    ensures EventsSound(k') && ThreadsSound(k') && ListenersSound(k')
  {
    hide EventSound, NoDuplicates;
  }

  lemma ScheduleAlike(k: Kernel)
    requires k.running in k.threads && Next(k.queue, k.running, k.idle) in k.threads
    ensures ListensAlike(k, Schedule(k))
  {
  }

  /** The scheduler's choice keeps the kernel sound; afterwards exactly the running thread is RUNNING. */
  lemma ScheduleKeepsSound(k: Kernel)
    requires Sound(k)
    ensures Next(k.queue, k.running, k.idle) in k.threads && Sound(Schedule(k))
    ensures Schedule(k).threads[Schedule(k).running].state == RUNNING && Schedule(k).queue == k.queue
    ensures ListensAlike(k, Schedule(k))
  {
    hide EventsSound, ThreadsSound, ListenersSound, QueueSound, ListensAlike, Schedule;
    ScheduleSound(k);
    NextIsRunnable(k);
    ScheduleAlike(k);
    ListensAlikeSound(k, Schedule(k));
  }

  lemma TerminateKeepsSound(k: Kernel, t: nat)
    requires Sound(k) && t in k.threads && t != k.idle
    ensures Sound(Terminate(k, t)) && ListensAlike(k, Terminate(k, t))
  {
    hide EventsSound, ThreadsSound, ListenersSound, QueueSound;
    TerminateSound(k, t);
    ListensAlikeSound(k, Terminate(k, t));
  }

  function AddSignal(k: Kernel, t: nat, signal: nat): Kernel
    requires t in k.threads
  {
    WithThread(k, t, k.threads[t].(pending := k.threads[t].pending + {signal}))
  }

  // Thread::send_signal.
  ghost function SendSignal(k: Kernel, t: nat, signal: nat): Kernel
    requires t in k.threads && k.threads[t].signalEvent in k.events
    requires Listeners(k, k.events[k.threads[t].signalEvent].listeners)
  {
    Trigger(Enqueue(AddSignal(k, t, signal), t, Some(signal)), k.threads[t].signalEvent, false)
  }

  lemma SignalledSound(k: Kernel, t: nat, signal: nat)
    requires Sound(k) && t in k.threads
    ensures var k' := Enqueue(AddSignal(k, t, signal), t, Some(signal));
      && Sound(k') && ListensAlike(k, k') && k'.threads[t].state != BLOCKED && k'.running == k.running
  {
    hide EventsSound, ThreadsSound, ListenersSound, QueueSound;
    var k1 := AddSignal(k, t, signal);
    SameStatesSound(k, k1);
    EnqueueSound(k1, t, Some(signal));
    ListensAlikeSound(k, Enqueue(k1, t, Some(signal)));
  }

  lemma SendSignalSound(k: Kernel, t: nat, signal: nat)
    requires Sound(k) && t in k.threads
    ensures k.threads[t].signalEvent in k.events && Listeners(k, k.events[k.threads[t].signalEvent].listeners)
    ensures Sound(SendSignal(k, t, signal)) && SendSignal(k, t, signal).threads.Keys == k.threads.Keys
    ensures SendSignal(k, t, signal).listeners == k.listeners && SendSignal(k, t, signal).running == k.running
    ensures SendSignal(k, t, signal).threads[t].state != BLOCKED
  {
    hide EventsSound, ListenersSound, QueueSound, Trigger, EventSound, ThreadSound;
    var e := k.threads[t].signalEvent;
    EventListeners(k, e);
    SignalledSound(k, t, signal);
    var k1 := Enqueue(AddSignal(k, t, signal), t, Some(signal));
    TriggerSound(k1, e, false);
    TriggerNeverBlocks(k1, e, false);
  }

  lemma TriggerNeverBlocks(k: Kernel, e: nat, drop: bool)
    requires Sound(k) && e in k.events
    ensures Listeners(k, k.events[e].listeners)
    ensures var k' := Trigger(k, e, drop);
      forall t :: t in k.threads ==>
        && t in k'.threads && (k'.threads[t].state == BLOCKED ==> k.threads[t].state == BLOCKED)
        && k'.threads[t].inWait == k.threads[t].inWait && k'.threads[t].listeners == k.threads[t].listeners
  {
    hide EventsSound, ListenersSound, QueueSound, EventSound, ThreadSound, WakeAll;
    EventListeners(k, e);
    WakeAllEffect(k, k.events[e].listeners);
  }

  // Taking the lowest deliverable signal before returning to user mode.
  function DispatchSignal(k: Kernel, t: nat, signal: nat): Kernel
    requires t in k.threads
  {
    WithThread(k, t, k.threads[t].(pending := k.threads[t].pending - {signal}, bySignal := None))
  }

  datatype MaskHow = SIG_BLOCK | SIG_UNBLOCK | SIG_SETMASK

  function NewMask(how: MaskHow, mask: set<nat>, signals: set<nat>): set<nat> {
    match how
    case SIG_BLOCK => mask + signals
    case SIG_UNBLOCK => mask - signals
    case SIG_SETMASK => signals
  }

  // rt_sigprocmask, and what entering and leaving a signal handler does to the mask.
  function SetMask(k: Kernel, t: nat, how: MaskHow, signals: set<nat>): Kernel
    requires t in k.threads
  {
    WithThread(k, t, k.threads[t].(mask := NewMask(how, k.threads[t].mask, signals)))
  }

  /** A signal interrupts the wait of a blocked thread whether or not the thread masks it; there is a signal to be
      delivered afterwards exactly if there was one before or this one is not masked. */
  lemma SignalInterrupts(k: Kernel, t: nat, signal: nat)
    requires Sound(k) && t in k.threads && k.threads[t].state == BLOCKED
    ensures k.threads[t].signalEvent in k.events && Listeners(k, k.events[k.threads[t].signalEvent].listeners)
    ensures t in SendSignal(k, t, signal).threads
    ensures var x := SendSignal(k, t, signal).threads[t];
      && x.state == READY && ResumeResult(x) == Interrupted && x.mask == k.threads[t].mask
      && (HasPendingSignals(x) <==> HasPendingSignals(k.threads[t]) || signal !in k.threads[t].mask)
  {
    hide EventsSound, ThreadsSound, ListenersSound, QueueSound, Trigger;
    SendSignalSound(k, t, signal);
    SignalledSound(k, t, signal);
    var k1, e := Enqueue(AddSignal(k, t, signal), t, Some(signal)), k.threads[t].signalEvent;
    EventListeners(k1, e);
    TriggerKeepsWoken(k1, e, t);
    var before, after := k.threads[t], k1.threads[t];
    assert after.pending - after.mask
      == (before.pending - before.mask) + (if signal in before.mask then {} else {signal});
  }

  // A trigger does not hide that a signal has woken a thread.
  lemma TriggerKeepsWoken(k: Kernel, e: nat, t: nat)
    requires Sound(k) && e in k.events && Listeners(k, k.events[e].listeners)
    requires t in k.threads && k.threads[t].state != BLOCKED
    ensures var k' := Trigger(k, e, false);
      t in k'.threads && k'.threads[t] == k.threads[t].(which := k'.threads[t].which)
  {
    hide EventsSound, ThreadsSound, ListenersSound, QueueSound, WakeAll;
    WakeAllKeepsWoken(k, k.events[e].listeners, t);
  }

  lemma {:induction false} WakeAllKeepsWoken(k: Kernel, ids: seq<nat>, t: nat)
    requires Listeners(k, ids) && t in k.threads && k.threads[t].state != BLOCKED
    ensures var k' := WakeAll(k, ids);
      t in k'.threads && k'.threads[t] == k.threads[t].(which := k'.threads[t].which)
    decreases ids
  {
    if ids != [] {
      assert ids[0] in ids;
      WakeOnly(k, ids[0]);
      WakeAllKeepsWoken(Wake(k, ids[0]), ids[1..], t);
    }
  }

  // A new thread and its signal event.
  function Spawn(k: Kernel, t: nat, e: nat): Kernel {
    k.(threads := k.threads[t := Thread(READY, false, [], 0, None, {}, {}, e)],
       queue := k.queue + [t],
       events := k.events[e := Event(0, 0, [])])
  }

  lemma SpawnQueueSound(k: Kernel, t: nat, e: nat)
    requires QueueSound(k) && t !in k.threads
    ensures QueueSound(Spawn(k, t, e))
  {
    var k' := Spawn(k, t, e);
    assert t !in k.queue;
    assert forall x :: x in k'.queue <==> x in k.queue || x == t;
  }

  lemma SpawnSound(k: Kernel, t: nat, e: nat)
    requires Sound(k) && t !in k.threads && e !in k.events
    ensures Sound(Spawn(k, t, e))
  {
    hide QueueSound;
    var k' := Spawn(k, t, e);
    SpawnQueueSound(k, t, e);
    forall f | f in k'.events ensures EventSound(k'.events[f], f, k'.listeners) {
      assert f != e ==> EventSound(k.events[f], f, k.listeners);
    }
    forall u | u in k'.threads ensures ThreadSound(k'.threads[u], u, k'.listeners) && k'.threads[u].signalEvent in k'.events {
      assert u != t ==> ThreadSound(k.threads[u], u, k.listeners);
    }
    forall x | x in k'.listeners ensures ListenerSound(k', k'.listeners[x], x) {
      assert ListenerSound(k, k.listeners[x], x);
    }
  }

  // Destroying a thread.
  ghost function Reap(k: Kernel, t: nat): Kernel
    requires t in k.threads && Unlinkable(k, k.threads[t].listeners)
  {
    var k1 := ClearListeners(k, t);
    k1.(threads := k1.threads - {t})
  }

  lemma ReapSound(k: Kernel, t: nat)
    requires Sound(k) && t in k.threads && k.threads[t].state == ZOMBIE && t != k.running && t != k.idle
    ensures Unlinkable(k, k.threads[t].listeners) && Sound(Reap(k, t))
  {
    hide EventSound, NoDuplicates;
    ClearListenersSound(k, t);
    var k1, k' := ClearListeners(k, t), Reap(k, t);
    assert QueueSound(k') by {
      hide EventsSound, ThreadsSound, ListenersSound;
      RemovedSound(k1, t);
    }
    forall u | u in k'.threads ensures ThreadSound(k'.threads[u], u, k'.listeners) && k'.threads[u].signalEvent in k'.events {
      assert ThreadSound(k1.threads[u], u, k1.listeners);
    }
    forall x | x in k'.listeners ensures ListenerSound(k', k'.listeners[x], x) {
      assert ListenerSound(k1, k1.listeners[x], x);
    }
  }

  lemma RemovedSound(k: Kernel, t: nat)
    requires QueueSound(k) && t in k.threads && k.threads[t].state == ZOMBIE && t != k.running && t != k.idle
    ensures QueueSound(k.(threads := k.threads - {t}))
  {
  }
}
