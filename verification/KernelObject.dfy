/**
 The scheduler, event and pipe operations as they change the kernel's objects, proved against the steps of
 Scheduling and Pipes (kernel/kernel/src/sched/sched.cpp, sched/event.cpp, userland/pipe.cpp).
 */
module KernelObject {

  import Algorithm
  import opened Lists
  import opened Scheduling
  import opened Pipes

  class Machine {
    var threads: map<nat, Thread>
    var queue: seq<nat>
    var running: nat
    const idle: nat
    var events: map<nat, Event>
    var listeners: map<nat, Listener>
    var nextListener: nat
    var pipes: map<nat, Pipe>
    // The pipe operations that waiting threads are in.
    var calls: map<nat, Call>

    ghost function K(): Kernel
      reads this
    {
      Kernel(threads, queue, running, idle, events, listeners, nextListener)
    }

    ghost function State(): System
      reads this
    {
      System(K(), pipes, calls)
    }

    constructor ()
      ensures State() == Boot()
    {
      threads := map[0 := Thread(READY, false, [], 0, None, {}, {}, 0)];
      queue, running, idle := [], 0, 0;
      events := map[0 := Event(0, 0, [])];
      listeners, nextListener := map[], 0;
      pipes, calls := map[], map[];
    }

    method EnqueueThread(t: nat, signal: Option<nat>)
      requires t in threads
      modifies `threads, `queue
      ensures K() == Enqueue(old(K()), t, signal)
    {
      if threads[t].state != BLOCKED {
        return;
      }
      threads := threads[t := threads[t].(bySignal := signal)];
      queue := queue + [t];
      threads := threads[t := threads[t].(state := READY)];
      assert threads == old(threads)[t := old(threads)[t].(state := READY, bySignal := signal)];
    }

    method DequeueThread(t: nat)
      requires t in threads && Runnable(threads[t].state)
      modifies `threads, `queue
      ensures K() == Dequeue(old(K()), t)
    {
      queue := Without(queue, t);
      threads := threads[t := threads[t].(state := BLOCKED)];
    }

    method TerminateThread(t: nat)
      requires t in threads
      modifies `threads, `queue
      ensures K() == Terminate(old(K()), t)
    {
      if threads[t].state == ZOMBIE {
        return;
      }
      if threads[t].state == READY || threads[t].state == RUNNING {
        queue := Without(queue, t);
      }
      threads := threads[t := threads[t].(state := ZOMBIE)];
    }

    /** The scheduler's choice; the assertion that the chosen thread can run holds. */
    method SchedulerIsr()
      requires Sound(K())
      modifies `threads, `running
      ensures Next(old(queue), old(running), idle) in old(threads)
      ensures K() == Schedule(old(K())) && Sound(K())
    {
      hide EventsSound, ThreadsSound, ListenersSound;
      ScheduleKeepsSound(K());
      NextIsRunnable(K());
      var current := running;
      if threads[current].state == RUNNING {
        threads := threads[current := threads[current].(state := READY)];
      }
      var p := Place(queue, current);
      if p < |queue| && p + 1 != |queue| {
        current := queue[p + 1];
      } else if queue != [] {
        current := queue[0];
      } else {
        current := idle;
      }
      assert threads[current].state != BLOCKED && threads[current].state != ZOMBIE;
      running := current;
      threads := threads[current := threads[current].(state := RUNNING)];
    }

    // Takes one listener off the list of its event.
    method UnlinkListener(id: nat)
      requires id in listeners && listeners[id].event in events
      modifies `events, `listeners
      ensures K() == Unlink(old(K()), id)
    {
      hide Without;
      var e := listeners[id].event;
      events := events[e := events[e].(listeners := Without(events[e].listeners, id),
                                       numListeners := events[e].numListeners - 1)];
      listeners := listeners - {id};
    }

    method ClearThreadListeners(t: nat)
      requires t in threads && Unlinkable(K(), threads[t].listeners)
      modifies `threads, `events, `listeners
      ensures K() == ClearListeners(old(K()), t)
    {
      hide Without, NoDuplicates;
      ghost var k0 := K();
      var ids := threads[t].listeners;
      var i := 0;
      assert ids[0..] == ids;
      while i < |ids|
        invariant i <= |ids|
        invariant threads == old(threads) && Unlinkable(K(), ids[i..]) && UnlinkAll(K(), ids[i..]) == UnlinkAll(k0, ids)
      {
        ghost var k1 := K();
        UnlinkableRest(k1, ids[i..]);
        assert ids[i..][0] == ids[i] && ids[i..][1..] == ids[i + 1..];
        UnlinkListener(ids[i]);
        i := i + 1;
      }
      threads := threads[t := threads[t].(listeners := [], inWait := false)];
    }

    /** Event::trigger without a bound on the threads that it wakes. */
    method TriggerEvent(e: nat, drop: bool) returns (woken: nat)
      requires e in events && Listeners(K(), events[e].listeners)
      modifies `threads, `queue, `events
      ensures K() == Trigger(old(K()), e, drop)
      ensures woken == if old(events)[e].numListeners == 0 then 0 else |old(events)[e].listeners|
    {
      if events[e].numListeners == 0 {
        if !drop {
          events := events[e := events[e].(pending := events[e].pending + 1)];
        }
        return 0;
      }
      woken := 0;
      var ids := events[e].listeners;
      assert ids[0..] == ids;
      while woken < |ids|
        invariant woken <= |ids|
        invariant events == old(events) && listeners == old(listeners) && threads.Keys == old(threads).Keys
        invariant Listeners(K(), ids[woken..]) && WakeAll(K(), ids[woken..]) == WakeAll(old(K()), ids)
      {
        assert ids[woken..][0] == ids[woken] && ids[woken..][1..] == ids[woken + 1..];
        var l := listeners[ids[woken]];
        ghost var k1 := K();
        threads := threads[l.thread := threads[l.thread].(which := l.which)];
        EnqueueThread(l.thread, None);
        assert K() == Wake(k1, ids[woken]);
        woken := woken + 1;
      }
    }

    /** Event::wait of the running thread until it returns or gives up the processor. */
    method Wait(es: seq<Option<nat>>, nonblocking: bool) returns (r: WaitResult)
      requires running in threads && Runnable(threads[running].state) && Known(K(), es)
      requires threads[running].listeners == []
      modifies `threads, `queue, `events, `listeners, `nextListener
      ensures K() == WaitState(old(K()), es, nonblocking) && r == WaitResultOf(old(K()), es, nonblocking)
    {
      var thread := running;
      if HasPendingSignals(threads[thread]) {
        return Interrupted;
      }
      var i := 0;
      while i < |es|
        invariant i <= |es| && K() == old(K()) && FirstPending(K(), es, i) == FirstPending(K(), es, 0)
      {
        if es[i].Some? && events[es[i].value].pending > 0 {
          var e := es[i].value;
          events := events[e := events[e].(pending := events[e].pending - 1)];
          return Consumed(i);
        }
        i := i + 1;
      }
      if nonblocking {
        return WouldBlock;
      }
      AddAllListeners(es);
      DequeueThread(thread);
      r := Suspended;
    }

    /** The rest of Event::wait once the thread runs again: EINTR if a signal has woken it, or else the event's index. */
    method ResumeWait() returns (r: WaitResult)
      requires running in threads && Unlinkable(K(), threads[running].listeners)
      modifies `threads, `events, `listeners
      ensures K() == ResumeState(old(K())) && r == ResumeResult(old(threads)[running])
    {
      ClearThreadListeners(running);
      if threads[running].bySignal.Some? {
        return Interrupted;
      }
      r := Consumed(threads[running].which);
    }

    // The loop of Event::wait that adds a listener for every event.
    method AddAllListeners(es: seq<Option<nat>>)
      requires running in threads && Known(K(), es)
      modifies `threads, `events, `listeners, `nextListener
      ensures var t := running;
        K() == AddListeners(WithThread(old(K()), t, old(threads)[t].(inWait := true)), t, es, 0)
      ensures running in threads && threads[running].state == old(threads)[running].state
    {
      var thread := running;
      threads := threads[thread := threads[thread].(inWait := true)];
      ghost var k0 := K();
      SameThreads(k0, thread, es, 0);
      var i := 0;
      while i < |es|
        invariant i <= |es| && thread in threads && Known(K(), es)
        invariant AddListeners(K(), thread, es, i) == AddListeners(k0, thread, es, 0)
      {
        if es[i].Some? {
          var e, id := es[i].value, nextListener;
          threads := threads[thread := threads[thread].(listeners := threads[thread].listeners + [id])];
          listeners := listeners[id := Listener(thread, e, i)];
          nextListener := id + 1;
          events := events[e := events[e].(listeners := events[e].listeners + [id],
                                           numListeners := events[e].numListeners + 1)];
        }
        i := i + 1;
      }
    }

    /** Pipe::read from its first test until it returns or its thread gives up the processor. */
    method ReadPipe(p: nat, count: nat, nonblocking: bool) returns (r: IoResult)
      requires MayCall(State(), p) && threads[running].listeners == []
      modifies this
      ensures State() == IoLoop(old(State()), Reading(p, count), nonblocking)
      ensures r == IoLoopResult(old(State()), Reading(p, count), nonblocking)
    {
      var event := [Some(pipes[p].event)];
      while pipes[p].buffer == []
        invariant MayCall(State(), p) && threads[running].listeners == [] && event == [Some(pipes[p].event)]
        invariant IoLoop(State(), Reading(p, count), nonblocking) == IoLoop(old(State()), Reading(p, count), nonblocking)
        invariant IoLoopResult(State(), Reading(p, count), nonblocking) == IoLoopResult(old(State()), Reading(p, count), nonblocking)
        decreases events[pipes[p].event].pending
      {
        if pipes[p].writers == 0 {
          return Data([]);
        }
        if nonblocking {
          return TryAgain;
        }
        var w := Wait(event, false);
        match w
        case Suspended =>
          calls := calls[running := Reading(p, count)];
          return Waiting;
        case Interrupted => return IoInterrupted;
        case _ =>
      }
      var pipe := pipes[p];
      var n := Algorithm.Min(count, |pipe.buffer|);
      pipes := pipes[p := pipe.(buffer := pipe.buffer[n..], taken := pipe.taken + pipe.buffer[..n])];
      var _ := TriggerEvent(pipe.event, false);
      r := Data(pipe.buffer[..n]);
    }

    /** Pipe::write in the same way. */
    method WritePipe(p: nat, bytes: seq<Byte>, nonblocking: bool) returns (r: IoResult)
      requires MayCall(State(), p) && threads[running].listeners == []
      modifies this
      ensures State() == IoLoop(old(State()), Writing(p, bytes), nonblocking)
      ensures r == IoLoopResult(old(State()), Writing(p, bytes), nonblocking)
    {
      var event := [Some(pipes[p].event)];
      while true
        invariant MayCall(State(), p) && threads[running].listeners == [] && event == [Some(pipes[p].event)]
        invariant IoLoop(State(), Writing(p, bytes), nonblocking) == IoLoop(old(State()), Writing(p, bytes), nonblocking)
        invariant IoLoopResult(State(), Writing(p, bytes), nonblocking) == IoLoopResult(old(State()), Writing(p, bytes), nonblocking)
        decreases events[pipes[p].event].pending
      {
        if pipes[p].readers == 0 {
          return BrokenPipe;
        }
        if |pipes[p].buffer| != CAPACITY {
          break;
        }
        if nonblocking {
          return TryAgain;
        }
        var w := Wait(event, false);
        match w
        case Suspended =>
          calls := calls[running := Writing(p, bytes)];
          return Waiting;
        case Interrupted => return IoInterrupted;
        case _ =>
      }
      var pipe := pipes[p];
      var n := Algorithm.Min(|bytes|, CAPACITY - |pipe.buffer|);
      pipes := pipes[p := pipe.(buffer := pipe.buffer + bytes[..n], accepted := pipe.accepted + bytes[..n])];
      var _ := TriggerEvent(pipe.event, false);
      r := Written(n);
    }
  }
}
