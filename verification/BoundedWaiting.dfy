/**
 How long a thread on the run queue can wait (the choice in scheduler_isr, kernel/kernel/src/sched/sched.cpp).
 The scheduler goes to the thread behind the current one, but starts again at the head of the queue when the
 current thread has left it, so that a thread may be passed over; each time that happens for good, though, one
 thread fewer is ahead of it.
 */
module BoundedWaiting {

  import opened Lists
  import opened Scheduling
  import opened Pipes

  // The threads that can still be picked, now or after they wake up.
  ghost function Live(k: Kernel): set<nat> {
    set t | t in k.threads && t != k.idle && k.threads[t].state != ZOMBIE
  }

  // A bound on the scheduler calls until the thread at position p is picked if nobody ahead of it leaves the
  // queue, when the current thread is at position c: straight on, around the queue, or from the head of the queue.
  function Distance(p: int, c: int, length: int, live: int, alive: bool): int {
    if c < p && c < length then p - c
    else if c < length then live - c + p
    else live - length + p + (if alive then 0 else 1)
  }

  ghost function Potential(k: Kernel, t: nat, n: nat): int {
    Place(k.queue, t) * (2 * n + 1) +
      Distance(Place(k.queue, t), Place(k.queue, k.running), |k.queue|, |Live(k)|, k.running in Live(k))
  }

  lemma {:induction false} PlaceAppend(q: seq<nat>, x: nat, t: nat)
    requires x !in q
    ensures t in q ==> Place(q + [x], t) == Place(q, t) < |q|
    ensures t !in q ==> Place(q, t) == |q| && Place(q + [x], t) == if t == x then |q| else |q| + 1
  {
    if q != [] {
      assert (q + [x])[1..] == q[1..] + [x];
      assert q == [q[0]] + q[1..];
      PlaceAppend(q[1..], x, t);
    }
  }

  lemma {:induction false} PlaceWithout(q: seq<nat>, x: nat, t: nat)
    requires NoDuplicates(q) && x in q
    ensures t in q && t != x ==>
      && Place(q, t) != Place(q, x)
      && Place(Without(q, x), t) == Place(q, t) - (if Place(q, x) < Place(q, t) then 1 else 0) < |q| - 1
    ensures t !in q || t == x ==> Place(Without(q, x), t) == |q| - 1
    ensures Place(q, x) < |q| && |Without(q, x)| == |q| - 1
    ensures t in q ==> Place(q, t) < |q|
    ensures t !in q ==> Place(q, t) == |q|
  {
    assert q == [q[0]] + q[1..];
    if q[0] == x {
      Absent(q[1..], x);
      if t !in q {
        Absent(q[1..], t);
      } else if t != x {
        Present(q[1..], t);
      }
    } else {
      assert x in q[1..];
      assert Without(q, x) == [q[0]] + Without(q[1..], x);
      assert Without(q, x)[1..] == Without(q[1..], x);
      PlaceWithout(q[1..], x, t);
    }
  }

  lemma {:induction false} Absent(q: seq<nat>, t: nat)
    requires t !in q
    ensures Place(q, t) == |q|
  {
    if q != [] {
      Absent(q[1..], t);
    }
  }

  lemma {:induction false} Present(q: seq<nat>, t: nat)
    requires t in q
    ensures Place(q, t) < |q|
  {
    if q[0] != t {
      assert q == [q[0]] + q[1..];
      Present(q[1..], t);
    }
  }

  // Every thread on the queue is live.
  lemma QueueWithinLive(k: Kernel)
    requires QueueSound(k)
    ensures |k.queue| <= |Live(k)|
    ensures k.running in Live(k) && k.running !in k.queue ==> |k.queue| < |Live(k)|
  {
    SetOfDistinct(k.queue);
    var members := set x | x in k.queue;
    assert members <= Live(k);
    Subset(members, Live(k));
    if k.running in Live(k) && k.running !in k.queue {
      Subset(members + {k.running}, Live(k));
    }
  }

  lemma {:induction false} Subset<T>(a: set<T>, b: set<T>)
    requires a <= b
    ensures |a| <= |b|
    decreases a
  {
    if a != {} {
      var x :| x in a;
      Subset(a - {x}, b - {x});
    }
  }

  // ----- the steps -----

  // k' follows k by steps that are not the scheduler's, while t stays on the queue.
  ghost predicate Calm(k: Kernel, k': Kernel, t: nat, n: nat) {
    && QueueSound(k') && t in k'.queue && t != k'.running && k'.running == k.running && |Live(k')| <= n
    && Potential(k', t, n) <= Potential(k, t, n)
  }

  ghost predicate Waits(k: Kernel, t: nat, n: nat) {
    QueueSound(k) && t in k.queue && t != k.running && |Live(k)| <= n
  }

  // The potential depends on the queue and on who is live only.
  lemma SameViewCalm(k: Kernel, k': Kernel, t: nat, n: nat)
    requires Waits(k, t, n) && QueueSound(k')
    requires k'.queue == k.queue && k'.running == k.running && Live(k') == Live(k)
    ensures Calm(k, k', t, n)
  {
  }

  lemma EnqueueCalm(k: Kernel, x: nat, signal: Option<nat>, t: nat, n: nat)
    requires Waits(k, t, n) && x in k.threads
    ensures Calm(k, Enqueue(k, x, signal), t, n)
  {
    hide Place, NoDuplicates, Live;
    EnqueueSound(k, x, signal);
    if k.threads[x].state == BLOCKED {
      assert x !in k.queue;
      WakingStaysLive(k, x, signal);
      PlaceAppend(k.queue, x, t);
      PlaceAppend(k.queue, x, k.running);
    }
  }

  lemma WakingStaysLive(k: Kernel, x: nat, signal: Option<nat>)
    requires x in k.threads
    ensures Live(Enqueue(k, x, signal)) == Live(k)
    ensures QueueSound(k) && k.threads[x].state == BLOCKED ==> x in Live(k)
  {
  }

  lemma DequeueCalm(k: Kernel, t: nat, n: nat)
    requires Waits(k, t, n) && k.running != k.idle && Runnable(k.threads[k.running].state)
    ensures Calm(k, Dequeue(k, k.running), t, n)
  {
    hide Place, Without, NoDuplicates, Live;
    var x, k' := k.running, Dequeue(k, k.running);
    DequeueSound(k, x);
    assert Live(k') == Live(k) && x in Live(k) by {
      BlockingStaysLive(k);
    }
    RemovalFacts(k, x, t);
    LeavesAhead(Place(k.queue, t), Place(k.queue, x), |k.queue|, |Live(k)|, n);
  }

  lemma BlockingStaysLive(k: Kernel)
    requires k.running in k.threads && k.running != k.idle && Runnable(k.threads[k.running].state)
    ensures Live(Dequeue(k, k.running)) == Live(k) && k.running in Live(k)
  {
  }

  // The places once a thread has been taken off the queue.
  lemma RemovalFacts(k: Kernel, x: nat, t: nat)
    requires QueueSound(k) && x in k.queue && t in k.queue && t != x
    ensures var q, c, p := Without(k.queue, x), Place(k.queue, x), Place(k.queue, t);
      && |q| == |k.queue| - 1 && t in q && x !in q && c < |k.queue| && p < |k.queue| && p != c && |k.queue| <= |Live(k)|
      && Place(q, t) == p - (if c < p then 1 else 0) && Place(q, x) == |q|
  {
    hide QueueSound, Live;
    assert NoDuplicates(k.queue) by {
      QueueDistinct(k);
    }
    WithoutMembers(k.queue, x);
    PlaceWithout(k.queue, x, t);
    PlaceWithout(k.queue, x, x);
    QueueWithinLive(k);
  }

  lemma QueueDistinct(k: Kernel)
    requires QueueSound(k)
    ensures NoDuplicates(k.queue)
  {
  }

  // Arithmetic of a current thread that blocks itself at position c.
  lemma LeavesAhead(p: nat, c: nat, length: nat, live: nat, n: nat)
    requires c < length <= live <= n && p < length && p != c
    ensures var p', before := p - (if c < p then 1 else 0), if c < p then p - c else live - c + p;
      p' * (2 * n + 1) + (live - (length - 1) + p') <= p * (2 * n + 1) + before
  {
    assert (p - 1) * (2 * n + 1) == p * (2 * n + 1) - (2 * n + 1);
  }

  // A thread other than t ends.
  lemma TerminateCalm(k: Kernel, x: nat, t: nat, n: nat)
    requires Waits(k, t, n) && x in k.threads && x != k.idle && x != t
    ensures Calm(k, Terminate(k, x), t, n)
  {
    hide Place, Without, NoDuplicates, Live, QueueSound;
    var k' := Terminate(k, x);
    TerminateSound(k, x);
    RunnableQueued(k, x);
    if k.threads[x].state != ZOMBIE {
      EndedNotLive(k, x);
      QueueWithinLive(k);
      if x in k.queue {
        RemovalFacts(k, x, t);
        PlaceOfOther(k, x, k.running);
        QueuedLive(k, k.running);
        var p, c, d := Place(k.queue, t), Place(k.queue, k.running), Place(k.queue, x);
        EndsAhead(p, d, c, |k.queue|, |Live(k)|, k.running in Live(k), x == k.running, n);
      }
    }
  }

  lemma RunnableQueued(k: Kernel, x: nat)
    requires QueueSound(k) && x in k.threads && x != k.idle
    ensures x in k.queue <==> Runnable(k.threads[x].state)
  {
  }

  lemma QueuedLive(k: Kernel, y: nat)
    requires QueueSound(k)
    ensures y in k.queue ==> y in Live(k)
  {
  }

  lemma EndedNotLive(k: Kernel, x: nat)
    requires x in k.threads && x != k.idle && k.threads[x].state != ZOMBIE
    ensures x in Live(k) && Live(Terminate(k, x)) == Live(k) - {x}
  {
  }

  lemma PlaceOfOther(k: Kernel, x: nat, y: nat)
    requires QueueSound(k) && x in k.queue
    ensures var q, c, d := Without(k.queue, x), Place(k.queue, y), Place(k.queue, x);
      && (y in k.queue <==> c < |k.queue|)
      && (y != x && y in k.queue ==> c != d && Place(q, y) == c - (if d < c then 1 else 0) < |q|)
      && (y == x || y !in k.queue ==> Place(q, y) == |q|)
      && |q| == |k.queue| - 1
  {
    hide QueueSound;
    assert NoDuplicates(k.queue) by {
      QueueDistinct(k);
    }
    PlaceWithout(k.queue, x, y);
    if y in k.queue {
      Present(k.queue, y);
    } else {
      Absent(k.queue, y);
    }
  }

  // Arithmetic of a thread that ends at position d while the current one is at position c.
  lemma EndsAhead(p: nat, d: nat, c: nat, length: nat, live: nat, alive: bool, self: bool, n: nat)
    requires p < length && d < length && d != p && c <= length <= live <= n && c != p
    requires self ==> c == d && alive
    requires !self ==> c != d
    requires c < length ==> alive
    requires c == length && alive ==> length < live
    ensures var p', c' := p - (if d < p then 1 else 0), if self || c == length then length - 1 else c - (if d < c then 1 else 0);
      p' * (2 * n + 1) + Distance(p', c', length - 1, live - 1, alive && !self)
        <= p * (2 * n + 1) + Distance(p, c, length, live, alive)
  {
    assert (p - 1) * (2 * n + 1) == p * (2 * n + 1) - (2 * n + 1);
  }

  // The scheduler either picks t or gets closer to it.
  lemma ScheduleCloser(k: Kernel, t: nat, n: nat)
    requires Sound(k) && Waits(k, t, n) && Next(k.queue, k.running, k.idle) != t
    ensures k.running in k.threads && Next(k.queue, k.running, k.idle) in k.threads
    ensures Waits(Schedule(k), t, n) && Potential(Schedule(k), t, n) < Potential(k, t, n)
  {
    hide EventsSound, ThreadsSound, ListenersSound, Place, NoDuplicates, Live;
    ScheduleSound(k);
    var k' := Schedule(k);
    assert Live(k') == Live(k) by {
      ScheduleKeepsLive(k);
    }
    NextPlace(k);
    QueuedLive(k, k.running);
    QueueWithinLive(k);
    Present(k.queue, t);
    if k.running in k.queue {
      Present(k.queue, k.running);
    } else {
      Absent(k.queue, k.running);
    }
    assert k'.running in Live(k') by {
      QueuedLive(k, k'.running);
    }
  }

  lemma ScheduleKeepsLive(k: Kernel)
    requires QueueSound(k)
    ensures Next(k.queue, k.running, k.idle) in k.threads && Live(Schedule(k)) == Live(k)
  {
    ScheduleSound(k);
    NextIsRunnable(k);
  }

  // Where the picked thread stands.
  lemma NextPlace(k: Kernel)
    requires QueueSound(k) && k.queue != []
    ensures var c, next := Place(k.queue, k.running), Next(k.queue, k.running, k.idle);
      next in k.queue && Place(k.queue, next) == if c + 1 < |k.queue| then c + 1 else 0
  {
    var c := Place(k.queue, k.running);
    PlaceOf(k.queue, if c + 1 < |k.queue| then c + 1 else 0);
  }

  lemma CalmThenCalm(k: Kernel, k1: Kernel, k2: Kernel, t: nat, n: nat)
    requires Calm(k, k1, t, n) && Calm(k1, k2, t, n)
    ensures Calm(k, k2, t, n)
  {
  }

  lemma {:induction false} WakeAllCalm(k: Kernel, ids: seq<nat>, t: nat, n: nat)
    requires Waits(k, t, n) && Listeners(k, ids)
    ensures Calm(k, WakeAll(k, ids), t, n)
    decreases ids
  {
    hide QueueSound, Potential, Live;
    if ids != [] {
      assert ids[0] in ids;
      var l := k.listeners[ids[0]];
      var k1 := WithThread(k, l.thread, k.threads[l.thread].(which := l.which));
      var k2 := Wake(k, ids[0]);
      FieldCalm(k, k1, t, n);
      EnqueueCalm(k1, l.thread, None, t, n);
      WakeOnly(k, ids[0]);
      WakeAllCalm(k2, ids[1..], t, n);
      CalmThenCalm(k, k1, k2, t, n);
      CalmThenCalm(k, k2, WakeAll(k2, ids[1..]), t, n);
    }
  }

  // Steps that touch neither the queue nor the state of any thread.
  lemma FieldCalm(k: Kernel, k': Kernel, t: nat, n: nat)
    requires Waits(k, t, n) && k'.threads.Keys == k.threads.Keys && k'.queue == k.queue
    requires k'.running == k.running && k'.idle == k.idle
    requires forall u :: u in k.threads ==> k'.threads[u].state == k.threads[u].state
    ensures Calm(k, k', t, n)
  {
    SameStatesSound(k, k');
    assert Live(k') == Live(k);
  }

  lemma TriggerCalm(k: Kernel, e: nat, drop: bool, t: nat, n: nat)
    requires Sound(k) && Waits(k, t, n) && e in k.events
    ensures Listeners(k, k.events[e].listeners) && Calm(k, Trigger(k, e, drop), t, n)
  {
    hide QueueSound, ThreadsSound, Potential, Live, WakeAll;
    EventListeners(k, e);
    if k.events[e].numListeners == 0 {
      FieldCalm(k, Trigger(k, e, drop), t, n);
    } else {
      WakeAllCalm(k, k.events[e].listeners, t, n);
    }
  }

  lemma SendCalm(k: Kernel, x: nat, signal: nat, t: nat, n: nat)
    requires Sound(k) && Waits(k, t, n) && x in k.threads
    ensures k.threads[x].signalEvent in k.events && Listeners(k, k.events[k.threads[x].signalEvent].listeners)
    ensures Calm(k, SendSignal(k, x, signal), t, n)
  {
    hide Sound, Potential, Live, QueueSound, Trigger;
    SendSignalSound(k, x, signal);
    SignalledSound(k, x, signal);
    var k1 := AddSignal(k, x, signal);
    var k2 := Enqueue(k1, x, Some(signal));
    FieldCalm(k, k1, t, n);
    EnqueueCalm(k1, x, Some(signal), t, n);
    CalmThenCalm(k, k1, k2, t, n);
    TriggerCalm(k2, k.threads[x].signalEvent, false, t, n);
    CalmThenCalm(k, k2, SendSignal(k, x, signal), t, n);
  }

  lemma SuspendCalm(k: Kernel, events: seq<Option<nat>>, t: nat, n: nat)
    requires Sound(k) && Waits(k, t, n) && Executing(k) && Known(k, events)
    requires forall i :: 0 <= i < |events| && events[i].Some? ==> k.events[events[i].value].pending == 0
    ensures Calm(k, Suspend(k, events), t, n)
  {
    hide QueueSound, EventsSound, ThreadsSound, ListenersSound, Potential, Live, Dequeue;
    var x := k.running;
    var k0 := WithThread(k, x, k.threads[x].(inWait := true));
    EnterSound(k);
    AddListenersSound(k0, x, events, 0);
    var k1 := AddListeners(k0, x, events, 0);
    FieldCalm(k, k1, t, n);
    DequeueCalm(k1, t, n);
    CalmThenCalm(k, k1, Dequeue(k1, x), t, n);
  }

  lemma WaitCalm(k: Kernel, events: seq<Option<nat>>, nonblocking: bool, t: nat, n: nat)
    requires Sound(k) && Waits(k, t, n) && Executing(k) && Known(k, events)
    ensures Calm(k, WaitState(k, events, nonblocking), t, n)
  {
    hide QueueSound, EventsSound, ThreadsSound, ListenersSound, Potential, Live, Suspend;
    var i := FirstPending(k, events, 0);
    if !HasPendingSignals(k.threads[k.running]) && i == |events| && !nonblocking {
      SuspendCalm(k, events, t, n);
    } else {
      FieldCalm(k, WaitState(k, events, nonblocking), t, n);
    }
  }

  lemma ClearCalm(k: Kernel, x: nat, t: nat, n: nat)
    requires Sound(k) && Waits(k, t, n) && x in k.threads && k.threads[x].state != BLOCKED
    ensures Unlinkable(k, k.threads[x].listeners) && Calm(k, ClearListeners(k, x), t, n)
  {
    hide Sound, QueueSound, Potential, Live;
    ClearListenersSound(k, x);
    ClearedFields(k, x);
    FieldCalm(k, ClearListeners(k, x), t, n);
  }

  lemma ReapCalm(k: Kernel, x: nat, t: nat, n: nat)
    requires Sound(k) && Waits(k, t, n) && x in k.threads
    requires k.threads[x].state == ZOMBIE && x != k.running && x != k.idle
    ensures Unlinkable(k, k.threads[x].listeners) && Calm(k, Reap(k, x), t, n)
  {
    hide EventsSound, ThreadsSound, ListenersSound, QueueSound, Potential, ClearListeners;
    ReapSound(k, x);
    ClearCalm(k, x, t, n);
    ClearListenersSound(k, x);
    ClearedFields(k, x);
    var k1 := ClearListeners(k, x);
    assert Live(Reap(k, x)) == Live(k1);
    assert Reap(k, x).queue == k1.queue && Reap(k, x).running == k1.running;
    SameViewCalm(k1, Reap(k, x), t, n);
    CalmThenCalm(k, k1, Reap(k, x), t, n);
  }

  lemma {:induction false} IoLoopCalm(s: System, call: Call, nonblocking: bool, t: nat, n: nat)
    requires SystemSound(s) && MayCall(s, call.pipe) && Waits(s.k, t, n)
    ensures Calm(s.k, IoLoop(s, call, nonblocking).k, t, n)
    decreases s.k.events[s.pipes[call.pipe].event].pending
  {
    hide Sound, Listeners, PipesSound, QueueSound, Potential, Live, Trigger, Suspend;
    var pipe := s.pipes[call.pipe];
    var e := pipe.event;
    var es := [Some(e)];
    if Proceeds(pipe, call) {
      TriggerCalm(s.k, e, false, t, n);
    } else if Fails(pipe, call) || nonblocking {
      FieldCalm(s.k, s.k, t, n);
    } else {
      var k1 := WaitState(s.k, es, false);
      WaitCalm(s.k, es, false, t, n);
      if WaitResultOf(s.k, es, false).Consumed? {
        ConsumeKeepsCallers(s, e);
        var s1 := s.(k := k1);
        EventKnown(s1.k, e);
        IoLoopCalm(s1, call, nonblocking, t, n);
        CalmThenCalm(s.k, k1, IoLoop(s1, call, nonblocking).k, t, n);
      } else if WaitResultOf(s.k, es, false).Interrupted? {
        FieldCalm(s.k, s.k, t, n);
      }
    }
  }

  // ----- runs -----

  lemma IoCalm(s: System, op: Op, t: nat, n: nat)
    requires SystemSound(s) && Enabled(s, op) && Waits(s.k, t, n)
    requires op.CreatePipe? || op.Open? || op.Close? || op.Begin? || op.GoOn?
    ensures Calm(s.k, ApplyToPipe(s, op).k, t, n)
  {
    hide Sound, PipesSound, IoLoop, Trigger, QueueSound, Potential, Live;
    match op
    case CreatePipe(p, e) => FieldCalm(s.k, NewPipe(s, p, e).k, t, n);
    case Open(_, _, _) => FieldCalm(s.k, s.k, t, n);
    case Close(p, _, _) =>
      PipeKnown(s, p);
      TriggerCalm(s.k, s.pipes[p].event, false, t, n);
    case Begin(call, nonblocking) =>
      PipeKnown(s, call.pipe);
      IoLoopCalm(s, call, nonblocking, t, n);
    case GoOn(nonblocking) =>
      ClearCalm(s.k, s.k.running, t, n);
      WokenSound(s);
      if s.k.threads[s.k.running].bySignal.None? {
        IoLoopCalm(Woken(s), s.calls[s.k.running], nonblocking, t, n);
        CalmThenCalm(s.k, Woken(s).k, ApplyToPipe(s, op).k, t, n);
      }
  }

  lemma ApplyCalm(s: System, op: Op, t: nat, n: nat)
    requires SystemSound(s) && Enabled(s, op) && Waits(s.k, t, n)
    requires !op.Tick? && !op.Create? && op != Exit(t)
    ensures Calm(s.k, Apply(s, op).k, t, n)
  {
    hide Sound, PipesSound, ApplyToPipe, Reap, WaitState, Trigger, SendSignal, QueueSound, Potential, Live, Terminate;
    match op
    case Fire(e, drop) => TriggerCalm(s.k, e, drop, t, n);
    case Send(x, signal) => SendCalm(s.k, x, signal, t, n);
    case Dispatch(signal) => FieldCalm(s.k, DispatchSignal(s.k, s.k.running, signal), t, n);
    case Mask(how, signals) => FieldCalm(s.k, SetMask(s.k, s.k.running, how, signals), t, n);
    case Block(events, nonblocking) => WaitCalm(s.k, events, nonblocking, t, n);
    case Resume => ClearCalm(s.k, s.k.running, t, n);
    case Exit(x) => TerminateCalm(s.k, x, t, n);
    case Destroy(x) => ReapCalm(s.k, x, t, n);
    case _ => IoCalm(s, op, t, n);
  }

  // A run with a fixed set of threads in which t does not end and the scheduler never picks it.
  ghost predicate NeverPicked(s: System, ops: seq<Op>, t: nat)
    requires SystemSound(s)
    decreases ops
  {
    ops == [] || (
      && Enabled(s, ops[0]) && !ops[0].Create? && ops[0] != Exit(t)
      && (ops[0].Tick? ==> Next(s.k.queue, s.k.running, s.k.idle) != t)
      && (ApplySound(s, ops[0]); NeverPicked(Apply(s, ops[0]), ops[1..], t)))
  }

  function Ticks(ops: seq<Op>): nat {
    if ops == [] then 0 else (if ops[0].Tick? then 1 else 0) + Ticks(ops[1..])
  }

  lemma {:induction false} TicksBounded(s: System, ops: seq<Op>, t: nat, n: nat)
    requires SystemSound(s) && Waits(s.k, t, n) && NeverPicked(s, ops, t)
    ensures Ticks(ops) <= Potential(s.k, t, n)
    decreases ops
  {
    hide Sound, PipesSound, QueueSound;
    PotentialInRange(s.k, t, n);
    if ops != [] {
      ApplySound(s, ops[0]);
      if ops[0].Tick? {
        ScheduleCloser(s.k, t, n);
      } else {
        ApplyCalm(s, ops[0], t, n);
      }
      TicksBounded(Apply(s, ops[0]), ops[1..], t, n);
    }
  }

  lemma PotentialInRange(k: Kernel, t: nat, n: nat)
    requires Waits(k, t, n)
    ensures 0 <= Potential(k, t, n) < 2 * n * n + n
  {
    hide Place, Live, NoDuplicates;
    QueueWithinLive(k);
    QueuedLive(k, k.running);
    Present(k.queue, t);
    if k.running in k.queue {
      Present(k.queue, k.running);
    } else {
      Absent(k.queue, k.running);
    }
    var p, c, live := Place(k.queue, t), Place(k.queue, k.running), |Live(k)|;
    InRange(p, Distance(p, c, |k.queue|, live, k.running in Live(k)), n);
  }

  lemma InRange(p: nat, d: nat, n: nat)
    requires p < n && d <= 2 * n
    ensures 0 <= p * (2 * n + 1) + d < 2 * n * n + n
  {
    var rest := n - 1 - p;
    assert rest * (2 * n + 1) >= 0;
    assert (p + rest) * (2 * n + 1) == p * (2 * n + 1) + rest * (2 * n + 1);
    assert (n - 1) * (2 * n + 1) == 2 * n * n - n - 1;
  }

  /**
   Bounded waiting: with n live threads and none created, a thread on the run queue is picked within 2 n^2 + n
   scheduler calls, whatever the other threads, signals and interrupts do.
   */
  lemma PickedWithinBound(s: System, ops: seq<Op>, t: nat)
    requires SystemSound(s) && t in s.k.queue && t != s.k.running && NeverPicked(s, ops, t)
    ensures var n := |Live(s.k)|; Ticks(ops) < 2 * n * n + n
  {
    TicksBounded(s, ops, t, |Live(s.k)|);
    PotentialInRange(s.k, t, |Live(s.k)|);
  }
}
