/**
 Pipes (kernel/kernel/src/userland/pipe.cpp) on top of threads and events, as a transition system: every step
 runs with interrupts off, from one point where a thread can lose the processor to the next.
 */
module Pipes {

  import opened Algorithm
  import opened Lists
  import opened Scheduling

  const CAPACITY: nat := 0x1000

  type Byte = bv8

  // accepted and taken record all bytes that ever entered and left the pipe.
  datatype Pipe = Pipe(readers: nat, writers: nat, event: nat, buffer: seq<Byte>, accepted: seq<Byte>, taken: seq<Byte>)

  // What a thread that waits inside a pipe operation goes on with.
  datatype Call = Reading(pipe: nat, count: nat) | Writing(pipe: nat, bytes: seq<Byte>)

  datatype System = System(k: Kernel, pipes: map<nat, Pipe>, calls: map<nat, Call>)

  datatype IoResult = Data(bytes: seq<Byte>) | Written(n: nat) | TryAgain | BrokenPipe | IoInterrupted | Waiting

  ghost predicate PipeSound(k: Kernel, p: Pipe) {
    p.event in k.events && |p.buffer| <= CAPACITY && p.accepted == p.taken + p.buffer
  }

  // The thread waits for one event only.
  ghost predicate WaitsOn(k: Kernel, x: Thread, e: nat) {
    x.inWait && |x.listeners| == 1 && x.listeners[0] in k.listeners && k.listeners[x.listeners[0]].event == e
  }

  // A blocked reader has nothing to read and someone to wait for; a blocked writer has no room and a reader.
  ghost predicate MustWait(p: Pipe, call: Call) {
    match call
    case Reading(_, _) => p.buffer == [] && p.writers > 0
    case Writing(_, _) => |p.buffer| == CAPACITY && p.readers > 0
  }

  ghost predicate CallSound(s: System, t: nat, call: Call) {
    && t in s.k.threads && t != s.k.idle && call.pipe in s.pipes
    && WaitsOn(s.k, s.k.threads[t], s.pipes[call.pipe].event)
    && (s.k.threads[t].state == BLOCKED ==> MustWait(s.pipes[call.pipe], call))
  }

  ghost predicate PipesSound(s: System) {
    && (forall p :: p in s.pipes ==> PipeSound(s.k, s.pipes[p]))
    && (forall t :: t in s.calls ==> CallSound(s, t, s.calls[t]))
  }

  ghost predicate SystemSound(s: System) {
    Sound(s.k) && PipesSound(s)
  }

  // A step of the kernel after which every waiting caller listens as before and none is newly blocked.
  ghost predicate CallersKept(s: System, k': Kernel) {
    && s.k.events.Keys <= k'.events.Keys && k'.idle == s.k.idle
    && (forall t :: t in s.calls && t in s.k.threads ==>
          && t in k'.threads
          && k'.threads[t].listeners == s.k.threads[t].listeners && k'.threads[t].inWait == s.k.threads[t].inWait
          && (k'.threads[t].state == BLOCKED ==> s.k.threads[t].state == BLOCKED)
          && (forall id :: id in s.k.threads[t].listeners && id in s.k.listeners ==>
                id in k'.listeners && k'.listeners[id] == s.k.listeners[id]))
  }

  lemma KernelStepKeepsPipes(s: System, k': Kernel)
    requires PipesSound(s) && CallersKept(s, k')
    ensures PipesSound(s.(k := k'))
  {
    forall t | t in s.calls ensures CallSound(s.(k := k'), t, s.calls[t]) {
      assert CallSound(s, t, s.calls[t]);
    }
  }

  // A change of one pipe followed by a trigger of its event.
  ghost function ChangePipe(s: System, p: nat, pipe: Pipe): System
    requires p in s.pipes && s.pipes[p].event in s.k.events && Listeners(s.k, s.k.events[s.pipes[p].event].listeners)
  {
    s.(k := Trigger(s.k, s.pipes[p].event, false), pipes := s.pipes[p := pipe])
  }

  lemma TriggerKeepsCallers(s: System, e: nat)
    requires SystemSound(s) && e in s.k.events
    ensures Listeners(s.k, s.k.events[e].listeners) && CallersKept(s, Trigger(s.k, e, false))
  {
    hide Sound, Trigger, PipesSound;
    TriggerSound(s.k, e, false);
    TriggerNeverBlocks(s.k, e, false);
    TriggerKeepsEvents(s.k, e, false);
  }

  lemma TriggerKeepsEvents(k: Kernel, e: nat, drop: bool)
    requires Sound(k) && e in k.events && Listeners(k, k.events[e].listeners)
    ensures Trigger(k, e, drop).events.Keys == k.events.Keys && Trigger(k, e, drop).idle == k.idle
  {
    hide EventsSound, ThreadsSound, ListenersSound, QueueSound, WakeAll;
    WakeAllEffect(k, k.events[e].listeners);
  }

  // No caller of the pipe is blocked after its event was triggered, so that the pipe may change at will.
  lemma ChangePipeSound(s: System, p: nat, pipe: Pipe)
    requires SystemSound(s) && p in s.pipes && PipeSound(s.k, pipe) && pipe.event == s.pipes[p].event
    ensures s.pipes[p].event in s.k.events && Listeners(s.k, s.k.events[s.pipes[p].event].listeners)
    ensures SystemSound(ChangePipe(s, p, pipe)) && ChangePipe(s, p, pipe).k.running == s.k.running
  {
    hide Sound, Trigger;
    var e := s.pipes[p].event;
    assert PipeSound(s.k, s.pipes[p]);
    TriggerKeepsCallers(s, e);
    TriggerSound(s.k, e, false);
    TriggerWakesAll(s.k, e, false);
    var s1, s' := s.(k := Trigger(s.k, e, false)), ChangePipe(s, p, pipe);
    KernelStepKeepsPipes(s, s1.k);
    forall q | q in s'.pipes ensures PipeSound(s'.k, s'.pipes[q]) {
      assert PipeSound(s1.k, s1.pipes[if q == p then p else q]);
    }
    forall t | t in s'.calls ensures CallSound(s', t, s'.calls[t]) {
      assert CallSound(s, t, s.calls[t]);
      assert CallSound(s1, t, s1.calls[t]);
      if s.calls[t].pipe == p {
        assert s'.k.threads[t].state != BLOCKED by {
          OwnListenerWoken(s, t, e);
        }
      }
    }
  }

  lemma OwnListenerWoken(s: System, t: nat, e: nat)
    requires SystemSound(s) && t in s.k.threads && WaitsOn(s.k, s.k.threads[t], e) && e in s.k.events
    ensures Listeners(s.k, s.k.events[e].listeners)
    ensures t in Trigger(s.k, e, false).threads && Trigger(s.k, e, false).threads[t].state != BLOCKED
  {
    hide QueueSound, EventsSound, PipesSound, Trigger, EventSound;
    TriggerWakesAll(s.k, e, false);
    TriggerSound(s.k, e, false);
    assert ThreadSound(s.k.threads[t], t, s.k.listeners);
  }

  // ----- open and close -----

  function Opened(p: Pipe, reading: bool, writing: bool): Pipe {
    p.(readers := p.readers + (if reading then 1 else 0), writers := p.writers + (if writing then 1 else 0))
  }

  function Closed(p: Pipe, reading: bool, writing: bool): Pipe
    requires (reading ==> p.readers > 0) && (writing ==> p.writers > 0)
  {
    p.(readers := p.readers - (if reading then 1 else 0), writers := p.writers - (if writing then 1 else 0))
  }

  // Opening does not trigger: one more reader or writer gives nobody a reason to wake up.
  lemma OpenSound(s: System, p: nat, reading: bool, writing: bool)
    requires PipesSound(s) && p in s.pipes
    ensures PipesSound(s.(pipes := s.pipes[p := Opened(s.pipes[p], reading, writing)]))
  {
    var s' := s.(pipes := s.pipes[p := Opened(s.pipes[p], reading, writing)]);
    forall q | q in s'.pipes ensures PipeSound(s'.k, s'.pipes[q]) {
      assert PipeSound(s.k, s.pipes[q]);
    }
    forall t | t in s'.calls ensures CallSound(s', t, s'.calls[t]) {
      assert CallSound(s, t, s.calls[t]);
    }
  }

  // ----- the condition loops of read and write -----

  function Taken(p: Pipe, count: nat): Pipe {
    var n := Min(count, |p.buffer|);
    p.(buffer := p.buffer[n..], taken := p.taken + p.buffer[..n])
  }

  function Accepted(p: Pipe, bytes: seq<Byte>): Pipe
    requires |p.buffer| <= CAPACITY
  {
    var n := Min(|bytes|, CAPACITY - |p.buffer|);
    p.(buffer := p.buffer + bytes[..n], accepted := p.accepted + bytes[..n])
  }

  // The running thread may execute a pipe operation on a pipe that is open.
  ghost predicate MayCall(s: System, p: nat) {
    && Executing(s.k) && s.k.running !in s.calls && p in s.pipes
    && PipeSound(s.k, s.pipes[p]) && Listeners(s.k, s.k.events[s.pipes[p].event].listeners)
  }

  ghost predicate Proceeds(p: Pipe, call: Call) {
    match call
    case Reading(_, _) => p.buffer != []
    case Writing(_, _) => p.readers > 0 && |p.buffer| < CAPACITY
  }

  ghost predicate Fails(p: Pipe, call: Call) {
    match call
    case Reading(_, _) => p.buffer == [] && p.writers == 0
    case Writing(_, _) => p.readers == 0
  }

  function Transfer(p: Pipe, call: Call): Pipe
    requires |p.buffer| <= CAPACITY
  {
    match call
    case Reading(_, count) => Taken(p, count)
    case Writing(_, bytes) => Accepted(p, bytes)
  }

  // One pass through the condition loop after another, until the call returns or its thread gives up the processor.
  ghost function IoLoop(s: System, call: Call, nonblocking: bool): System
    requires MayCall(s, call.pipe)
    decreases s.k.events[s.pipes[call.pipe].event].pending
  {
    var pipe := s.pipes[call.pipe];
    if Proceeds(pipe, call) then ChangePipe(s, call.pipe, Transfer(pipe, call))
    else if Fails(pipe, call) || nonblocking then s
    else
      var k := WaitState(s.k, [Some(pipe.event)], false);
      match WaitResultOf(s.k, [Some(pipe.event)], false)
      case Consumed(_) => IoLoop(s.(k := k), call, nonblocking)
      case Suspended => s.(k := k, calls := s.calls[s.k.running := call])
      case _ => s
  }

  ghost function IoLoopResult(s: System, call: Call, nonblocking: bool): IoResult
    requires MayCall(s, call.pipe)
    decreases s.k.events[s.pipes[call.pipe].event].pending
  {
    var pipe := s.pipes[call.pipe];
    if Proceeds(pipe, call) then
      (match call
       case Reading(_, count) => Data(pipe.buffer[..Min(count, |pipe.buffer|)])
       case Writing(_, bytes) => Written(Min(|bytes|, CAPACITY - |pipe.buffer|)))
    else if Fails(pipe, call) then (if call.Reading? then Data([]) else BrokenPipe)
    else if nonblocking then TryAgain
    else
      var k := WaitState(s.k, [Some(pipe.event)], false);
      match WaitResultOf(s.k, [Some(pipe.event)], false)
      case Consumed(_) => IoLoopResult(s.(k := k), call, nonblocking)
      case Suspended => Waiting
      case _ => IoInterrupted
  }

  lemma TransferSound(k: Kernel, p: Pipe, call: Call)
    requires PipeSound(k, p)
    ensures PipeSound(k, Transfer(p, call)) && Transfer(p, call).event == p.event
  {
    match call
    case Reading(_, count) =>
      var n := Min(count, |p.buffer|);
      assert p.buffer == p.buffer[..n] + p.buffer[n..];
    case Writing(_, bytes) =>
  }

  // After a wait for one event that found nothing, the thread listens to that event and is blocked.
  lemma SuspendWaitsOn(k: Kernel, e: nat)
    requires Sound(k) && Executing(k) && e in k.events && k.events[e].pending == 0
    ensures Known(k, [Some(e)]) && Sound(Suspend(k, [Some(e)]))
    ensures var k' := Suspend(k, [Some(e)]);
      && k'.running == k.running && k'.idle == k.idle && k'.threads.Keys == k.threads.Keys
      && k'.events.Keys == k.events.Keys
      && WaitsOn(k', k'.threads[k.running], e) && k'.threads[k.running].state == BLOCKED
      && (forall u :: u in k.threads && u != k.running ==> k'.threads[u] == k.threads[u])
      && (forall id :: id in k.listeners ==> id in k'.listeners && k'.listeners[id] == k.listeners[id])
  {
    hide QueueSound, EventsSound, ListenersSound, EventSound, Suspend;
    SuspendSound(k, [Some(e)]);
    assert k.threads[k.running].listeners == [] by {
      assert ThreadSound(k.threads[k.running], k.running, k.listeners);
    }
    OneListener(k, e);
  }

  lemma OneListener(k: Kernel, e: nat)
    requires k.running in k.threads && Runnable(k.threads[k.running].state) && e in k.events
    requires k.threads[k.running].listeners == []
    ensures Known(k, [Some(e)])
    ensures var k' := Suspend(k, [Some(e)]);
      && k'.events.Keys == k.events.Keys && k'.idle == k.idle && k'.running in k'.threads
      && k'.running == k.running && WaitsOn(k', k'.threads[k.running], e)
  {
    var t := k.running;
    var k0 := WithThread(k, t, k.threads[t].(inWait := true));
    assert AddListeners(k0, t, [Some(e)], 0) == AddListener(k0, t, e, 0);
  }

  lemma ConsumeKeepsCallers(s: System, e: nat)
    requires SystemSound(s) && Executing(s.k) && e in s.k.events && s.k.events[e].pending > 0
    ensures var k' := AddPending(s.k, e, s.k.events[e].pending - 1);
      Sound(k') && PipesSound(s.(k := k')) && Executing(k')
  {
    hide Sound, PipesSound;
    ConsumeSound(s.k, e);
    KernelStepKeepsPipes(s, AddPending(s.k, e, s.k.events[e].pending - 1));
  }

  lemma SuspendedSound(s: System, call: Call)
    requires SystemSound(s) && MayCall(s, call.pipe) && s.k.events[s.pipes[call.pipe].event].pending == 0
    requires MustWait(s.pipes[call.pipe], call)
    ensures var e := s.pipes[call.pipe].event;
      && Known(s.k, [Some(e)])
      && SystemSound(s.(k := Suspend(s.k, [Some(e)]), calls := s.calls[s.k.running := call]))
  {
    hide Sound, Suspend, Listeners;
    var e := s.pipes[call.pipe].event;
    SuspendWaitsOn(s.k, e);
    var s' := s.(k := Suspend(s.k, [Some(e)]), calls := s.calls[s.k.running := call]);
    forall q | q in s'.pipes ensures PipeSound(s'.k, s'.pipes[q]) {
      assert PipeSound(s.k, s.pipes[q]);
    }
    forall t | t in s'.calls ensures CallSound(s', t, s'.calls[t]) {
      assert t != s.k.running ==> CallSound(s, t, s.calls[t]);
    }
  }

  /** Reading and writing keep every blocked caller of every pipe waiting for something that has not happened. */
  lemma {:induction false} IoLoopSound(s: System, call: Call, nonblocking: bool)
    requires SystemSound(s) && MayCall(s, call.pipe)
    ensures SystemSound(IoLoop(s, call, nonblocking))
    decreases s.k.events[s.pipes[call.pipe].event].pending
  {
    hide Sound, Listeners, PipesSound;
    var pipe := s.pipes[call.pipe];
    if Proceeds(pipe, call) {
      TransferSound(s.k, pipe, call);
      ChangePipeSound(s, call.pipe, Transfer(pipe, call));
    } else if !Fails(pipe, call) && !nonblocking {
      assert MustWait(pipe, call);
      var e := pipe.event;
      var es := [Some(e)];
      assert FirstPending(s.k, es, 0) == 0 <==> s.k.events[e].pending > 0;
      match WaitResultOf(s.k, es, false)
      case Consumed(_) =>
        ConsumeKeepsCallers(s, e);
        var s1 := s.(k := WaitState(s.k, es, false));
        assert Listeners(s1.k, s1.k.events[e].listeners) by {
          EventKnown(s1.k, e);
        }
        IoLoopSound(s1, call, nonblocking);
      case Suspended => SuspendedSound(s, call);
      case _ =>
    }
  }

  lemma EventKnown(k: Kernel, e: nat)
    requires Sound(k) && e in k.events
    ensures Listeners(k, k.events[e].listeners)
  {
    EventListeners(k, e);
  }

  // The net effect of the loop when the call can neither go on nor fail: stale triggers are used up, then it waits.
  lemma {:induction false} IoLoopBlocks(s: System, call: Call)
    requires SystemSound(s) && MayCall(s, call.pipe) && !HasPendingSignals(s.k.threads[s.k.running])
    requires !Proceeds(s.pipes[call.pipe], call) && !Fails(s.pipes[call.pipe], call)
    ensures IoLoopResult(s, call, false) == Waiting
    ensures var e := s.pipes[call.pipe].event;
      var k0 := AddPending(s.k, e, 0);
      Known(k0, [Some(e)]) && IoLoop(s, call, false) == s.(k := Suspend(k0, [Some(e)]), calls := s.calls[s.k.running := call])
    decreases s.k.events[s.pipes[call.pipe].event].pending
  {
    hide Sound, Listeners, PipesSound, Suspend;
    var pipe := s.pipes[call.pipe];
    var e := pipe.event;
    var es := [Some(e)];
    assert FirstPending(s.k, es, 0) == 0 <==> s.k.events[e].pending > 0;
    if s.k.events[e].pending > 0 {
      ConsumeKeepsCallers(s, e);
      var s1 := s.(k := WaitState(s.k, es, false));
      assert Listeners(s1.k, s1.k.events[e].listeners) by {
        EventKnown(s1.k, e);
      }
      IoLoopBlocks(s1, call);
      assert AddPending(s1.k, e, 0) == AddPending(s.k, e, 0);
    } else {
      assert AddPending(s.k, e, 0) == s.k by {
        assert s.k.events[e := s.k.events[e].(pending := 0)] == s.k.events;
      }
    }
  }

  // ----- the thread runs again -----

  // The running thread is inside a pipe operation and has been woken.
  ghost predicate MayResume(s: System) {
    && s.k.running in s.k.threads && s.k.threads[s.k.running].state == RUNNING && s.k.running in s.calls
    && Unlinkable(s.k, s.k.threads[s.k.running].listeners)
  }

  // The listeners are cleared and the call is taken off the list of suspended ones.
  ghost function Woken(s: System): System
    requires MayResume(s)
  {
    s.(k := ResumeState(s.k), calls := s.calls - {s.k.running})
  }

  lemma WokenSound(s: System)
    requires SystemSound(s) && MayResume(s)
    ensures SystemSound(Woken(s)) && MayCall(Woken(s), s.calls[s.k.running].pipe)
  {
    hide Sound;
    var t := s.k.running;
    ClearListenersSound(s.k, t);
    ClearedFields(s.k, t);
    var s' := Woken(s);
    assert CallSound(s, t, s.calls[t]);
    forall q | q in s'.pipes ensures PipeSound(s'.k, s'.pipes[q]) {
      assert PipeSound(s.k, s.pipes[q]);
    }
    forall u | u in s'.calls ensures CallSound(s', u, s'.calls[u]) {
      assert CallSound(s, u, s.calls[u]);
      ListenerOfOther(s.k, u, t);
    }
    EventKnown(s'.k, s.pipes[s.calls[t].pipe].event);
  }

  lemma ClearedFields(k: Kernel, t: nat)
    requires t in k.threads && Unlinkable(k, k.threads[t].listeners) && Sound(k)
    ensures var k' := ClearListeners(k, t);
      && k'.threads == k.threads[t := k.threads[t].(listeners := [], inWait := false)] && k'.idle == k.idle
      && k'.running == k.running
  {
    OwnListeners(k, t);
    UnlinkAllEffect(k, k.threads[t].listeners);
  }

  lemma ListenerOfOther(k: Kernel, u: nat, t: nat)
    requires Sound(k) && u in k.threads && |k.threads[u].listeners| == 1 && u != t
    ensures k.threads[u].listeners[0] in k.listeners && k.listeners[k.threads[u].listeners[0]].thread != t
  {
    hide QueueSound, EventsSound, ListenersSound;
    assert ThreadSound(k.threads[u], u, k.listeners);
  }

  // ----- all steps -----

  datatype Op =
    | Tick
    | Fire(event: nat, drop: bool)
    | Send(thread: nat, signal: nat)
    | Dispatch(signal: nat)
    | Mask(how: MaskHow, signals: set<nat>)
    | Block(events: seq<Option<nat>>, nonblocking: bool)
    | Resume
    | Exit(thread: nat)
    | Destroy(thread: nat)
    | Create(thread: nat, event: nat)
    | CreatePipe(pipe: nat, event: nat)
    | Open(pipe: nat, reading: bool, writing: bool)
    | Close(pipe: nat, reading: bool, writing: bool)
    | Begin(call: Call, nonblocking: bool)
    | GoOn(nonblocking: bool)

  // Whether a step can happen; the program counters of the threads decide which of their steps comes next.
  ghost predicate Enabled(s: System, op: Op) {
    match op
    case Tick => true
    case Fire(e, _) => e in s.k.events
    case Send(t, _) => t in s.k.threads
    case Dispatch(_) => s.k.running in s.k.threads && s.k.threads[s.k.running].state == RUNNING
    case Mask(_, _) => s.k.running in s.k.threads && s.k.threads[s.k.running].state == RUNNING
    case Block(events, _) => Executing(s.k) && s.k.running !in s.calls && Known(s.k, events)
    case Resume =>
      s.k.running in s.k.threads && s.k.threads[s.k.running].state == RUNNING && s.k.running !in s.calls
    case Exit(t) => t in s.k.threads && t != s.k.idle
    case Destroy(t) => t in s.k.threads && s.k.threads[t].state == ZOMBIE && t != s.k.running && t != s.k.idle
    case Create(t, e) => t !in s.k.threads && e !in s.k.events
    case CreatePipe(p, e) => p !in s.pipes && e !in s.k.events
    case Open(p, _, _) => p in s.pipes
    case Close(p, reading, writing) =>
      p in s.pipes && (reading ==> s.pipes[p].readers > 0) && (writing ==> s.pipes[p].writers > 0)
    case Begin(call, _) => Executing(s.k) && s.k.running !in s.calls && call.pipe in s.pipes
    case GoOn(_) =>
      s.k.running in s.k.threads && s.k.threads[s.k.running].state == RUNNING && s.k.running in s.calls
  }

  // pipe_impl opens a new pipe once for reading and once for writing.
  function NewPipe(s: System, p: nat, e: nat): System {
    s.(k := s.k.(events := s.k.events[e := Event(0, 0, [])]), pipes := s.pipes[p := Pipe(1, 1, e, [], [], [])])
  }

  // A woken thread that goes on with its pipe operation.
  ghost function GoOnState(s: System, nonblocking: bool): System
    requires SystemSound(s) && Enabled(s, GoOn(nonblocking))
  {
    OwnListeners(s.k, s.k.running);
    WokenSound(s);
    // A thread that a signal has woken returns without looking at the pipe again.
    if s.k.threads[s.k.running].bySignal.Some? then Woken(s)
    else IoLoop(Woken(s), s.calls[s.k.running], nonblocking)
  }

  ghost function ApplyToPipe(s: System, op: Op): System
    requires SystemSound(s) && Enabled(s, op)
    requires op.CreatePipe? || op.Open? || op.Close? || op.Begin? || op.GoOn?
  {
    match op
    case CreatePipe(p, e) => NewPipe(s, p, e)
    case Open(p, reading, writing) => s.(pipes := s.pipes[p := Opened(s.pipes[p], reading, writing)])
    case Close(p, reading, writing) =>
      PipeKnown(s, p);
      ChangePipe(s, p, Closed(s.pipes[p], reading, writing))
    case Begin(call, nonblocking) =>
      PipeKnown(s, call.pipe);
      IoLoop(s, call, nonblocking)
    case GoOn(nonblocking) => GoOnState(s, nonblocking)
  }

  ghost function Apply(s: System, op: Op): System
    requires SystemSound(s) && Enabled(s, op)
  {
    match op
    case Tick => ScheduleKeepsSound(s.k); s.(k := Schedule(s.k))
    case Fire(e, drop) => TriggerSound(s.k, e, drop); s.(k := Trigger(s.k, e, drop))
    case Send(t, signal) => SendSignalSound(s.k, t, signal); s.(k := SendSignal(s.k, t, signal))
    case Dispatch(signal) => s.(k := DispatchSignal(s.k, s.k.running, signal))
    case Mask(how, signals) => s.(k := SetMask(s.k, s.k.running, how, signals))
    case Block(events, nonblocking) => s.(k := WaitState(s.k, events, nonblocking))
    case Resume => OwnListeners(s.k, s.k.running); s.(k := ResumeState(s.k))
    case Exit(t) => s.(k := Terminate(s.k, t))
    case Destroy(t) => OwnListeners(s.k, t); s.(k := Reap(s.k, t), calls := s.calls - {t})
    case Create(t, e) => s.(k := Spawn(s.k, t, e))
    case _ => ApplyToPipe(s, op)
  }

  lemma PipeKnown(s: System, p: nat)
    requires SystemSound(s) && p in s.pipes
    ensures PipeSound(s.k, s.pipes[p]) && Listeners(s.k, s.k.events[s.pipes[p].event].listeners)
  {
    hide Sound;
    EventKnown(s.k, s.pipes[p].event);
  }

  lemma BlockSound(s: System, events: seq<Option<nat>>, nonblocking: bool)
    requires SystemSound(s) && Executing(s.k) && s.k.running !in s.calls && Known(s.k, events)
    ensures SystemSound(s.(k := WaitState(s.k, events, nonblocking)))
  {
    hide Sound, Suspend, PipesSound;
    WaitSound(s.k, events, nonblocking);
    var i := FirstPending(s.k, events, 0);
    if !HasPendingSignals(s.k.threads[s.k.running]) && i == |events| && !nonblocking {
      SuspendSound(s.k, events);
      SuspendKeepsEvents(s.k, events);
    }
    KernelStepKeepsPipes(s, WaitState(s.k, events, nonblocking));
  }

  lemma SuspendKeepsEvents(k: Kernel, events: seq<Option<nat>>)
    requires k.running in k.threads && Runnable(k.threads[k.running].state) && Known(k, events)
    ensures Suspend(k, events).events.Keys == k.events.Keys && Suspend(k, events).idle == k.idle
  {
    AddingKeepsEvents(WithThread(k, k.running, k.threads[k.running].(inWait := true)), k.running, events, 0);
  }

  lemma {:induction false} AddingKeepsEvents(k: Kernel, t: nat, events: seq<Option<nat>>, i: nat)
    requires i <= |events| && t in k.threads && Known(k, events)
    ensures AddListeners(k, t, events, i).events.Keys == k.events.Keys && AddListeners(k, t, events, i).idle == k.idle
    decreases |events| - i
  {
    if i < |events| {
      if events[i].None? {
        AddingKeepsEvents(k, t, events, i + 1);
      } else {
        AddingKeepsEvents(AddListener(k, t, events[i].value, i), t, events, i + 1);
      }
    }
  }

  // Clearing the listeners of a thread that is in no pipe operation.
  lemma ClearingKeepsPipes(s: System, t: nat)
    requires SystemSound(s) && t in s.k.threads && t !in s.calls && Unlinkable(s.k, s.k.threads[t].listeners)
    requires s.k.threads[t].state != BLOCKED
    ensures PipesSound(s.(k := ClearListeners(s.k, t)))
  {
    hide Sound;
    ClearListenersSound(s.k, t);
    ClearedFields(s.k, t);
    var k' := ClearListeners(s.k, t);
    forall q | q in s.pipes ensures PipeSound(k', s.pipes[q]) {
      assert PipeSound(s.k, s.pipes[q]);
    }
    forall u | u in s.calls ensures CallSound(s.(k := k'), u, s.calls[u]) {
      assert CallSound(s, u, s.calls[u]);
      ListenerOfOther(s.k, u, t);
    }
  }

  lemma NewPipeSound(s: System, p: nat, e: nat)
    requires SystemSound(s) && p !in s.pipes && e !in s.k.events
    ensures SystemSound(NewPipe(s, p, e))
  {
    hide QueueSound, PipesSound;
    var s' := NewPipe(s, p, e);
    SameStatesSound(s.k, s'.k);
    forall f | f in s'.k.events ensures EventSound(s'.k.events[f], f, s'.k.listeners) {
      assert f != e ==> EventSound(s.k.events[f], f, s.k.listeners);
    }
    forall id | id in s'.k.listeners ensures ListenerSound(s'.k, s'.k.listeners[id], id) {
      assert ListenerSound(s.k, s.k.listeners[id], id);
    }
    KernelStepKeepsPipes(s, s'.k);
    NewPipeAlone(s.(k := s'.k), p, e);
  }

  lemma NewPipeAlone(s: System, p: nat, e: nat)
    requires PipesSound(s) && p !in s.pipes && e in s.k.events
    ensures PipesSound(s.(pipes := s.pipes[p := Pipe(1, 1, e, [], [], [])]))
  {
    var s' := s.(pipes := s.pipes[p := Pipe(1, 1, e, [], [], [])]);
    forall t | t in s'.calls ensures CallSound(s', t, s'.calls[t]) {
      assert CallSound(s, t, s.calls[t]);
    }
  }

  lemma DestroySound(s: System, t: nat)
    requires SystemSound(s) && Enabled(s, Destroy(t))
    ensures Unlinkable(s.k, s.k.threads[t].listeners)
    ensures SystemSound(s.(k := Reap(s.k, t), calls := s.calls - {t}))
  {
    hide Sound;
    ReapSound(s.k, t);
    var s0 := s.(calls := s.calls - {t});
    assert PipesSound(s0) by {
      forall u | u in s0.calls ensures CallSound(s0, u, s0.calls[u]) {
        assert CallSound(s, u, s.calls[u]);
      }
    }
    ClearingKeepsPipes(s0, t);
    ClearedFields(s.k, t);
    KernelStepKeepsPipes(s0.(k := ClearListeners(s.k, t)), Reap(s.k, t));
  }

  lemma ApplyToPipeSound(s: System, op: Op)
    requires SystemSound(s) && Enabled(s, op)
    requires op.CreatePipe? || op.Open? || op.Close? || op.Begin? || op.GoOn?
    ensures SystemSound(ApplyToPipe(s, op))
  {
    hide Sound, PipesSound, IoLoop, ChangePipe;
    match op
    case CreatePipe(p, e) => NewPipeSound(s, p, e);
    case Open(p, reading, writing) => OpenSound(s, p, reading, writing);
    case Close(p, reading, writing) =>
      PipeKnown(s, p);
      ChangePipeSound(s, p, Closed(s.pipes[p], reading, writing));
    case Begin(call, nonblocking) =>
      PipeKnown(s, call.pipe);
      IoLoopSound(s, call, nonblocking);
    case GoOn(nonblocking) =>
      OwnListeners(s.k, s.k.running) by {
        SoundParts(s.k);
      }
      WokenSound(s);
      if s.k.threads[s.k.running].bySignal.None? {
        IoLoopSound(Woken(s), s.calls[s.k.running], nonblocking);
      }
  }

  lemma SoundParts(k: Kernel)
    requires Sound(k)
    ensures QueueSound(k) && EventsSound(k) && ThreadsSound(k) && ListenersSound(k)
  {
  }

  // The steps of the scheduler, of events and of signals.
  lemma ApplyToKernelSound(s: System, op: Op)
    requires SystemSound(s) && Enabled(s, op)
    requires op.Tick? || op.Fire? || op.Send? || op.Dispatch? || op.Mask? || op.Exit? || op.Create?
    ensures SystemSound(Apply(s, op))
  {
    hide PipesSound, Schedule, Trigger, SendSignal, QueueSound, EventSound, ThreadSound, ListenerSound;
    var s' := Apply(s, op);
    match op {
      case Tick => ScheduleKeepsSound(s.k);
      case Fire(e, drop) =>
        TriggerSound(s.k, e, drop);
        TriggerNeverBlocks(s.k, e, drop);
        TriggerKeepsEvents(s.k, e, drop);
      case Send(t, signal) =>
        SendSignalSound(s.k, t, signal);
        SendKeepsCallers(s.k, t, signal);
      case Dispatch(_) | Mask(_, _) => SignalsOnlySound(s.k, s.k.running, s'.k.threads[s.k.running]);
      case Exit(t) => TerminateKeepsSound(s.k, t);
      case Create(t, e) => SpawnSound(s.k, t, e);
    }
    KernelStepKeepsPipes(s, s'.k);
  }

  // One thread has or masks other signals.
  lemma SignalsOnlySound(k: Kernel, t: nat, x: Thread)
    requires Sound(k) && t in k.threads && x.state == k.threads[t].state && x.inWait == k.threads[t].inWait
    requires x.listeners == k.threads[t].listeners && x.signalEvent == k.threads[t].signalEvent
    ensures Sound(WithThread(k, t, x)) && ListensAlike(k, WithThread(k, t, x))
  {
    hide QueueSound, EventsSound, ThreadsSound, ListenersSound;
    SameStatesSound(k, WithThread(k, t, x));
    ListensAlikeSound(k, WithThread(k, t, x));
  }

  lemma SendKeepsCallers(k: Kernel, t: nat, signal: nat)
    requires Sound(k) && t in k.threads
    ensures k.threads[t].signalEvent in k.events && Listeners(k, k.events[k.threads[t].signalEvent].listeners)
    ensures var k' := SendSignal(k, t, signal);
      && k'.events.Keys == k.events.Keys && k'.idle == k.idle && k'.threads.Keys == k.threads.Keys
      && (forall u :: u in k.threads ==>
            && (k'.threads[u].state == BLOCKED ==> k.threads[u].state == BLOCKED)
            && k'.threads[u].inWait == k.threads[u].inWait && k'.threads[u].listeners == k.threads[u].listeners)
  {
    hide Sound, Trigger;
    SendSignalSound(k, t, signal);
    SignalledSound(k, t, signal);
    var k1 := Enqueue(AddSignal(k, t, signal), t, Some(signal));
    TriggerNeverBlocks(k1, k.threads[t].signalEvent, false);
    TriggerKeepsEvents(k1, k.threads[t].signalEvent, false);
  }

  /** Every step keeps threads, events and pipes sound. */
  lemma ApplySound(s: System, op: Op)
    requires SystemSound(s) && Enabled(s, op)
    ensures SystemSound(Apply(s, op))
  {
    hide Sound, PipesSound, ApplyToPipe, Reap, WaitState;
    match op
    case Block(events, nonblocking) => BlockSound(s, events, nonblocking);
    case Resume =>
      OwnListeners(s.k, s.k.running) by {
        SoundParts(s.k);
      }
      ClearListenersSound(s.k, s.k.running);
      ClearingKeepsPipes(s, s.k.running);
    case Destroy(t) => DestroySound(s, t);
    case CreatePipe(_, _) => ApplyToPipeSound(s, op);
    case Open(_, _, _) => ApplyToPipeSound(s, op);
    case Close(_, _, _) => ApplyToPipeSound(s, op);
    case Begin(_, _) => ApplyToPipeSound(s, op);
    case GoOn(_) => ApplyToPipeSound(s, op);
    case _ => ApplyToKernelSound(s, op);
  }

  // ----- runs -----

  // Any sequence of steps; one that cannot happen is skipped.
  ghost function Run(s: System, ops: seq<Op>): (s': System)
    requires SystemSound(s)
    ensures SystemSound(s')
    decreases ops
  {
    if ops == [] then s
    else if Enabled(s, ops[0]) then
      ApplySound(s, ops[0]);
      Run(Apply(s, ops[0]), ops[1..])
    else Run(s, ops[1..])
  }

  // After boot there is only the idle thread, which is not on the queue.
  function Boot(): System {
    System(Kernel(map[0 := Thread(READY, false, [], 0, None, {}, {}, 0)], [], 0, 0, map[0 := Event(0, 0, [])], map[], 0),
           map[], map[])
  }

  lemma BootSound()
    ensures SystemSound(Boot())
  {
  }

  /**
   No wakeup is lost: in every state that can be reached from boot, a thread that is blocked in read faces an
   empty pipe that has a writer, and one that is blocked in write faces a full pipe that has a reader.
   */
  lemma NoLostWakeup(ops: seq<Op>, t: nat)
    ensures SystemSound(Boot())
    ensures var s := Run(Boot(), ops);
      t in s.calls ==>
        && t in s.k.threads && s.calls[t].pipe in s.pipes
        && (s.k.threads[t].state == BLOCKED ==> MustWait(s.pipes[s.calls[t].pipe], s.calls[t]))
  {
    BootSound();
    hide Sound, PipeSound;
    var s := Run(Boot(), ops);
    assert t in s.calls ==> CallSound(s, t, s.calls[t]);
  }

  /** A reader and a writer of one pipe are never blocked at the same time. */
  lemma NeverBothBlocked(ops: seq<Op>, t: nat, u: nat)
    ensures SystemSound(Boot())
    ensures var s := Run(Boot(), ops);
      t in s.calls && u in s.calls && s.calls[t].Reading? && s.calls[u].Writing? && s.calls[t].pipe == s.calls[u].pipe ==>
        && t in s.k.threads && u in s.k.threads
        && !(s.k.threads[t].state == BLOCKED && s.k.threads[u].state == BLOCKED)
  {
    NoLostWakeup(ops, t);
    NoLostWakeup(ops, u);
  }

  /** The bytes read so far followed by those in the buffer are the bytes accepted so far, in order. */
  lemma StreamInOrder(ops: seq<Op>, p: nat)
    ensures SystemSound(Boot())
    ensures var s := Run(Boot(), ops);
      p in s.pipes ==> s.pipes[p].taken + s.pipes[p].buffer == s.pipes[p].accepted && |s.pipes[p].buffer| <= CAPACITY
  {
    BootSound();
    hide Sound;
    var s := Run(Boot(), ops);
    assert p in s.pipes ==> PipeSound(s.k, s.pipes[p]);
  }

  /** In every reachable state a thread other than the idle one is on the queue exactly once or not at all. */
  lemma QueuedIffRunnable(ops: seq<Op>, t: nat)
    ensures SystemSound(Boot())
    ensures var k := Run(Boot(), ops).k;
      t in k.threads && t != k.idle ==>
        && (t in k.queue <==> Runnable(k.threads[t].state))
        && (forall i, j :: 0 <= i < j < |k.queue| ==> !(k.queue[i] == t && k.queue[j] == t))
  {
    BootSound();
    hide EventsSound, ThreadsSound, ListenersSound, PipesSound;
  }

  // ----- a masked signal -----

  // Thread 1 is made and picked, masks signal 5, and waits for event 0.
  function MaskThenWait(): seq<Op> {
    [Create(1, 1)] + ([Tick] + ([Mask(SIG_BLOCK, {5})] + ([Block([Some(0)], false)] + [])))
  }

  function Made(): Kernel {
    Kernel(map[0 := Thread(READY, false, [], 0, None, {}, {}, 0), 1 := Thread(READY, false, [], 0, None, {}, {}, 1)],
           [1], 0, 0, map[0 := Event(0, 0, []), 1 := Event(0, 0, [])], map[], 0)
  }

  function Picked(mask: set<nat>): Kernel {
    Made().(threads := Made().threads[1 := Thread(RUNNING, false, [], 0, None, {}, mask, 1)], running := 1)
  }

  function Waiter(): Kernel {
    Kernel(map[0 := Thread(READY, false, [], 0, None, {}, {}, 0), 1 := Thread(BLOCKED, true, [0], 0, None, {}, {5}, 1)],
           [], 1, 0, map[0 := Event(0, 1, [0]), 1 := Event(0, 0, [])], map[0 := Listener(1, 0, 0)], 1)
  }

  lemma FirstSteps()
    ensures Spawn(Boot().k, 1, 1) == Made()
    ensures Next([1], 0, 0) == 1 && Schedule(Made()) == Picked({})
    ensures SetMask(Picked({}), 1, SIG_BLOCK, {5}) == Picked({5})
  {
    assert {} + {5} == {5};
  }

  lemma WaiterBlocks()
    ensures Known(Picked({5}), [Some(0)]) && WaitState(Picked({5}), [Some(0)], false) == Waiter()
  {
    var k := Picked({5});
    var k1 := WithThread(k, 1, k.threads[1].(inWait := true));
    var k2 := AddListener(k1, 1, 0, 0);
    assert [] + [0] == [0];
    assert k2.threads == k.threads[1 := Thread(RUNNING, true, [0], 0, None, {}, {5}, 1)];
    assert k2.events == Waiter().events && k2.listeners == Waiter().listeners;
    assert AddListeners(k1, 1, [Some(0)], 0) == AddListeners(k2, 1, [Some(0)], 1) == k2;
    assert !HasPendingSignals(k.threads[1]) && FirstPending(k, [Some(0)], 0) == 1;
    assert Without([1], 1) == [];
    assert Dequeue(k2, 1).threads == Waiter().threads;
  }

  lemma RunOne(s: System, op: Op, rest: seq<Op>)
    requires SystemSound(s) && Enabled(s, op)
    ensures SystemSound(Apply(s, op)) && Run(s, [op] + rest) == Run(Apply(s, op), rest)
  {
    hide SystemSound, Enabled, Apply;
    ApplySound(s, op);
    assert ([op] + rest)[1..] == rest;
  }

  /** A state that can be reached from boot in which a signal that thread 1 masks interrupts its wait. */
  lemma MaskedSignalInterrupts()
    ensures SystemSound(Boot())
    ensures var s := Run(Boot(), MaskThenWait() + [Send(1, 5)]);
      && 1 in s.k.threads && s.k.threads[1].state == READY && ResumeResult(s.k.threads[1]) == Interrupted
      && s.k.threads[1].mask == {5} && !HasPendingSignals(s.k.threads[1])
  {
    hide Sound, PipesSound, Run, SendSignal, WaitState, Schedule, Spawn, SetMask;
    BootSound();
    FirstSteps();
    WaiterBlocks();
    var s0, s1 := Boot(), Boot().(k := Made());
    var s2, s3, s4 := s1.(k := Picked({})), s1.(k := Picked({5})), s1.(k := Waiter());
    var rest4 := [Send(1, 5)] + [];
    var rest3 := [Block([Some(0)], false)] + rest4;
    var rest2 := [Mask(SIG_BLOCK, {5})] + rest3;
    var rest1 := [Tick] + rest2;
    assert MaskThenWait() + [Send(1, 5)] == [Create(1, 1)] + rest1;
    RunOne(s0, Create(1, 1), rest1);
    RunOne(s1, Tick, rest2);
    RunOne(s2, Mask(SIG_BLOCK, {5}), rest3);
    RunOne(s3, Block([Some(0)], false), rest4);
    RunOne(s4, Send(1, 5), []);
    SignalInterrupts(s4.k, 1, 5);
    assert Run(Apply(s4, Send(1, 5)), []) == Apply(s4, Send(1, 5)) by {
      RunNothing(Apply(s4, Send(1, 5)));
    }
  }

  lemma RunNothing(s: System)
    requires SystemSound(s)
    ensures Run(s, []) == s
  {
  }
}
