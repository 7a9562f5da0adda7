/**
 The producer ring with a link TRB and the event ring of the xHCI driver (kernel/kernel/src/dev/xhci.cpp), and
 the controller on their other side, which only looks at cycle bits (sections 4.9.2 to 4.9.4 of the xHCI
 specification).
 */
module XhciRing {

  import opened RingBuffer

  const TRB_SIZE: nat := 16
  // PAGE_SIZE / sizeof(TRB), and the number of them that a producer ring has for TRBs other than the link.
  const RING_SIZE: nat := 256
  const SLOTS: nat := 255

  const TYPE_LINK: nat := 6

  // The lowest bit of the control word is the cycle bit; control holds the other bits.
  datatype Trb = Trb(parameter: nat, status: nat, control: nat, cycle: bool) {
    // Bits 10 to 15 and bit 1 of the control word.
    function Type(): nat { control / 0x200 % 64 }
    predicate Toggles() { control % 2 == 1 }
    function WithCycle(c: bool): Trb {
      this.(cycle := c)
    }
  }

  const ZERO := Trb(0, 0, 0, false)

  // (TYPE_LINK << TYPE_SHIFT_BITS) | LINK_TOGGLE_CYCLE | cycle
  function LinkTrb(base: nat, cycle: bool): (t: Trb)
    ensures t.Type() == TYPE_LINK && t.Toggles()
  {
    Trb(base, 0, TYPE_LINK * 0x200 + 1, cycle)
  }

  // ----- laps -----

  function Lap(position: nat, slots: nat): nat
    requires 0 < slots
  {
    position / slots
  }

  // The cycle bit of a lap; the first one has it set.
  predicate LapCycle(lap: nat) {
    lap % 2 == 0
  }

  lemma NextPosition(n: nat, slots: nat)
    requires 0 < slots
    ensures if Slot(n, slots) + 1 == slots then Slot(n + 1, slots) == 0 && Lap(n + 1, slots) == Lap(n, slots) + 1
            else Slot(n + 1, slots) == Slot(n, slots) + 1 && Lap(n + 1, slots) == Lap(n, slots)
  {
    var q, r := n / slots, n % slots;
    if r + 1 == slots {
      assert (q + 1) * slots == q * slots + slots;
      Remainder(n + 1, q + 1, 0, slots);
      Quotient(n + 1, q + 1, 0, slots);
    } else {
      Remainder(n + 1, q, r + 1, slots);
      Quotient(n + 1, q, r + 1, slots);
    }
  }

  lemma Quotient(n: nat, q: int, r: nat, slots: nat)
    requires r < slots && n == q * slots + r
    ensures n / slots == q
  {
    assert n == n / slots * slots + n % slots;
    assert (q - n / slots) * slots == q * slots - n / slots * slots;
    Multiple(q - n / slots, slots);
  }

  lemma PreviousLap(n: nat, slots: nat)
    requires 0 < slots <= n
    ensures Slot(n - slots, slots) == Slot(n, slots) && Lap(n - slots, slots) == Lap(n, slots) - 1
  {
    var q, r := n / slots, n % slots;
    assert (q - 1) * slots == q * slots - slots;
    Remainder(n - slots, q - 1, r, slots);
    Quotient(n - slots, q - 1, r, slots);
  }

  lemma FirstLap(n: nat, slots: nat)
    requires n < slots
    ensures Slot(n, slots) == n && Lap(n, slots) == 0
  {
    Remainder(n, 0, n, slots);
    Quotient(n, 0, n, slots);
  }

  // ----- what a ring holds after a history of writes -----

  // Entry j of the history as it is written, with the cycle bit of its lap.
  function Sent(history: seq<Trb>, j: nat, slots: nat): Trb
    requires j < |history| && 0 < slots
  {
    history[j].WithCycle(LapCycle(Lap(j, slots)))
  }

  function Image(history: seq<Trb>, slots: nat): (ring: seq<Trb>)
    requires 0 < slots
    ensures |ring| == slots
    decreases |history|
  {
    if history == [] then seq(slots, i => ZERO)
    else
      var n := |history| - 1;
      Image(history[..n], slots)[Slot(n, slots) := Sent(history, n, slots)]
  }

  // An entry stays in its slot until the write one lap later.
  lemma {:induction false} ImageHolds(history: seq<Trb>, r: nat, slots: nat)
    requires 0 < slots && r < |history| <= r + slots
    ensures Image(history, slots)[Slot(r, slots)] == Sent(history, r, slots)
    decreases |history|
  {
    hide Slot;
    var n := |history| - 1;
    if r < n {
      ApartInLap(r, n, slots);
      ImageHolds(history[..n], r, slots);
    }
  }

  lemma {:induction false} UnwrittenSlot(history: seq<Trb>, i: nat, slots: nat)
    requires |history| <= i < slots
    ensures Image(history, slots)[i] == ZERO
    decreases |history|
  {
    if history != [] {
      FirstLap(|history| - 1, slots);
      UnwrittenSlot(history[..|history| - 1], i, slots);
    }
  }

  /** The cycle bit of the slot for position r says whether the entry for r has been written. */
  lemma CycleBitTells(history: seq<Trb>, r: nat, slots: nat)
    requires 0 < slots && r <= |history| <= r + slots
    ensures Image(history, slots)[Slot(r, slots)].cycle == LapCycle(Lap(r, slots)) <==> r < |history|
    ensures r < |history| ==> Image(history, slots)[Slot(r, slots)] == Sent(history, r, slots)
  {
    hide Slot, Lap, Image;
    if r < |history| {
      ImageHolds(history, r, slots);
    } else if r < slots {
      FirstLap(r, slots);
      UnwrittenSlot(history, r, slots);
    } else {
      PreviousLap(r, slots);
      ImageHolds(history, r - slots, slots);
    }
  }

  // ----- the producer ring -----

  // The link is given the cycle bit of a lap when the lap is complete; in the first lap it already has it.
  predicate LinkCycle(n: nat) {
    if n < SLOTS then true else LapCycle(Lap(n, SLOTS) - 1)
  }

  function RingOf(history: seq<Trb>, base: nat): (ring: seq<Trb>)
    ensures |ring| == RING_SIZE
  {
    Image(history, SLOTS) + [LinkTrb(base, LinkCycle(|history|))]
  }

  class EnqueueRing {
    // The physical address of the ring's page.
    const base: nat
    const ring: array<Trb>
    var enqueueIndex: nat
    var cycleBit: bool
    ghost var history: seq<Trb>

    ghost predicate Valid()
      reads this, ring
    {
      && ring.Length == RING_SIZE && ring[..] == RingOf(history, base)
      && enqueueIndex == Slot(|history|, SLOTS) && cycleBit == LapCycle(Lap(|history|, SLOTS))
    }

    constructor (base: nat)
      ensures Valid() && history == [] && this.base == base && fresh(ring)
    {
      this.base := base;
      enqueueIndex := 0;
      cycleBit := true;
      ring := new Trb[RING_SIZE](_ => ZERO);
      history := [];
      new;
      ring[RING_SIZE - 1] := LinkTrb(base, cycleBit);
      assert ring[..] == RingOf([], base);
    }

    /** Enqueueing appends to the history of the ring and returns the address of the slot used. */
    method Enqueue(trb: Trb) returns (phy: nat)
      requires Valid()
      modifies this, ring
      ensures Valid() && history == old(history) + [trb]
      ensures phy == base + TRB_SIZE * Slot(|old(history)|, SLOTS)
    {
      hide Lap, Slot, Image;
      ghost var n := |history|;
      NextPosition(n, SLOTS);
      phy := base + TRB_SIZE * enqueueIndex;
      ring[enqueueIndex] := trb.WithCycle(cycleBit);
      history := history + [trb];
      ImageAppend(old(history), trb, SLOTS);
      enqueueIndex := enqueueIndex + 1;
      if enqueueIndex == RING_SIZE - 1 {
        ring[RING_SIZE - 1] := LinkTrb(ring[RING_SIZE - 1].parameter, cycleBit);
        enqueueIndex := 0;
        cycleBit := !cycleBit;
      }
      LinkCycleStep(n);
      assert ring[..] == RingOf(history, base);
    }
  }

  lemma ImageAppend(history: seq<Trb>, trb: Trb, slots: nat)
    requires 0 < slots
    ensures Image(history + [trb], slots)
      == Image(history, slots)[Slot(|history|, slots) := trb.WithCycle(LapCycle(Lap(|history|, slots)))]
  {
    assert (history + [trb])[..|history|] == history;
  }

  lemma LinkCycleStep(n: nat)
    ensures Slot(n + 1, SLOTS) == 0 ==> LinkCycle(n + 1) == LapCycle(Lap(n, SLOTS))
    ensures Slot(n + 1, SLOTS) != 0 ==> LinkCycle(n + 1) == LinkCycle(n)
  {
    NextPosition(n, SLOTS);
  }

  // ----- the controller on the other side -----

  datatype Consumer = Consumer(pointer: nat, ccs: bool, taken: seq<Trb>)

  // The controller looks at the TRB under its pointer: if its cycle bit is not the expected one it waits, a
  // link TRB is followed, and any other TRB is taken.
  function Step(ring: seq<Trb>, base: nat, c: Consumer): Consumer
    requires base <= c.pointer && (c.pointer - base) / TRB_SIZE < |ring|
  {
    var t := ring[(c.pointer - base) / TRB_SIZE];
    if t.cycle != c.ccs then c
    else if t.Type() == TYPE_LINK then c.(pointer := t.parameter, ccs := if t.Toggles() then !c.ccs else c.ccs)
    else c.(pointer := c.pointer + TRB_SIZE, taken := c.taken + [t])
  }

  // The controller is at the slot for its next TRB, or at the link in front of it.
  predicate AtSlot(c: Consumer, base: nat) {
    var r := |c.taken|;
    c.pointer == base + TRB_SIZE * Slot(r, SLOTS) && c.ccs == LapCycle(Lap(r, SLOTS))
  }

  predicate AtLink(c: Consumer, base: nat) {
    var r := |c.taken|;
    && 0 < r && Slot(r, SLOTS) == 0 && c.pointer == base + TRB_SIZE * SLOTS
    && Lap(r, SLOTS) > 0 && c.ccs == LapCycle(Lap(r, SLOTS) - 1)
  }

  // What was taken is exactly what was enqueued, in order, up to some point.
  ghost predicate InStep(history: seq<Trb>, base: nat, c: Consumer) {
    && |c.taken| <= |history| <= |c.taken| + SLOTS
    && (forall j :: 0 <= j < |c.taken| ==> c.taken[j] == Sent(history, j, SLOTS))
    && (AtSlot(c, base) || AtLink(c, base))
  }

  ghost predicate NoLinks(history: seq<Trb>) {
    forall j :: 0 <= j < |history| ==> history[j].Type() != TYPE_LINK
  }

  /**
   The controller takes the next TRB if there is one and never a stale one. At the link it goes on unless the
   producer is a whole lap ahead.
   */
  lemma ConsumerStep(history: seq<Trb>, base: nat, c: Consumer)
    requires InStep(history, base, c) && NoLinks(history)
    ensures base <= c.pointer && (c.pointer - base) / TRB_SIZE < RING_SIZE
    ensures var c' := Step(RingOf(history, base), base, c);
      && InStep(history, base, c')
      && (AtSlot(c, base) && |c.taken| < |history| ==> c'.taken == c.taken + [Sent(history, |c.taken|, SLOTS)])
      && (AtSlot(c, base) && |c.taken| == |history| ==> c' == c)
      && (AtLink(c, base) ==> if |history| - |c.taken| == SLOTS then c' == c else AtSlot(c', base) && c'.taken == c.taken)
  {
    hide Image, Slot, Lap, RingOf;
    RingParts(history, base);
    var r := |c.taken|;
    if AtSlot(c, base) {
      TakeStep(history, base, c);
    } else {
      LinkCycleAt(r, |history|);
    }
  }

  lemma RingParts(history: seq<Trb>, base: nat)
    ensures var ring := RingOf(history, base);
      && (forall i :: 0 <= i < SLOTS ==> ring[i] == Image(history, SLOTS)[i])
      && ring[SLOTS] == LinkTrb(base, LinkCycle(|history|))
  {
  }

  lemma TakeStep(history: seq<Trb>, base: nat, c: Consumer)
    requires InStep(history, base, c) && NoLinks(history) && AtSlot(c, base)
    ensures var c', r := Step(RingOf(history, base), base, c), |c.taken|;
      && InStep(history, base, c')
      && (if r < |history| then c'.taken == c.taken + [Sent(history, r, SLOTS)] else c' == c)
  {
    hide Image, Slot, Lap, RingOf;
    RingParts(history, base);
    var r := |c.taken|;
    CycleBitTells(history, r, SLOTS);
    if r < |history| {
      NextPosition(r, SLOTS);
    }
  }

  // The link's cycle bit, seen by a controller that has taken a whole number of laps.
  lemma LinkCycleAt(r: nat, n: nat)
    requires 0 < r && Slot(r, SLOTS) == 0 && r <= n <= r + SLOTS && Lap(r, SLOTS) > 0
    ensures LinkCycle(n) == LapCycle(Lap(r, SLOTS) - 1) <==> n < r + SLOTS
  {
  }

  // ----- runs -----

  datatype RingOp = Produce(trb: Trb) | Look

  // A run that keeps at most limit TRBs outstanding: a TRB for which there is no room is not enqueued.  Nothing in
  // enqueue sees to that; FreeRun is a run without a limit.
  ghost function RunRing(history: seq<Trb>, base: nat, c: Consumer, ops: seq<RingOp>, limit: nat): (seq<Trb>, Consumer)
    requires limit <= SLOTS && InStep(history, base, c) && NoLinks(history)
    requires forall op :: op in ops && op.Produce? ==> op.trb.Type() != TYPE_LINK
    decreases ops
  {
    if ops == [] then (history, c)
    else
      assert ops[0] in ops;
      match ops[0]
      case Produce(trb) =>
        if |history| - |c.taken| < limit then
          ProduceInStep(history, base, c, trb);
          RunRing(history + [trb], base, c, ops[1..], limit)
        else RunRing(history, base, c, ops[1..], limit)
      case Look =>
        ConsumerStep(history, base, c);
        RunRing(history, base, Step(RingOf(history, base), base, c), ops[1..], limit)
  }

  lemma ProduceInStep(history: seq<Trb>, base: nat, c: Consumer, trb: Trb)
    requires InStep(history, base, c) && NoLinks(history) && |history| - |c.taken| < SLOTS && trb.Type() != TYPE_LINK
    ensures InStep(history + [trb], base, c) && NoLinks(history + [trb])
  {
    forall j | 0 <= j < |c.taken| ensures c.taken[j] == Sent(history + [trb], j, SLOTS) {
      assert c.taken[j] == Sent(history, j, SLOTS);
    }
  }

  function Start(base: nat): Consumer {
    Consumer(base, true, [])
  }

  lemma StartInStep(base: nat)
    ensures InStep([], base, Start(base))
  {
    FirstLap(0, SLOTS);
  }

  /** Over any run, with any number of laps, every TRB is taken once, in order, and none is stale. */
  lemma {:induction false} TakenInOrder(history: seq<Trb>, base: nat, c: Consumer, ops: seq<RingOp>, limit: nat)
    requires limit <= SLOTS && InStep(history, base, c) && NoLinks(history)
    requires forall op :: op in ops && op.Produce? ==> op.trb.Type() != TYPE_LINK
    ensures var (history', c') := RunRing(history, base, c, ops, limit);
      && InStep(history', base, c') && NoLinks(history') && history <= history'
      && (|history| - |c.taken| <= limit ==> |history'| - |c'.taken| <= limit)
    decreases ops
  {
    hide InStep, NoLinks, RingOf, Step;
    if ops != [] {
      assert ops[0] in ops;
      match ops[0]
      case Produce(trb) =>
        if |history| - |c.taken| < limit {
          ProduceInStep(history, base, c, trb);
          TakenInOrder(history + [trb], base, c, ops[1..], limit);
        } else {
          TakenInOrder(history, base, c, ops[1..], limit);
        }
      case Look =>
        ConsumerStep(history, base, c);
        LookTakesMore(history, base, c);
        TakenInOrder(history, base, Step(RingOf(history, base), base, c), ops[1..], limit);
    }
  }

  /** In particular from the start of a ring: what was taken is a prefix of what was enqueued. */
  lemma TakenFromStart(base: nat, ops: seq<RingOp>, limit: nat)
    requires limit <= SLOTS && forall op :: op in ops && op.Produce? ==> op.trb.Type() != TYPE_LINK
    ensures InStep([], base, Start(base))
    ensures var (history, c) := RunRing([], base, Start(base), ops, limit);
      && |c.taken| <= |history| <= |c.taken| + limit
      && (forall j :: 0 <= j < |c.taken| ==> c.taken[j] == Sent(history, j, SLOTS))
  {
    StartInStep(base);
    TakenInOrder([], base, Start(base), ops, limit);
  }

  lemma LookTakesMore(history: seq<Trb>, base: nat, c: Consumer)
    requires InStep(history, base, c) && NoLinks(history)
    ensures base <= c.pointer && (c.pointer - base) / TRB_SIZE < RING_SIZE
    ensures |c.taken| <= |Step(RingOf(history, base), base, c).taken|
  {
    ConsumerStep(history, base, c);
  }

  /** With at most RING_SIZE - 2 TRBs outstanding, two looks are enough to take the next one: it never stalls. */
  lemma NeverStalls(history: seq<Trb>, base: nat, c: Consumer)
    requires InStep(history, base, c) && NoLinks(history) && 0 < |history| - |c.taken| <= RING_SIZE - 2
    ensures base <= c.pointer && (c.pointer - base) / TRB_SIZE < RING_SIZE
    ensures var ring := RingOf(history, base);
      var c1 := Step(ring, base, c);
      && base <= c1.pointer && (c1.pointer - base) / TRB_SIZE < RING_SIZE
      && var c2 := Step(ring, base, c1);
      |c2.taken| > |c.taken| && c2.taken[|c.taken|] == Sent(history, |c.taken|, SLOTS)
  {
    hide RingOf, Step, Slot, Lap;
    ConsumerStep(history, base, c);
    var c1 := Step(RingOf(history, base), base, c);
    ConsumerStep(history, base, c1);
    LookTakesMore(history, base, c1);
  }

  /** One more outstanding TRB and a controller that is still at the link waits forever for the next lap. */
  lemma StallsAtLinkIff(history: seq<Trb>, base: nat, c: Consumer)
    requires InStep(history, base, c) && NoLinks(history) && AtLink(c, base)
    ensures base <= c.pointer && (c.pointer - base) / TRB_SIZE < RING_SIZE
    ensures Step(RingOf(history, base), base, c) == c <==> |history| - |c.taken| == RING_SIZE - 1
  {
    ConsumerStep(history, base, c);
    assert AtLink(c, base) ==> !AtSlot(c, base);
  }

  function Repeat(op: RingOp, n: nat): (ops: seq<RingOp>)
    ensures |ops| == n && forall o :: o in ops ==> o == op
  {
    if n == 0 then [] else [op] + Repeat(op, n - 1)
  }

  // TRBs for which there is room are enqueued one after the other.
  lemma {:induction false} ProduceMany(history: seq<Trb>, base: nat, c: Consumer, trb: Trb, n: nat, rest: seq<RingOp>)
    returns (h: seq<Trb>)
    requires InStep(history, base, c) && NoLinks(history) && trb.Type() != TYPE_LINK
    requires |history| + n <= |c.taken| + SLOTS
    requires forall op :: op in rest && op.Produce? ==> op.trb.Type() != TYPE_LINK
    ensures InStep(h, base, c) && NoLinks(h) && |h| == |history| + n
    ensures RunRing(history, base, c, Repeat(Produce(trb), n) + rest, SLOTS) == RunRing(h, base, c, rest, SLOTS)
    decreases n
  {
    hide InStep, NoLinks, Step, RingOf;
    if n == 0 {
      assert Repeat(Produce(trb), 0) + rest == rest;
      return history;
    }
    ProduceInStep(history, base, c, trb);
    var ops := Repeat(Produce(trb), n) + rest;
    assert ops[0] == Produce(trb) && ops[1..] == Repeat(Produce(trb), n - 1) + rest;
    h := ProduceMany(history + [trb], base, c, trb, n - 1, rest);
  }

  // In the first lap every look takes a TRB; after the last one the controller is at the link.
  lemma {:induction false} LookMany(history: seq<Trb>, base: nat, c: Consumer, n: nat, rest: seq<RingOp>)
    returns (d: Consumer)
    requires InStep(history, base, c) && NoLinks(history) && |history| == SLOTS == |c.taken| + n
    requires if n == 0 then AtLink(c, base) else AtSlot(c, base)
    requires forall op :: op in rest && op.Produce? ==> op.trb.Type() != TYPE_LINK
    ensures InStep(history, base, d) && |d.taken| == SLOTS && AtLink(d, base)
    ensures RunRing(history, base, c, Repeat(Look, n) + rest, SLOTS) == RunRing(history, base, d, rest, SLOTS)
    decreases n
  {
    hide InStep, NoLinks, Step, RingOf, AtSlot, AtLink;
    if n == 0 {
      assert Repeat(Look, 0) + rest == rest;
      return c;
    }
    ConsumerStep(history, base, c);
    FirstLapLook(history, base, c);
    var ops := Repeat(Look, n) + rest;
    assert ops[0] == Look && ops[1..] == Repeat(Look, n - 1) + rest;
    d := LookMany(history, base, Step(RingOf(history, base), base, c), n - 1, rest);
  }

  lemma FirstLapLook(history: seq<Trb>, base: nat, c: Consumer)
    requires InStep(history, base, c) && NoLinks(history) && AtSlot(c, base) && |c.taken| < |history| == SLOTS
    ensures base <= c.pointer && (c.pointer - base) / TRB_SIZE < RING_SIZE
    ensures var d := Step(RingOf(history, base), base, c);
      |d.taken| == |c.taken| + 1 && if |d.taken| == SLOTS then AtLink(d, base) else AtSlot(d, base)
  {
    hide RingOf;
    ConsumerStep(history, base, c);
  }

  /** This happens: with 255 TRBs enqueued, taken and 255 more enqueued, the controller is at the link and
      waits although all of them are there. */
  lemma StallReached(base: nat, trb: Trb)
    requires trb.Type() != TYPE_LINK
    ensures InStep([], base, Start(base))
    ensures
      var ops := Repeat(Produce(trb), SLOTS) + (Repeat(Look, SLOTS) + (Repeat(Produce(trb), SLOTS) + []));
      var (history, c) := RunRing([], base, Start(base), ops, SLOTS);
      && base <= c.pointer && (c.pointer - base) / TRB_SIZE < RING_SIZE
      && |history| - |c.taken| == RING_SIZE - 1 && Step(RingOf(history, base), base, c) == c
  {
    hide InStep, NoLinks, Step, RingOf, AtLink, Repeat;
    StartInStep(base);
    AtFirstSlot(base);
    var again := Repeat(Produce(trb), SLOTS) + [];
    var h := ProduceMany([], base, Start(base), trb, SLOTS, Repeat(Look, SLOTS) + again);
    var c := LookMany(h, base, Start(base), SLOTS, again);
    var history := ProduceMany(h, base, c, trb, SLOTS, []);
    StallsAtLinkIff(history, base, c);
  }

  lemma AtFirstSlot(base: nat)
    ensures AtSlot(Start(base), base) && NoLinks([])
  {
  }

  // ----- a driver that does not look how many TRBs are outstanding -----

  // got lists the places in the history of what the controller has taken.
  datatype FreeState = FreeState(history: seq<Trb>, c: Consumer, got: seq<int>)

  // The last place in the first n of a history that was written to a slot.
  function LastIn(n: nat, slot: nat): (j: int)
    ensures -1 <= j < n
  {
    if n == 0 then -1 else if Slot(n - 1, SLOTS) == slot then n - 1 else LastIn(n - 1, slot)
  }

  function SlotOf(c: Consumer, base: nat): int {
    (c.pointer - base) / TRB_SIZE
  }

  predicate OnRing(c: Consumer, base: nat) {
    base <= c.pointer && (c.pointer - base) % TRB_SIZE == 0 && SlotOf(c, base) < RING_SIZE
  }

  ghost predicate Runnable(s: FreeState, base: nat) {
    OnRing(s.c, base) && NoLinks(s.history)
  }

  lemma {:induction false} ImageHasNoLink(history: seq<Trb>, i: nat)
    requires NoLinks(history) && i < SLOTS
    ensures Image(history, SLOTS)[i].Type() != TYPE_LINK
    decreases |history|
  {
    if history != [] {
      ImageHasNoLink(history[..|history| - 1], i);
    }
  }

  lemma LookStaysOnRing(s: FreeState, base: nat)
    requires Runnable(s, base)
    ensures OnRing(Step(RingOf(s.history, base), base, s.c), base)
  {
    hide Image;
    RingParts(s.history, base);
    if SlotOf(s.c, base) < SLOTS {
      ImageHasNoLink(s.history, SlotOf(s.c, base));
    }
  }

  // Enqueueing always succeeds.
  ghost function FreeStep(s: FreeState, base: nat, op: RingOp): (t: FreeState)
    requires Runnable(s, base) && (op.Produce? ==> op.trb.Type() != TYPE_LINK)
    ensures Runnable(t, base)
  {
    match op
    case Produce(trb) => s.(history := s.history + [trb])
    case Look =>
      LookStaysOnRing(s, base);
      var d := Step(RingOf(s.history, base), base, s.c);
      s.(c := d, got := if |d.taken| > |s.c.taken| then s.got + [LastIn(|s.history|, SlotOf(s.c, base))] else s.got)
  }

  ghost predicate TrbsOnly(ops: seq<RingOp>) {
    forall op :: op in ops && op.Produce? ==> op.trb.Type() != TYPE_LINK
  }

  ghost function FreeRun(s: FreeState, base: nat, ops: seq<RingOp>): FreeState
    requires Runnable(s, base) && TrbsOnly(ops)
    decreases ops
  {
    if ops == [] then s
    else
      assert ops[0] in ops;
      FreeRun(FreeStep(s, base, ops[0]), base, ops[1..])
  }

  // At no point of the run are more TRBs outstanding than the ring has slots.
  ghost predicate NeverOver(s: FreeState, base: nat, ops: seq<RingOp>)
    requires Runnable(s, base) && TrbsOnly(ops)
    decreases ops
  {
    && |s.history| <= |s.c.taken| + SLOTS
    && (ops != [] ==>
          assert ops[0] in ops;
          NeverOver(FreeStep(s, base, ops[0]), base, ops[1..]))
  }

  // Every TRB that is no longer in the ring was taken.
  ghost predicate NoneLost(s: FreeState) {
    forall j :: 0 <= j && j + SLOTS < |s.history| ==> j in s.got
  }

  // The controller has taken the first TRBs, one after the other.
  ghost predicate TookFirst(s: FreeState, base: nat) {
    && InStep(s.history, base, s.c) && NoLinks(s.history)
    && |s.got| == |s.c.taken| && forall j :: 0 <= j < |s.got| ==> s.got[j] == j
  }

  lemma TookFirstRunnable(s: FreeState, base: nat)
    requires TookFirst(s, base)
    ensures Runnable(s, base) && (AtSlot(s.c, base) ==> SlotOf(s.c, base) == Slot(|s.c.taken|, SLOTS))
  {
    hide Lap;
  }

  lemma {:induction false} LastAtLeast(n: nat, j: nat)
    requires j < n
    ensures LastIn(n, Slot(j, SLOTS)) >= j
    decreases n
  {
    if Slot(n - 1, SLOTS) != Slot(j, SLOTS) {
      LastAtLeast(n - 1, j);
    }
  }

  lemma {:induction false} LastInSlot(n: nat, slot: nat)
    ensures LastIn(n, slot) >= 0 ==> Slot(LastIn(n, slot), SLOTS) == slot
  {
    if n > 0 {
      LastInSlot(n - 1, slot);
    }
  }

  // What is in the slot of a TRB less than a lap after it was written.
  lemma LastIs(n: nat, r: nat)
    requires r < n <= r + SLOTS
    ensures LastIn(n, Slot(r, SLOTS)) == r
  {
    hide Slot;
    LastAtLeast(n, r);
    LastInSlot(n, Slot(r, SLOTS));
    var j := LastIn(n, Slot(r, SLOTS));
    if j > r {
      ApartInLap(r, j, SLOTS);
    }
  }

  lemma TookFirstStep(s: FreeState, base: nat, op: RingOp)
    requires TookFirst(s, base) && (op.Produce? ==> op.trb.Type() != TYPE_LINK)
    ensures Runnable(s, base)
    ensures var t := FreeStep(s, base, op); |t.history| <= |t.c.taken| + SLOTS ==> TookFirst(t, base)
    ensures op.Look? ==> |s.history| <= |s.c.taken| + SLOTS && TookFirst(FreeStep(s, base, op), base)
  {
    hide RingOf, Step, Slot, LastIn, SlotOf, Lap;
    TookFirstRunnable(s, base);
    match op
    case Produce(trb) =>
      if |s.history| < |s.c.taken| + SLOTS {
        ProduceInStep(s.history, base, s.c, trb);
      }
    case Look =>
      ConsumerStep(s.history, base, s.c);
      if AtSlot(s.c, base) && |s.c.taken| < |s.history| {
        LastIs(|s.history|, |s.c.taken|);
      }
  }

  // A TRB that was overwritten before it was taken.
  ghost predicate Lost(s: FreeState, j: int) {
    0 <= j && j + SLOTS < |s.history| && j !in s.got
  }

  lemma LastIsNot(n: nat, slot: nat, j: nat)
    requires j + SLOTS < n
    ensures LastIn(n, slot) != j
  {
    hide Slot, Lap, LastIn;
    if LastIn(n, slot) == j {
      LastInSlot(n, slot);
      PreviousLap(j + SLOTS, SLOTS);
      LastAtLeast(n, j + SLOTS);
    }
  }

  lemma LostStays(s: FreeState, base: nat, op: RingOp, j: int)
    requires Runnable(s, base) && (op.Produce? ==> op.trb.Type() != TYPE_LINK) && Lost(s, j)
    ensures Lost(FreeStep(s, base, op), j)
  {
    hide RingOf, Step, Slot, Lap, LastIn;
    if op.Look? {
      LastIsNot(|s.history|, SlotOf(s.c, base), j);
    }
  }

  lemma {:induction false} LostForGood(s: FreeState, base: nat, ops: seq<RingOp>, j: int)
    requires Runnable(s, base) && TrbsOnly(ops) && Lost(s, j)
    ensures Lost(FreeRun(s, base, ops), j)
    decreases ops
  {
    hide Lost, FreeStep, Runnable;
    if ops != [] {
      assert ops[0] in ops;
      LostStays(s, base, ops[0], j);
      LostForGood(FreeStep(s, base, ops[0]), base, ops[1..], j);
    }
  }

  /** No TRB is overwritten before the controller has taken it if and only if there are never more outstanding than
      the ring has slots; as long as there are not, they are taken in order. */
  lemma {:induction false} NoneLostIff(s: FreeState, base: nat, ops: seq<RingOp>)
    requires TookFirst(s, base) && TrbsOnly(ops)
    ensures Runnable(s, base)
    ensures NoneLost(FreeRun(s, base, ops)) <==> NeverOver(s, base, ops)
    ensures NeverOver(s, base, ops) ==> TookFirst(FreeRun(s, base, ops), base)
    decreases ops
  {
    hide FreeStep, Runnable;
    TookFirstRunnable(s, base);
    if ops == [] {
      TookFirstLosesNone(s, base);
    } else {
      assert ops[0] in ops;
      TookFirstStep(s, base, ops[0]);
      var t := FreeStep(s, base, ops[0]);
      if |t.history| <= |t.c.taken| + SLOTS {
        NoneLostIff(t, base, ops[1..]);
      } else {
        OneTooMany(s, base, ops[0]);
        LostForGood(t, base, ops[1..], |s.c.taken|);
      }
    }
  }

  lemma TookFirstLosesNone(s: FreeState, base: nat)
    requires TookFirst(s, base)
    ensures NoneLost(s)
  {
    forall j | 0 <= j && j + SLOTS < |s.history| ensures j in s.got {
      assert s.got[j] == j;
    }
  }

  // Enqueueing into a full ring overwrites the TRB that the controller takes next.
  lemma OneTooMany(s: FreeState, base: nat, op: RingOp)
    requires TookFirst(s, base) && (op.Produce? ==> op.trb.Type() != TYPE_LINK) && Runnable(s, base)
    requires var t := FreeStep(s, base, op); |t.history| > |t.c.taken| + SLOTS
    ensures Lost(FreeStep(s, base, op), |s.c.taken|)
  {
    TookFirstStep(s, base, op);
  }

  // The start of a ring.
  ghost function FreeStart(base: nat): FreeState {
    FreeState([], Start(base), [])
  }

  /** With 256 TRBs enqueued before the controller looks, the first one is lost for good. */
  lemma OverwritingRun(base: nat, trb: Trb, ops: seq<RingOp>)
    requires trb.Type() != TYPE_LINK && TrbsOnly(ops)
    ensures Runnable(FreeStart(base), base) && TrbsOnly(Repeat(Produce(trb), RING_SIZE) + ops)
    ensures Lost(FreeRun(FreeStart(base), base, Repeat(Produce(trb), RING_SIZE) + ops), 0)
  {
    hide FreeRun, Repeat, Lost, FreeStep;
    StartInStep(base);
    TookFirstRunnable(FreeStart(base), base);
    var s := EnqueueMany(FreeStart(base), base, trb, RING_SIZE, ops);
    NowLost(s);
    LostForGood(s, base, ops, 0);
  }

  lemma NowLost(s: FreeState)
    requires |s.history| == RING_SIZE && s.got == []
    ensures Lost(s, 0)
  {
  }

  lemma {:induction false} EnqueueMany(s: FreeState, base: nat, trb: Trb, n: nat, rest: seq<RingOp>) returns (t: FreeState)
    requires Runnable(s, base) && trb.Type() != TYPE_LINK && TrbsOnly(rest)
    ensures Runnable(t, base) && |t.history| == |s.history| + n && t.got == s.got
    ensures TrbsOnly(Repeat(Produce(trb), n) + rest)
    ensures FreeRun(s, base, Repeat(Produce(trb), n) + rest) == FreeRun(t, base, rest)
    decreases n
  {
    var ops := Repeat(Produce(trb), n) + rest;
    if n == 0 {
      assert ops == rest;
      return s;
    }
    assert ops[0] == Produce(trb) && ops[1..] == Repeat(Produce(trb), n - 1) + rest;
    t := EnqueueMany(FreeStep(s, base, Produce(trb)), base, trb, n - 1, rest);
  }

  /** The addresses that enqueue returned for two outstanding TRBs differ, so a completion names one of them. */
  lemma OutstandingAddressesDiffer(base: nat, i: nat, j: nat)
    requires i < j < i + SLOTS
    ensures base + TRB_SIZE * Slot(i, SLOTS) != base + TRB_SIZE * Slot(j, SLOTS)
  {
    ApartInLap(i, j, SLOTS);
  }

  // ----- the event ring -----

  class EventRing {
    const ring: array<Trb>
    var dequeueIndex: nat
    var cycleBit: bool
    // The events that the controller has written and how many of them have been dequeued.
    var history: seq<Trb>
    ghost var dequeued: nat

    ghost predicate Valid()
      reads this, ring
    {
      && ring.Length == RING_SIZE && ring[..] == Image(history, RING_SIZE)
      && dequeued <= |history| <= dequeued + RING_SIZE
      && dequeueIndex == Slot(dequeued, RING_SIZE) && cycleBit == LapCycle(Lap(dequeued, RING_SIZE))
    }

    constructor ()
      ensures Valid() && history == [] && dequeued == 0 && fresh(ring)
    {
      dequeueIndex := 0;
      cycleBit := true;
      ring := new Trb[RING_SIZE](_ => ZERO);
      history := [];
      dequeued := 0;
      new;
      assert ring[..] == Image([], RING_SIZE);
    }

    /** An event is seen exactly when there is one that has not been dequeued. */
    method HasUnprocessedEvents() returns (b: bool)
      requires Valid()
      ensures b <==> dequeued < |history|
    {
      hide Slot, Lap, Image;
      CycleBitTells(history, dequeued, RING_SIZE);
      assert ring[dequeueIndex] == ring[..][dequeueIndex];
      b := ring[dequeueIndex].cycle == cycleBit;
    }

    /** Events come out in the order in which the controller wrote them; None stands for EWOULDBLOCK. */
    method Dequeue() returns (found: bool, trb: Trb)
      requires Valid()
      modifies this
      ensures Valid() && history == old(history)
      ensures found <==> old(dequeued) < |history|
      ensures found ==> dequeued == old(dequeued) + 1 && trb == Sent(history, old(dequeued), RING_SIZE)
      ensures !found ==> dequeued == old(dequeued)
    {
      hide Slot, Lap, Image;
      trb := ZERO;
      found := HasUnprocessedEvents();
      if !found {
        return;
      }
      CycleBitTells(history, dequeued, RING_SIZE);
      NextPosition(dequeued, RING_SIZE);
      assert ring[dequeueIndex] == ring[..][dequeueIndex];
      trb := ring[dequeueIndex];
      dequeueIndex := dequeueIndex + 1;
      if dequeueIndex == RING_SIZE {
        dequeueIndex := 0;
        cycleBit := !cycleBit;
      }
      dequeued := dequeued + 1;
    }

    // The controller writes an event; it does not run a full lap ahead of the driver.
    method ControllerWrites(trb: Trb)
      requires Valid() && |history| < dequeued + RING_SIZE
      modifies ring, `history
      ensures Valid() && history == old(history) + [trb]
    {
      hide Slot, Lap, Image;
      var n := |history|;
      ImageAppend(history, trb, RING_SIZE);
      history := history + [trb];
      WriteSlot(trb.WithCycle(LapCycle(Lap(n, RING_SIZE))), Slot(n, RING_SIZE));
    }

    method WriteSlot(trb: Trb, i: nat)
      requires i < ring.Length
      modifies ring
      ensures ring[..] == old(ring[..])[i := trb]
    {
      ring[i] := trb;
    }
  }
}
