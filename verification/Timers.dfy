/** Time arithmetic and timers (kernel/kernel/src/klib/timespec.hpp, kernel/kernel/src/sched/time.cpp). */
module Timers {

  import opened Lists

  const SECOND: int := 1_000_000_000

  datatype Time = Time(seconds: int, nanoseconds: int) {
    predicate IsZero() {
      seconds == 0 && nanoseconds == 0
    }

    // The values that the kernel works with.
    predicate Normal() {
      0 <= seconds && 0 <= nanoseconds < SECOND
    }

    function Total(): int {
      seconds * SECOND + nanoseconds
    }
  }

  const ZERO := Time(0, 0)

  function Max(a: int, b: int): int {
    if a < b then b else a
  }

  // The operators that update a TimeSpec in place.
  class TimeSpec {
    var value: Time

    /** Addition is exact. */
    method AddAssign(rhs: Time)
      requires value.Normal() && rhs.Normal()
      modifies this
      ensures value.Normal() && value.Total() == old(value).Total() + rhs.Total()
    {
      if value.nanoseconds + rhs.nanoseconds > 999_999_999 {
        var remaining := value.nanoseconds + rhs.nanoseconds - 1_000_000_000;
        value := value.(nanoseconds := remaining);
        value := value.(seconds := value.seconds + 1);
      } else {
        value := value.(nanoseconds := value.nanoseconds + rhs.nanoseconds);
      }
      value := value.(seconds := value.seconds + rhs.seconds);
    }

    /** Subtraction gives the difference, or zero if that is negative, but loses a nanosecond when it borrows. */
    method SubAssign(rhs: Time)
      requires value.Normal() && rhs.Normal()
      modifies this
      ensures value == Minus(old(value), rhs)
    {
      if rhs.nanoseconds > value.nanoseconds {
        var diff := rhs.nanoseconds - value.nanoseconds;
        value := value.(nanoseconds := 999_999_999 - diff);
        if value.seconds == 0 {
          value := ZERO;
          return;
        }
        value := value.(seconds := value.seconds - 1);
      } else {
        value := value.(nanoseconds := value.nanoseconds - rhs.nanoseconds);
      }
      if rhs.seconds > value.seconds {
        value := ZERO;
        return;
      }
      value := value.(seconds := value.seconds - rhs.seconds);
    }
  }

  predicate Borrows(a: Time, b: Time) {
    b.nanoseconds > a.nanoseconds
  }

  // The normal time with a number of nanoseconds.
  function OfTotal(n: nat): (t: Time)
    ensures t.Normal() && t.Total() == n
  {
    Time(n / 1_000_000_000, n % 1_000_000_000)
  }

  // What a - b comes to.
  function Minus(a: Time, b: Time): Time {
    var exact := a.Total() - b.Total();
    if exact <= 0 then ZERO else OfTotal(if Borrows(a, b) then exact - 1 else exact)
  }

  /** The difference is right exactly when nothing is borrowed or the result is zero anyway. */
  lemma MinusExactIff(a: Time, b: Time)
    requires a.Normal() && b.Normal()
    ensures Minus(a, b).Normal()
    ensures Minus(a, b).Total() == Max(0, a.Total() - b.Total()) <==> b.nanoseconds <= a.nanoseconds || a.Total() <= b.Total()
    ensures Max(0, a.Total() - b.Total() - 1) <= Minus(a, b).Total() <= Max(0, a.Total() - b.Total())
  {
  }

  // ----- timers -----

  // calls and triggers count the callbacks made and the times the timer's event was triggered.
  datatype Timer = Timer(remaining: Time, interval: Time, fired: bool, hasCallback: bool, calls: nat, triggers: nat)

  // One clock tick for an armed timer.
  function Tick(t: Timer, elapsed: Time): Timer {
    var left := Minus(t.remaining, elapsed);
    var t1 := t.(remaining := left);
    if t.fired then t
    else if !left.IsZero() then t1
    else
      var t2 := if t.interval.IsZero() then t1.(fired := true, triggers := t.triggers + 1) else t1.(remaining := t.interval);
      if t.hasCallback then t2.(calls := t.calls + 1) else t2
  }

  // What a walk along the list meets once a timer has been put at its end: every timer up to this one.
  function UpTo(armed: seq<nat>, id: nat): (s: seq<nat>)
    ensures id in s
  {
    if armed == [] || armed[0] == id then [id] else [armed[0]] + UpTo(armed[1..], id)
  }

  lemma {:induction false} ArmingAppends(armed: seq<nat>, id: nat)
    requires id !in armed
    ensures UpTo(armed, id) == armed + [id]
  {
    if armed != [] {
      ArmingAppends(armed[1..], id);
    }
  }

  /** A timer that is armed already cuts off those behind it, as in IntrusiveList.ListHead.AddBefore. */
  lemma {:induction false} ArmingAgainCutsOff(armed: seq<nat>, id: nat, k: nat)
    requires k < |armed| && armed[k] == id && id !in armed[..k]
    ensures UpTo(armed, id) == armed[..k + 1]
  {
    if k > 0 {
      assert armed[0] == armed[..k][0];
      assert armed[1..][..k - 1] == armed[..k][1..];
      ArmingAgainCutsOff(armed[1..], id, k - 1);
      assert armed[..k + 1] == [armed[0]] + armed[1..][..k];
    }
  }

  class Clock {
    const monotonic: TimeSpec
    const realtime: TimeSpec
    var timers: map<nat, Timer>
    // The timers that a walk along armed_timers_list meets, in order.
    var armed: seq<nat>
    // Whether the links of armed_timers_list are those of a list.
    ghost var linked: bool

    ghost predicate Valid()
      reads this, monotonic, realtime
    {
      && monotonic != realtime && monotonic.value.Normal() && realtime.value.Normal()
      && linked && NoDuplicates(armed)
      && (forall id :: id in armed ==>
            id in timers && timers[id].remaining.Normal() && timers[id].interval.Normal() && !timers[id].fired)
    }

    constructor (epoch: nat)
      ensures Valid() && fresh(monotonic) && fresh(realtime) && armed == [] && timers == map[]
      ensures monotonic.value == ZERO && realtime.value == Time(epoch, 0)
    {
      monotonic := new TimeSpec;
      realtime := new TimeSpec;
      timers, armed, linked := map[], [], true;
      new;
      monotonic.value := ZERO;
      realtime.value := Time(epoch, 0);
    }

    /** The timer joins the list, which is one afterwards exactly if the timer was not armed. */
    method Arm(id: nat, time: Time, hasCallback: bool)
      requires Valid() && id in timers && time.Normal() && timers[id].interval.Normal()
      modifies `timers, `armed, `linked
      ensures Valid() <==> id !in old(armed)
      ensures armed == UpTo(old(armed), id)
      ensures timers == old(timers)[id := old(timers)[id].(remaining := time, fired := false,
                                                           hasCallback := old(timers)[id].hasCallback || hasCallback)]
    {
      var t := timers[id].(remaining := time, fired := false);
      if hasCallback {
        t := t.(hasCallback := true);
      }
      timers := timers[id := t];
      linked := id !in armed;
      if linked {
        ArmingAppends(armed, id);
      }
      armed := UpTo(armed, id);
    }

    method Disarm(id: nat)
      requires Valid() && id in timers
      modifies `timers, `armed
      ensures Valid() && armed == Without(old(armed), id)
      ensures timers == old(timers)[id := old(timers)[id].(remaining := ZERO, interval := ZERO, hasCallback := false)]
    {
      WithoutMembers(armed, id);
      timers := timers[id := timers[id].(remaining := ZERO, interval := ZERO)];
      timers := timers[id := timers[id].(hasCallback := false)];
      armed := Without(armed, id);
    }

    /** Both clocks advance exactly; every armed timer gets one tick, and those that have fired leave the list. */
    method UpdateTime(elapsed: Time)
      requires Valid() && elapsed.Normal()
      modifies this, monotonic, realtime
      ensures Valid()
      ensures monotonic.value.Total() == old(monotonic.value).Total() + elapsed.Total()
      ensures realtime.value.Total() == old(realtime.value).Total() + elapsed.Total()
      ensures timers.Keys == old(timers).Keys
      ensures forall id :: id in timers ==>
        timers[id] == if id in old(armed) then Tick(old(timers)[id], elapsed) else old(timers)[id]
      ensures forall id :: id in armed <==> id in old(armed) && id in timers && !timers[id].fired
    {
      hide Tick, NoDuplicates;
      monotonic.AddAssign(elapsed);
      realtime.AddAssign(elapsed);
      var ids := armed;
      var i := 0;
      while i < |ids|
        invariant i <= |ids| && Valid() && timers.Keys == old(timers).Keys && NoDuplicates(ids)
        invariant monotonic.value.Total() == old(monotonic.value).Total() + elapsed.Total()
        invariant realtime.value.Total() == old(realtime.value).Total() + elapsed.Total()
        invariant forall id :: id in timers ==>
          timers[id] == if id in ids[..i] then Tick(old(timers)[id], elapsed) else old(timers)[id]
        invariant forall id :: id in armed <==> id in ids && id in timers && (id in ids[..i] ==> !timers[id].fired)
      {
        FirstTaken(ids, i);
        UpdateTimer(ids[i], elapsed);
        i := i + 1;
      }
      assert ids[..i] == ids;
    }

    // The body of the loop in update_time.
    method UpdateTimer(id: nat, elapsed: Time)
      requires Valid() && elapsed.Normal() && id in armed
      modifies `timers, `armed
      ensures Valid() && timers == old(timers)[id := Tick(old(timers)[id], elapsed)]
      ensures armed == if timers[id].fired then Without(old(armed), id) else old(armed)
      ensures forall x :: x in armed <==> x in old(armed) && (x == id ==> !timers[id].fired)
    {
      WithoutMembers(armed, id);
      MinusExactIff(timers[id].remaining, elapsed);
      if timers[id].fired {
        return;
      }
      var remaining := new TimeSpec;
      remaining.value := timers[id].remaining;
      remaining.SubAssign(elapsed);
      var t := timers[id].(remaining := remaining.value);
      if t.remaining.IsZero() {
        if t.interval.IsZero() {
          t := t.(fired := true, triggers := t.triggers + 1);
          armed := Without(armed, id);
        } else {
          t := t.(remaining := t.interval);
        }
        if t.hasCallback {
          t := t.(calls := t.calls + 1);
        }
      }
      timers := timers[id := t];
    }
  }

  lemma FirstTaken(ids: seq<nat>, i: nat)
    requires NoDuplicates(ids) && i < |ids|
    ensures ids[i] !in ids[..i] && forall x :: x in ids[..i + 1] <==> x in ids[..i] || x == ids[i]
  {
    assert ids[..i + 1] == ids[..i] + [ids[i]];
  }

  // ----- how late or early a timer fires -----

  function Elapsed(ticks: seq<Time>): int {
    if ticks == [] then 0 else Elapsed(ticks[..|ticks| - 1]) + ticks[|ticks| - 1].Total()
  }

  function Ticks(t: Timer, ticks: seq<Time>): Timer {
    if ticks == [] then t else Tick(Ticks(t, ticks[..|ticks| - 1]), ticks[|ticks| - 1])
  }

  ghost predicate AllNormal(ticks: seq<Time>) {
    forall i :: 0 <= i < |ticks| ==> ticks[i].Normal()
  }

  // A timer as arm leaves it, without an interval.
  predicate OneShot(t: Timer, duration: Time) {
    t.remaining == duration && t.interval.IsZero() && !t.fired && duration.Normal() && !duration.IsZero()
  }

  /** After k ticks that took T together, what remains of D is at most D - T and at most k nanoseconds less. */
  lemma {:induction false} RemainingAfter(t: Timer, duration: Time, ticks: seq<Time>)
    requires OneShot(t, duration) && AllNormal(ticks)
    ensures var u, left := Ticks(t, ticks), duration.Total() - Elapsed(ticks);
      && u.remaining.Normal() && u.interval == t.interval
      && Max(0, left - |ticks|) <= u.remaining.Total() <= Max(0, left)
      && (u.fired <==> u.remaining.IsZero())
      && u.triggers == t.triggers + (if u.fired then 1 else 0)
      && Elapsed(ticks) >= 0
  {
    hide Minus;
    if ticks != [] {
      var n := |ticks| - 1;
      RemainingAfter(t, duration, ticks[..n]);
      MinusExactIff(Ticks(t, ticks[..n]).remaining, ticks[n]);
    }
  }

  /**
   A one-shot timer fires once, no later than the first tick at which the time has passed, and at most one
   nanosecond early for every tick.
   */
  lemma FiresInTime(t: Timer, duration: Time, ticks: seq<Time>)
    requires OneShot(t, duration) && AllNormal(ticks)
    ensures duration.Total() <= Elapsed(ticks) ==> Ticks(t, ticks).fired
    ensures Ticks(t, ticks).fired ==> duration.Total() <= Elapsed(ticks) + |ticks|
    ensures Ticks(t, ticks).triggers <= t.triggers + 1
  {
    RemainingAfter(t, duration, ticks);
  }

  /** The bound can be reached: this timer for one second fires after 999999999 nanoseconds. */
  lemma FiresEarly()
    ensures var t := Timer(Time(1, 0), ZERO, false, false, 0, 0);
      var ticks := [Time(0, 1), Time(0, 999_999_998)];
      OneShot(t, Time(1, 0)) && AllNormal(ticks) && Elapsed(ticks) == 999_999_999 && Ticks(t, ticks).fired
  {
    var t := Timer(Time(1, 0), ZERO, false, false, 0, 0);
    var ticks := [Time(0, 1), Time(0, 999_999_998)];
    assert ticks[..1] == [Time(0, 1)] && ticks[..1][..0] == [];
    assert Ticks(t, ticks[..1]) == Tick(t, Time(0, 1));
    assert Minus(Time(1, 0), Time(0, 1)) == Time(0, 999_999_998);
  }
}
