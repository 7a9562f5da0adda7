/**
 File descriptor tables and the reference counts of file descriptions (Process::allocate_fdnum and the table
 handling in kernel/kernel/src/sched/sched.cpp, kernel/kernel/src/fs/vfs.cpp and vfs.hpp, and the references held
 by mapped ranges in kernel/kernel/src/mem/vmm.cpp).
 */
module DescriptorTables {

  // A descriptor: the description it names and its close-on-exec flag.
  datatype Slot = Free | Used(description: nat, cloexec: bool)

  datatype Table = Table(slots: seq<Slot>, firstFree: nat, count: int)

  const MAX_DUP3_FD: int := 1023

  // ----- numbers -----

  // No free slot lies below first_free_fdnum.
  ghost predicate TableSound(t: Table) {
    t.firstFree <= |t.slots| && forall i :: 0 <= i < t.firstFree ==> t.slots[i] != Free
  }

  // The first free slot from a position on, or the size of the table.
  function FirstFreeFrom(slots: seq<Slot>, i: nat): (r: nat)
    requires i <= |slots|
    ensures i <= r <= |slots|
    ensures r < |slots| ==> slots[r] == Free
    ensures forall j :: i <= j < r ==> slots[j] != Free
    decreases |slots| - i
  {
    if i == |slots| || slots[i] == Free then i else FirstFreeFrom(slots, i + 1)
  }

  function SearchStart(t: Table, min: int): nat {
    if min < t.firstFree then t.firstFree else min
  }

  // The number that allocate_fdnum returns, and the table that it leaves.
  function AllocIndex(t: Table, min: int): (fd: nat)
    requires t.firstFree <= |t.slots|
    ensures fd <= |t.slots|
  {
    if SearchStart(t, min) <= |t.slots| then FirstFreeFrom(t.slots, SearchStart(t, min)) else |t.slots|
  }

  function AllocTable(t: Table, min: int): (r: Table)
    requires t.firstFree <= |t.slots|
  {
    var fd := AllocIndex(t, min);
    Table(if fd < |t.slots| then t.slots else t.slots + [Free],
          if min >= t.firstFree then t.firstFree else if fd < |t.slots| then fd + 1 else |t.slots|,
          t.count + 1)
  }

  // Once the slot has been filled the table is sound again.
  lemma AllocSound(t: Table, min: int, s: Slot)
    requires TableSound(t) && s != Free
    ensures var u, fd := AllocTable(t, min), AllocIndex(t, min);
      fd < |u.slots| && u.slots[fd] == Free && TableSound(u.(slots := u.slots[fd := s]))
  {
  }

  ghost predicate IsFreeOrNew(slots: seq<Slot>, i: nat) {
    i < |slots| ==> slots[i] == Free
  }

  /**
   The result is the lowest number not below min that is not in use exactly when min is at most the size of the
   table; a larger min gives the size of the table, which is too low.
   */
  lemma LowestIff(t: Table, min: nat)
    requires TableSound(t)
    ensures var fd := AllocIndex(t, min);
      && IsFreeOrNew(t.slots, fd)
      && ((min <= fd && forall j :: min <= j < fd ==> !IsFreeOrNew(t.slots, j)) <==> min <= |t.slots|)
      && (min > |t.slots| ==> fd == |t.slots|)
  {
  }

  /** An empty table hands out 0 when at least 5 is asked for. */
  lemma TooLow()
    ensures TableSound(Table([], 0, 0)) && AllocIndex(Table([], 0, 0), 5) == 0
  {
  }

  // ----- references -----

  function Names(s: Slot, d: nat): nat {
    if s.Used? && s.description == d then 1 else 0
  }

  function CountIn(slots: seq<Slot>, d: nat): nat {
    if slots == [] then 0 else CountIn(slots[..|slots| - 1], d) + Names(slots[|slots| - 1], d)
  }

  function Total(tables: seq<Table>, d: nat): nat {
    if tables == [] then 0 else Total(tables[..|tables| - 1], d) + CountIn(tables[|tables| - 1].slots, d)
  }

  lemma {:induction false} CountSet(slots: seq<Slot>, i: nat, s: Slot, d: nat)
    requires i < |slots|
    ensures CountIn(slots[i := s], d) == CountIn(slots, d) - Names(slots[i], d) + Names(s, d)
    ensures Names(slots[i], d) <= CountIn(slots, d)
    decreases |slots|
  {
    var n := |slots| - 1;
    if i < n {
      CountSet(slots[..n], i, s, d);
      assert slots[i := s][..n] == slots[..n][i := s];
    } else {
      assert slots[i := s][..n] == slots[..n];
    }
  }

  lemma CountAppend(slots: seq<Slot>, s: Slot, d: nat)
    ensures CountIn(slots + [s], d) == CountIn(slots, d) + Names(s, d)
  {
    assert (slots + [s])[..|slots|] == slots;
  }

  lemma {:induction false} TotalSet(tables: seq<Table>, p: nat, t: Table, d: nat)
    requires p < |tables|
    ensures Total(tables[p := t], d) == Total(tables, d) - CountIn(tables[p].slots, d) + CountIn(t.slots, d)
    ensures CountIn(tables[p].slots, d) <= Total(tables, d)
    decreases |tables|
  {
    var n := |tables| - 1;
    if p < n {
      TotalSet(tables[..n], p, t, d);
      assert tables[p := t][..n] == tables[..n][p := t];
    } else {
      assert tables[p := t][..n] == tables[..n];
    }
  }

  function SetSlot(tables: seq<Table>, p: nat, fd: nat, s: Slot): seq<Table>
    requires p < |tables| && fd < |tables[p].slots|
  {
    tables[p := tables[p].(slots := tables[p].slots[fd := s])]
  }

  // How one slot changes the number of slots that name a description.
  lemma SetSlotTotal(tables: seq<Table>, p: nat, fd: nat, s: Slot, d: nat)
    requires p < |tables| && fd < |tables[p].slots|
    ensures Total(SetSlot(tables, p, fd, s), d) == Total(tables, d) - Names(tables[p].slots[fd], d) + Names(s, d)
    ensures Names(tables[p].slots[fd], d) <= Total(tables, d)
  {
    TotalSet(tables, p, tables[p].(slots := tables[p].slots[fd := s]), d);
    CountSet(tables[p].slots, fd, s, d);
  }

  // Other fields of a table, and free slots at its end, name nothing.
  lemma SameCount(tables: seq<Table>, p: nat, t: Table, d: nat)
    requires p < |tables| && CountIn(t.slots, d) == CountIn(tables[p].slots, d)
    ensures Total(tables[p := t], d) == Total(tables, d)
  {
    TotalSet(tables, p, t, d);
  }

  function RefOf(refs: map<nat, nat>, d: nat): nat {
    if d in refs then refs[d] else 0
  }

  function Increment(refs: map<nat, nat>, d: nat): (r: map<nat, nat>)
    requires d in refs
  {
    refs[d := refs[d] + 1]
  }

  // A description is deleted with its last reference.
  function Decrement(refs: map<nat, nat>, d: nat): (r: map<nat, nat>)
    requires d in refs && refs[d] > 0
  {
    if refs[d] == 1 then refs - {d} else refs[d := refs[d] - 1]
  }

  // Every description that exists counts the slots and the mapped ranges that name it; there are no others.
  ghost predicate RefsSound(tables: seq<Table>, refs: map<nat, nat>, ranges: multiset<nat>) {
    && (forall d: nat :: RefOf(refs, d) == Total(tables, d) + ranges[d])
    && (forall d :: d in refs ==> refs[d] > 0)
  }

  lemma SlotEmptied(tables: seq<Table>, p: nat, fd: nat, refs: map<nat, nat>, ranges: multiset<nat>)
    requires p < |tables| && fd < |tables[p].slots| && tables[p].slots[fd].Used? && RefsSound(tables, refs, ranges)
    ensures var d := tables[p].slots[fd].description;
      && d in refs && refs[d] > 0
      && RefsSound(SetSlot(tables, p, fd, Free), Decrement(refs, d), ranges)
      && (d !in Decrement(refs, d) <==> Total(SetSlot(tables, p, fd, Free), d) == 0 && ranges[d] == 0)
  {
    var d := tables[p].slots[fd].description;
    SetSlotTotal(tables, p, fd, Free, d);
    assert RefOf(refs, d) == Total(tables, d) + ranges[d];
    forall e: nat ensures RefOf(Decrement(refs, d), e) == Total(SetSlot(tables, p, fd, Free), e) + ranges[e] {
      SetSlotTotal(tables, p, fd, Free, e);
      assert RefOf(refs, e) == Total(tables, e) + ranges[e];
    }
  }

  lemma SlotFilled(tables: seq<Table>, p: nat, fd: nat, s: Slot, refs: map<nat, nat>, ranges: multiset<nat>)
    requires p < |tables| && fd < |tables[p].slots| && tables[p].slots[fd] == Free && s.Used?
    requires RefsSound(tables, refs, ranges)
    ensures var d := s.description;
      RefsSound(SetSlot(tables, p, fd, s), if d in refs then Increment(refs, d) else refs[d := 1], ranges)
  {
    var d := s.description;
    forall e: nat ensures RefOf(if d in refs then Increment(refs, d) else refs[d := 1], e)
      == Total(SetSlot(tables, p, fd, s), e) + ranges[e]
    {
      SetSlotTotal(tables, p, fd, s, e);
      assert RefOf(refs, e) == Total(tables, e) + ranges[e];
    }
  }

  // A table whose slots only grow by free ones.
  lemma TableGrown(tables: seq<Table>, p: nat, t: Table, refs: map<nat, nat>, ranges: multiset<nat>)
    requires p < |tables| && RefsSound(tables, refs, ranges)
    requires t.slots == tables[p].slots || t.slots == tables[p].slots + [Free]
    ensures RefsSound(tables[p := t], refs, ranges)
  {
    forall d: nat ensures RefOf(refs, d) == Total(tables[p := t], d) + ranges[d] {
      CountAppend(tables[p].slots, Free, d);
      SameCount(tables, p, t, d);
      assert RefOf(refs, d) == Total(tables, d) + ranges[d];
    }
  }

  lemma NewTable(tables: seq<Table>, t: Table, refs: map<nat, nat>, ranges: multiset<nat>)
    requires t.slots == [] && RefsSound(tables, refs, ranges)
    ensures RefsSound(tables + [t], refs, ranges)
  {
    forall d: nat ensures RefOf(refs, d) == Total(tables + [t], d) + ranges[d] {
      assert (tables + [t])[..|tables|] == tables;
      assert RefOf(refs, d) == Total(tables, d) + ranges[d];
    }
  }

  lemma RangeAdded(tables: seq<Table>, d: nat, refs: map<nat, nat>, ranges: multiset<nat>)
    requires RefsSound(tables, refs, ranges) && d in refs
    ensures RefsSound(tables, Increment(refs, d), ranges[d := ranges[d] + 1])
  {
    forall e: nat ensures RefOf(Increment(refs, d), e) == Total(tables, e) + ranges[d := ranges[d] + 1][e] {
      assert RefOf(refs, e) == Total(tables, e) + ranges[e];
    }
  }

  lemma RangeRemoved(tables: seq<Table>, d: nat, refs: map<nat, nat>, ranges: multiset<nat>)
    requires RefsSound(tables, refs, ranges) && ranges[d] > 0
    ensures d in refs && refs[d] > 0 && RefsSound(tables, Decrement(refs, d), ranges[d := ranges[d] - 1])
  {
    assert RefOf(refs, d) == Total(tables, d) + ranges[d];
    forall e: nat ensures RefOf(Decrement(refs, d), e) == Total(tables, e) + ranges[d := ranges[d] - 1][e] {
      assert RefOf(refs, e) == Total(tables, e) + ranges[e];
    }
  }

  // A description that a slot names exists.
  lemma NamedExists(tables: seq<Table>, p: nat, fd: nat, refs: map<nat, nat>, ranges: multiset<nat>)
    requires p < |tables| && fd < |tables[p].slots| && tables[p].slots[fd].Used? && RefsSound(tables, refs, ranges)
    ensures tables[p].slots[fd].description in refs
  {
    SlotEmptied(tables, p, fd, refs, ranges);
  }

  // ----- the tables of all processes -----

  // Closing a slot: what FileDescriptor::close does to the table.
  function ClosedTable(t: Table, fd: nat): Table
    requires fd < |t.slots|
  {
    Table(t.slots[fd := Free], if t.firstFree > fd then fd else t.firstFree, t.count - 1)
  }

  lemma ClosedSound(t: Table, fd: nat)
    requires TableSound(t) && fd < |t.slots|
    ensures TableSound(ClosedTable(t, fd))
  {
  }

  // The table after a number has been allocated and its slot filled.
  function Opened(t: Table, min: int, s: Slot): Table
    requires TableSound(t) && s != Free
  {
    AllocSound(t, min, s);
    var u := AllocTable(t, min);
    u.(slots := u.slots[AllocIndex(t, min) := s])
  }

  // A table with free slots added until it has n of them.
  function Grown(t: Table, n: nat): (r: Table)
    ensures |r.slots| == if n <= |t.slots| then |t.slots| else n
    ensures forall i :: 0 <= i < |r.slots| ==> r.slots[i] == if i < |t.slots| then t.slots[i] else Free
    ensures r.firstFree == t.firstFree && r.count == t.count
    decreases n
  {
    if n <= |t.slots| then t else var u := Grown(t, n - 1); u.(slots := u.slots + [Free])
  }

  // The table of dup3 before its slot is filled: grown to the number and the slot emptied. The number of
  // descriptors is not raised for the new one.
  function Dup3Table(t: Table, fd: nat): (r: Table)
    ensures fd < |r.slots| && r.slots[fd] == Free
  {
    var grown := Grown(t, fd + 1);
    if grown.slots[fd].Used? then ClosedTable(grown, fd) else grown
  }

  lemma Dup3Sound(t: Table, fd: nat, s: Slot)
    requires TableSound(t) && s != Free
    ensures TableSound(Dup3Table(t, fd).(slots := Dup3Table(t, fd).slots[fd := s]))
  {
  }

  // The slots that a child of fork gets are those of its parent, flags included.
  lemma CopyStep(slots: seq<Slot>, i: nat)
    requires i < |slots|
    ensures slots[..i] + [slots[i]] == slots[..i + 1]
  {
  }

  datatype Result = Ok(fd: nat) | BadDescriptor | Invalid

  class Tables {
    // One table for each process; that of a process that has ended has no used slots.
    var procs: seq<Table>
    var refs: map<nat, nat>
    // The files that mapped ranges hold a reference to.
    var ranges: multiset<nat>
    // Descriptions that have existed have lower numbers.
    var next: nat

    ghost predicate Valid()
      reads this
    {
      && (forall p :: 0 <= p < |procs| ==> TableSound(procs[p]))
      && RefsSound(procs, refs, ranges) && (forall d :: d in refs ==> d < next)
    }

    constructor ()
      ensures Valid() && procs == [] && refs == map[]
    {
      procs, refs, ranges, next := [], map[], multiset{}, 0;
    }

    /** Process::allocate_fdnum; the caller fills the slot. */
    method AllocateFdnum(p: nat, min: int) returns (fd: nat)
      requires Valid() && p < |procs|
      modifies `procs
      ensures procs == old(procs)[p := AllocTable(old(procs)[p], min)] && fd == AllocIndex(old(procs)[p], min)
      ensures RefsSound(procs, refs, ranges)
    {
      ghost var t := procs[p];
      TableGrown(procs, p, AllocTable(t, min), refs, ranges);
      procs := procs[p := procs[p].(count := procs[p].count + 1)];
      var begin := min;
      if min < procs[p].firstFree {
        begin := procs[p].firstFree;
      }
      var i: nat := begin;
      while i < |procs[p].slots|
        invariant procs == old(procs)[p := t.(count := t.count + 1)] && begin == SearchStart(t, min) <= i
        invariant i <= |t.slots| ==> FirstFreeFrom(t.slots, i) == FirstFreeFrom(t.slots, begin)
        invariant begin <= |t.slots| ==> i <= |t.slots|
      {
        if procs[p].slots[i] == Free {
          if min < procs[p].firstFree {
            procs := procs[p := procs[p].(firstFree := i + 1)];
          }
          return i;
        }
        i := i + 1;
      }
      if min < procs[p].firstFree {
        procs := procs[p := procs[p].(firstFree := |procs[p].slots|)];
      }
      procs := procs[p := procs[p].(slots := procs[p].slots + [Free])];
      fd := |procs[p].slots| - 1;
    }

    // A slot that names an existing description, or a new one, for the first time.
    method Fill(p: nat, fd: nat, s: Slot)
      requires p < |procs| && fd < |procs[p].slots| && procs[p].slots[fd] == Free && s.Used?
      requires RefsSound(procs, refs, ranges)
      modifies `procs, `refs
      ensures procs == SetSlot(old(procs), p, fd, s) && RefsSound(procs, refs, ranges)
      ensures refs == if s.description in old(refs) then Increment(old(refs), s.description) else old(refs)[s.description := 1]
    {
      SlotFilled(procs, p, fd, s, refs, ranges);
      refs := if s.description in refs then Increment(refs, s.description) else refs[s.description := 1];
      procs := SetSlot(procs, p, fd, s);
    }

    /** FileDescriptor::close: the description goes away exactly when nothing names it any more. */
    method CloseDescriptor(p: nat, fd: nat)
      requires Valid() && p < |procs| && fd < |procs[p].slots| && procs[p].slots[fd].Used?
      modifies `procs, `refs
      ensures Valid() && procs == old(procs)[p := ClosedTable(old(procs)[p], fd)]
      ensures var d := old(procs)[p].slots[fd].description;
        && d in old(refs) && old(refs)[d] > 0 && refs == Decrement(old(refs), d)
        && (d !in refs <==> Total(procs, d) == 0 && ranges[d] == 0)
    {
      hide RefsSound, TableSound, Total, CountIn;
      SlotEmptied(procs, p, fd, refs, ranges);
      ClosedSound(procs[p], fd);
      var d := procs[p].slots[fd].description;
      refs := Decrement(refs, d);
      procs := SetSlot(procs, p, fd, Free);
      var t := procs[p].(count := procs[p].count - 1);
      if t.firstFree > fd {
        t := t.(firstFree := fd);
      }
      TableGrown(procs, p, t, refs, ranges);
      SameCount(procs, p, t, d);
      procs := procs[p := t];
    }

    // The descriptor of fd, or None for a number that is out of range or free.
    method Lookup(p: nat, fd: int) returns (s: Slot)
      requires p < |procs|
      ensures s == if 0 <= fd < |procs[p].slots| then procs[p].slots[fd] else Free
    {
      if fd >= |procs[p].slots| || fd < 0 {
        return Free;
      }
      s := procs[p].slots[fd];
    }

    /** A new description in the lowest free slot. */
    method Open(p: nat, cloexec: bool) returns (fd: nat)
      requires Valid() && p < |procs|
      modifies this
      ensures Valid() && fd == AllocIndex(old(procs)[p], 0) && ranges == old(ranges)
      ensures procs == old(procs)[p := Opened(old(procs)[p], 0, Used(old(next), cloexec))]
      ensures old(next) !in old(refs) && refs == old(refs)[old(next) := 1]
    {
      hide RefsSound, TableSound, AllocTable, AllocIndex;
      AllocSound(procs[p], 0, Used(next, cloexec));
      fd := AllocateFdnum(p, 0);
      Fill(p, fd, Used(next, cloexec));
      next := next + 1;
    }

    method Close(p: nat, fd: int) returns (r: Result)
      requires Valid() && p < |procs|
      modifies `procs, `refs
      ensures Valid()
      ensures var open := 0 <= fd < |old(procs)[p].slots| && old(procs)[p].slots[fd].Used?;
        && (r == BadDescriptor <==> !open) && (open ==> r == Ok(fd))
        && (if open then procs == old(procs)[p := ClosedTable(old(procs)[p], fd)] else procs == old(procs) && refs == old(refs))
    {
      hide RefsSound, TableSound, Total, CountIn;
      var s := Lookup(p, fd);
      if s == Free {
        return BadDescriptor;
      }
      CloseDescriptor(p, fd);
      r := Ok(fd);
    }

    /** fcntl with F_DUPFD or F_DUPFD_CLOEXEC, and dup with min 0. */
    method Dup(p: nat, fd: int, min: int, cloexec: bool) returns (r: Result)
      requires Valid() && p < |procs|
      modifies `procs, `refs
      ensures Valid()
      ensures var open := 0 <= fd < |old(procs)[p].slots| && old(procs)[p].slots[fd].Used?;
        && (r == BadDescriptor <==> !open) && (!open ==> procs == old(procs) && refs == old(refs))
        && (open ==>
              var s := Used(old(procs)[p].slots[fd].description, cloexec);
              && r == Ok(AllocIndex(old(procs)[p], min)) && procs == old(procs)[p := Opened(old(procs)[p], min, s)]
              && s.description in old(refs) && refs == Increment(old(refs), s.description))
    {
      hide RefsSound, TableSound, AllocTable, AllocIndex, Total, CountIn;
      var s := Lookup(p, fd);
      if s == Free {
        return BadDescriptor;
      }
      NamedExists(procs, p, fd, refs, ranges);
      AllocSound(procs[p], min, s.(cloexec := cloexec));
      var newFd := AllocateFdnum(p, min);
      Fill(p, newFd, s.(cloexec := cloexec));
      r := Ok(newFd);
    }

    // Growing a table by one free slot.
    method PushFree(p: nat)
      requires Valid() && p < |procs|
      modifies `procs
      ensures Valid() && procs == old(procs)[p := old(procs)[p].(slots := old(procs)[p].slots + [Free])]
    {
      hide RefsSound;
      var t := procs[p].(slots := procs[p].slots + [Free]);
      TableGrown(procs, p, t, refs, ranges);
      procs := procs[p := t];
    }

    /** dup2 and dup3: newFd ends up as a duplicate of oldFd, whatever it was before. */
    method Dup3(p: nat, oldFd: int, newFd: int, flags: nat) returns (r: Result)
      requires Valid() && p < |procs|
      modifies `procs, `refs
      ensures Valid()
      ensures var open := 0 <= oldFd < |old(procs)[p].slots| && old(procs)[p].slots[oldFd].Used?;
        && (r == BadDescriptor <==> !open || newFd < 0 || newFd > MAX_DUP3_FD)
        && (r == Invalid <==> open && 0 <= newFd <= MAX_DUP3_FD && flags > 1)
        && (r.Ok? ==> r.fd == newFd)
        && (!r.Ok? || oldFd == newFd ==> procs == old(procs) && refs == old(refs))
        && (r.Ok? && oldFd != newFd ==>
              var t, s := Dup3Table(old(procs)[p], newFd), Used(old(procs)[p].slots[oldFd].description, flags == 1);
              procs == old(procs)[p := t.(slots := t.slots[newFd := s])])
    {
      hide RefsSound, Total, CountIn;
      var s := Lookup(p, oldFd);
      if oldFd >= |procs[p].slots| || oldFd < 0 || newFd > MAX_DUP3_FD || newFd < 0 || s == Free {
        return BadDescriptor;
      }
      if flags > 1 {
        return Invalid;
      }
      if oldFd == newFd {
        return Ok(newFd);
      }
      ghost var t := procs[p];
      Dup3Sound(t, newFd, s.(cloexec := flags == 1));
      while |procs[p].slots| <= newFd
        invariant Valid() && refs == old(refs) && |procs| == |old(procs)| && |t.slots| <= |procs[p].slots|
        invariant |procs[p].slots| > |t.slots| ==> |procs[p].slots| <= newFd + 1
        invariant procs[p] == Grown(t, |procs[p].slots|) && procs == old(procs)[p := procs[p]]
        decreases newFd - |procs[p].slots|
      {
        PushFree(p);
      }
      if procs[p].slots[newFd] != Free {
        CloseDescriptor(p, newFd);
      }
      assert procs[p] == Dup3Table(t, newFd);
      NamedExists(procs, p, oldFd, refs, ranges);
      Fill(p, newFd, Used(s.description, flags == 1));
      r := Ok(newFd);
    }

    /** fork copies the table slot by slot; every copy is one more reference. */
    method Fork(p: nat) returns (child: nat)
      requires Valid() && p < |procs|
      modifies `procs, `refs
      ensures Valid() && child == |old(procs)| && procs == old(procs) + [old(procs)[p]]
    {
      hide RefsSound, Total, CountIn;
      child := |procs|;
      ghost var before, t := procs, procs[p];
      var parent := procs[p];
      NewTable(procs, Table([], 0, 0), refs, ranges);
      procs := procs + [Table([], 0, 0)];
      var i := 0;
      while i < |parent.slots|
        invariant i <= |parent.slots| && Valid() && procs == before + [Table(parent.slots[..i], 0, 0)]
      {
        CopyStep(parent.slots, i);
        assert procs[p] == parent;
        PushFree(child);
        if parent.slots[i].Used? {
          NamedExists(procs, p, i, refs, ranges);
          Fill(child, i, parent.slots[i]);
        }
        assert procs[child] == Table(parent.slots[..i + 1], 0, 0) && procs == before + [procs[child]];
        i := i + 1;
      }
      var copy := procs[child].(count := parent.count, firstFree := parent.firstFree);
      assert parent.slots[..i] == parent.slots;
      TableGrown(procs, child, copy, refs, ranges);
      procs := procs[child := copy];
      assert procs == before + [parent];
    }

    // The loops over all slots in user_exec, which closes those with the close-on-exec flag, and in zombify.
    method CloseSlots(p: nat, all: bool)
      requires Valid() && p < |procs|
      modifies `procs, `refs
      ensures Valid() && |procs| == |old(procs)| && |procs[p].slots| == |old(procs)[p].slots|
      ensures forall q :: 0 <= q < |procs| && q != p ==> procs[q] == old(procs)[q]
      ensures forall i :: 0 <= i < |procs[p].slots| ==>
        procs[p].slots[i] == if Closes(old(procs)[p].slots[i], all) then Free else old(procs)[p].slots[i]
    {
      hide RefsSound, Total, CountIn, TableSound;
      ghost var before := procs[p].slots;
      var i := 0;
      while i < |procs[p].slots|
        invariant Valid() && |procs| == |old(procs)| && i <= |procs[p].slots| == |before|
        invariant forall q :: 0 <= q < |procs| && q != p ==> procs[q] == old(procs)[q]
        invariant forall j :: 0 <= j < |before| ==>
          procs[p].slots[j] == if j < i && Closes(before[j], all) then Free else before[j]
      {
        if Closes(procs[p].slots[i], all) {
          CloseDescriptor(p, i);
        }
        i := i + 1;
      }
    }

    // A mapped range takes a reference to its file, and gives it up when it goes away.
    method MapFile(d: nat)
      requires Valid() && d in refs
      modifies `refs, `ranges
      ensures Valid() && refs == Increment(old(refs), d) && ranges == old(ranges)[d := old(ranges)[d] + 1]
    {
      RangeAdded(procs, d, refs, ranges);
      refs := Increment(refs, d);
      ranges := ranges[d := ranges[d] + 1];
    }

    method UnmapFile(d: nat)
      requires Valid() && ranges[d] > 0
      modifies `refs, `ranges
      ensures Valid() && ranges == old(ranges)[d := old(ranges)[d] - 1]
      ensures d in old(refs) && old(refs)[d] > 0 && refs == Decrement(old(refs), d)
    {
      hide Total;
      RangeRemoved(procs, d, refs, ranges);
      refs := Decrement(refs, d);
      ranges := ranges[d := ranges[d] - 1];
    }

    /** A description exists exactly as long as a slot or a mapped range names it, and counts how many do. */
    lemma ExistsIffNamed(d: nat)
      requires Valid()
      ensures d in refs <==> Total(procs, d) + ranges[d] > 0
      ensures d in refs ==> refs[d] == Total(procs, d) + ranges[d]
    {
      assert RefOf(refs, d) == Total(procs, d) + ranges[d];
    }
  }

  predicate Closes(s: Slot, all: bool) {
    s.Used? && (all || s.cloexec)
  }

  // ----- the number of descriptors -----

  function UsedSlots(slots: seq<Slot>): nat {
    if slots == [] then 0 else UsedSlots(slots[..|slots| - 1]) + (if slots[|slots| - 1].Used? then 1 else 0)
  }

  lemma {:induction false} UsedSet(slots: seq<Slot>, i: nat, s: Slot)
    requires i < |slots|
    ensures UsedSlots(slots[i := s]) == UsedSlots(slots) - (if slots[i].Used? then 1 else 0) + (if s.Used? then 1 else 0)
    decreases |slots|
  {
    var n := |slots| - 1;
    if i < n {
      UsedSet(slots[..n], i, s);
      assert slots[i := s][..n] == slots[..n][i := s];
    } else {
      assert slots[i := s][..n] == slots[..n];
    }
  }

  lemma {:induction false} GrownUsed(t: Table, n: nat)
    ensures UsedSlots(Grown(t, n).slots) == UsedSlots(t.slots)
    decreases n
  {
    hide UsedSlots;
    if n > |t.slots| {
      GrownUsed(t, n - 1);
      UsedAppendFree(Grown(t, n - 1).slots);
    }
  }

  lemma UsedAppendFree(slots: seq<Slot>)
    ensures UsedSlots(slots + [Free]) == UsedSlots(slots)
  {
    assert (slots + [Free])[..|slots|] == slots;
  }

  /** The number of descriptors stays right through allocation and closing ... */
  lemma CountKept(t: Table, min: int, fd: nat, s: Slot)
    requires TableSound(t) && t.count == UsedSlots(t.slots) && s.Used?
    ensures Opened(t, min, s).count == UsedSlots(Opened(t, min, s).slots)
    ensures fd < |t.slots| && t.slots[fd].Used? ==> ClosedTable(t, fd).count == UsedSlots(ClosedTable(t, fd).slots)
  {
    AllocSound(t, min, s);
    var u := AllocTable(t, min);
    UsedSet(u.slots, AllocIndex(t, min), s);
    assert (t.slots + [Free])[..|t.slots|] == t.slots;
    if fd < |t.slots| {
      UsedSet(t.slots, fd, Free);
    }
  }

  /** ... but dup3 never counts the descriptor that it makes, so that the number is one too low afterwards. */
  lemma Dup3CountsOneTooFew(t: Table, fd: nat, s: Slot)
    requires TableSound(t) && t.count == UsedSlots(t.slots) && s.Used?
    ensures var u := Dup3Table(t, fd); u.count == UsedSlots(u.slots[fd := s]) - 1
  {
    GrownUsed(t, fd + 1);
    var grown, u := Grown(t, fd + 1), Dup3Table(t, fd);
    UsedSet(grown.slots, fd, Free);
    UsedSet(u.slots, fd, s);
    assert u.slots == if grown.slots[fd].Used? then grown.slots[fd := Free] else grown.slots;
  }
}
