/**
 Runs of the memory system: any number of address spaces that share the physical pages, and any
 sequence of faults, copies into a space, maps, unmaps, protection changes, forks and process exits.
 */
module MemoryRuns {

  import opened Algorithm
  import opened Lists
  import opened PhysicalMemory
  import opened RangeList
  import opened FrameOwnership
  import opened MemoryMeaning
  import opened AddressSpace
  import opened MemorySyscalls
  import opened Fork

  // What is mapped, page-aligned as add_range expects it.
  type MapRequest = r: Request | r.Sound()
    witness Request(0, 0, PageFlags(false, false, false, false), NONE, None, 0, false)

  // An operation of the address space with an id.  Create makes an empty one, as exec does, under the next
  // id that is not taken.
  datatype Op =
    | FaultAt(id: nat, addr: nat)
    | WriteTo(id: nat, addr: nat, data: seq<bv8>)
    | Map(id: nat, request: MapRequest, merge: bool)
    | Unmap(id: nat, addr: nat, length: nat)
    | Protect(id: nat, addr: nat, length: nat, write: bool, exec: bool)
    | DontNeed(id: nat, addr: nat, length: nat)
    | ForkOf(id: nat)
    | Create(id: nat)
    | Exit(id: nat)

  // The state of the page structs and of all address spaces.
  datatype System = System(pages: map<Pfn, Page>, spaces: map<nat, Space>, nextId: nat)

  // ----- what one operation does -----

  // The space is the same and every address of it reads the same byte.
  ghost predicate Undisturbed(s: Space, t: Space) {
    && t.id == s.id && t.ranges == s.ranges && t.nextId == s.nextId && t.ptes == s.ptes
    && SameReads(s, t)
  }

  ghost predicate SameReads(s: Space, t: Space) {
    forall files: Files, a: nat :: ByteAt(t, files, a) == ByteAt(s, files, a)
  }

  ghost predicate NoFreePage(pages: map<Pfn, Page>) {
    forall f :: f in pages ==> !pages[f].free
  }

  // What an operation does to its own space.  WriteTo copies as many bytes as reached says, and Protect
  // gets to the address that reached says.
  ghost predicate Effect(op: Op, s: Space, t: Space, reached: nat, files: Files) {
    match op
    case FaultAt(_, addr) =>
      && t.ranges == s.ranges
      && StoredBytes(s, t, files, addr, [])
      && (PageNumber(addr) in t.ptes || View(s.ranges, addr).None? || NoFreePage(t.pages))
    case WriteTo(_, addr, data) =>
      && t.ranges == s.ranges
      && reached <= |data|
      && StoredBytes(s, t, files, addr, data[..reached])
      && (reached == |data| || View(s.ranges, addr + reached).None? || NoFreePage(t.pages))
    case Map(_, request, _) =>
      AddedRange(s, t, request)
    case Unmap(_, addr, length) =>
      if Aligned(addr) then AddedRange(s, t, UnmapRequest(addr, AlignUp(length, 4096))) else t == s
    case Protect(_, addr, length, write, exec) =>
      && SameResidents(s, t)
      && ProtectedTo(s, t, addr, reached, ProtToPageFlags(write, exec))
      && addr <= reached
      && (if !Aligned(addr) then reached == addr
          else reached == addr + AlignUp(length, 4096)
               || (reached < addr + AlignUp(length, 4096) && View(s.ranges, reached).None?))
    case DontNeed(_, addr, length) =>
      if Aligned(addr) then DontNeeded(s, t, files, addr, addr + AlignUp(length, 4096)) else t == s
    case ForkOf(_) =>
      Undisturbed(s, t)
    case Create(_) | Exit(_) =>
      true
  }

  // An operation acts on a space that exists, or on the next one if it creates it.
  ghost predicate Enabled(s: System, op: Op) {
    if op.Create? then op.id == s.nextId else op.id in s.spaces
  }

  predicate MakesSpace(op: Op) {
    op.ForkOf? || op.Create?
  }

  // What a new space is like: a copy of its parent, or empty.
  ghost predicate Started(op: Op, s: System, c: Space)
    requires MakesSpace(op) && Enabled(s, op)
  {
    if op.ForkOf? then Forked(s.spaces[op.id], c) else c.ranges == [] && c.ptes == map[]
  }

  // What an operation does to the whole system.
  ghost predicate Transition(s: System, t: System, op: Op, reached: nat, files: Files)
    requires Enabled(s, op)
  {
    && DetachedKept(s.pages, t.pages)
    && t.nextId == s.nextId + (if MakesSpace(op) then 1 else 0)
    // every other address space reads the same
    && (forall i :: i in s.spaces && i != op.id ==> i in t.spaces && Undisturbed(s.spaces[i], t.spaces[i]))
    // only fork and creation make a new one, unless the pages run out
    && (forall i :: i in t.spaces ==> i in s.spaces || (MakesSpace(op) && i == s.nextId))
    && (MakesSpace(op) ==>
          if s.nextId in t.spaces then Started(op, s, t.spaces[s.nextId]) else NoFreePage(t.pages))
    && match op {
      case Exit(id) => id !in t.spaces && t.pages == FreedSpace(s.pages, id)
      case Create(_) => true
      case _ => op.id in t.spaces && Effect(op, s.spaces[op.id], t.spaces[op.id], reached, files)
    }
  }

  // Pages that were allocated without being put on a list are the business of others.
  ghost predicate DetachedKept(p: map<Pfn, Page>, q: map<Pfn, Page>) {
    && q.Keys == p.Keys
    && (forall f :: f in p ==> (q[f].link == Detached <==> p[f].link == Detached))
    && (forall f :: f in p && p[f].link == Detached ==> q[f] == p[f])
  }

  ghost predicate SoundSystem(s: System) {
    && IdsBelow(s.pages, s.nextId)
    && (forall i :: i in s.spaces ==> SoundSpace(s, i))
  }

  ghost predicate SoundSpace(s: System, i: nat)
    requires i in s.spaces
  {
    && i < s.nextId
    && s.spaces[i].id == i && s.spaces[i].pages == s.pages
    && WellFormed(s.spaces[i].ranges, s.spaces[i].nextId) && Owned(s.spaces[i])
  }

  ghost predicate IdsBelow(pages: map<Pfn, Page>, n: nat) {
    forall f :: f in pages ==> LinkBelow(pages[f].link, n)
  }

  predicate LinkBelow(link: Link, n: nat) {
    match link
    case Detached => true
    case OnFreelist => true
    case OnRange(space, _) => space < n
    case OnTables(space) => space < n
  }

  // ----- runs -----

  // trace[k] is the state before operation k; an operation that is not enabled has no effect.
  ghost predicate IsRun(trace: seq<System>, ops: seq<Op>, reached: seq<nat>, files: Files) {
    && |trace| == |ops| + 1 && |reached| == |ops|
    && (forall k :: 0 <= k <= |ops| ==> SoundSystem(trace[k]))
    && (forall k :: 0 <= k < |ops| ==> RunStep(trace[k], trace[k + 1], ops[k], reached[k], files))
  }

  ghost predicate RunStep(s: System, t: System, op: Op, reached: nat, files: Files) {
    if Enabled(s, op) then Transition(s, t, op, reached, files) else t == s
  }

  lemma SameReadsTransitive(s: Space, t: Space, u: Space)
    requires SameReads(s, t) && SameReads(t, u)
    ensures SameReads(s, u)
  {
    forall files: Files, a: nat ensures ByteAt(u, files, a) == ByteAt(s, files, a) {
      assert ByteAt(t, files, a) == ByteAt(s, files, a);
    }
  }

  /** Isolation: as long as no operation acts on an address space, it stays as it is and reads the same
      bytes, whatever all others do. */
  lemma {:induction false} Isolation(trace: seq<System>, ops: seq<Op>, reached: seq<nat>, files: Files,
                                     i: nat, first: nat, last: nat)
    requires IsRun(trace, ops, reached, files) && first <= last <= |ops|
    requires i in trace[first].spaces
    requires forall k :: first <= k < last ==> ops[k].id != i
    ensures i in trace[last].spaces && Undisturbed(trace[first].spaces[i], trace[last].spaces[i])
    decreases last
  {
    hide SoundSystem, SameReads, Effect, DetachedKept;
    if first == last {
      SameReadsReflexive(trace[first].spaces[i]);
    } else {
      Isolation(trace, ops, reached, files, i, first, last - 1);
      assert RunStep(trace[last - 1], trace[last], ops[last - 1], reached[last - 1], files);
      var s, t, u := trace[first].spaces[i], trace[last - 1].spaces[i], trace[last].spaces[i];
      if u == t {
        SameReadsReflexive(t);
      }
      SameReadsTransitive(s, t, u);
    }
  }

  lemma SameReadsReflexive(s: Space)
    ensures SameReads(s, s)
  {
  }

  /** A fork is a snapshot: as long as the child is left alone, it reads at every anonymous or resident
      address what the parent read when it forked, whatever happens to the parent, to their siblings and
      to the child's own children. */
  lemma ForkIsSnapshot(trace: seq<System>, ops: seq<Op>, reached: seq<nat>, files: Files, k: nat, last: nat, a: nat)
    requires IsRun(trace, ops, reached, files) && k < last <= |ops|
    requires ops[k].ForkOf? && ops[k].id in trace[k].spaces
    requires var child := trace[k].nextId;
      child in trace[k + 1].spaces && forall l :: k < l < last ==> ops[l].id != child
    requires var parent := trace[k].spaces[ops[k].id];
      PageNumber(a) in parent.ptes || View(parent.ranges, a).None? || View(parent.ranges, a).value.kind == ANONYMOUS
    ensures var child := trace[k].nextId;
      child in trace[last].spaces
      && forall fs: Files :: ByteAt(trace[last].spaces[child], fs, a) == ByteAt(trace[k].spaces[ops[k].id], fs, a)
  {
    hide SameReads, Effect, DetachedKept, WellFormed, Owned, IdsBelow, CopiedRanges, CopiedPages, Forked, ByteAt;
    var s, t := trace[k], trace[k + 1];
    var child := s.nextId;
    assert SoundSystem(s) && SoundSystem(t);
    assert SoundSpace(s, ops[k].id) && SoundSpace(t, child);
    assert RunStep(s, t, ops[k], reached[k], files);
    Isolation(trace, ops, reached, files, child, k + 1, last);
    ForkReads(s.spaces[ops[k].id], t.spaces[child], trace[last].spaces[child], a);
  }

  lemma ForkReads(p: Space, c: Space, d: Space, a: nat)
    requires Owned(p) && Owned(c) && Forked(p, c) && WellFormed(p.ranges, p.nextId) && SameReads(c, d)
    requires PageNumber(a) in p.ptes || View(p.ranges, a).None? || View(p.ranges, a).value.kind == ANONYMOUS
    ensures forall files: Files :: ByteAt(d, files, a) == ByteAt(p, files, a)
  {
    hide Owned, WellFormed, Forked;
    forall files: Files ensures ByteAt(d, files, a) == ByteAt(p, files, a) {
      ForkCopiesMemory(p, c, files, a);
      assert ByteAt(d, files, a) == ByteAt(c, files, a);
    }
  }

  /** No page is ever shared: in every state of a run, no frame is mapped at two addresses. */
  lemma NoSharedFrames(s: System, i: nat, j: nat, v: nat, w: nat)
    requires SoundSystem(s) && i in s.spaces && j in s.spaces
    requires v in s.spaces[i].ptes && w in s.spaces[j].ptes && (i != j || v != w)
    ensures s.spaces[i].ptes[v].pfn != s.spaces[j].ptes[w].pfn
  {
    hide WellFormed, IdsBelow;
    assert SoundSpace(s, i) && SoundSpace(s, j);
    if i != j {
      SpacesAreDisjoint(s.spaces[i], s.spaces[j], v, w);
    } else if s.spaces[i].ptes[v].pfn == s.spaces[i].ptes[w].pfn {
      PagesAreNotAliased(s.spaces[i], v, w);
    }
  }

  // ----- the operations -----

  ghost function Observe(pmm: PageAllocator, spaces: map<nat, Pagemap>, nextId: nat): System
    reads pmm, spaces.Values
  {
    System(pmm.pages, map i | i in spaces :: ObserveSpace(pmm, spaces, i), nextId)
  }

  ghost function ObserveSpace(pmm: PageAllocator, spaces: map<nat, Pagemap>, i: nat): Space
    requires i in spaces
    reads pmm, spaces.Values
  {
    Space(spaces[i].id, spaces[i].ranges, spaces[i].nextId, spaces[i].ptes, pmm.pages)
  }

  // Every address space satisfies its invariant over the shared page structs.
  ghost predicate SystemValid(pmm: PageAllocator, spaces: map<nat, Pagemap>, nextId: nat)
    reads pmm, spaces.Values
  {
    && pmm.Valid()
    && IdsBelow(pmm.pages, nextId)
    && (forall i :: i in spaces ==> spaces[i].pmm == pmm && spaces[i].id == i && i < nextId && spaces[i].Valid())
  }

  lemma ValidIsSound(pmm: PageAllocator, spaces: map<nat, Pagemap>, nextId: nat)
    requires SystemValid(pmm, spaces, nextId)
    ensures SoundSystem(Observe(pmm, spaces, nextId))
  {
    hide IdsBelow, WellFormed, Owned, TablesOwned;
    var s := Observe(pmm, spaces, nextId);
    forall i | i in s.spaces ensures SoundSpace(s, i) {
      assert s.spaces[i] == spaces[i].Snapshot();
    }
  }

  lemma EmptyFreelist(pmm: PageAllocator)
    requires pmm.Valid() && pmm.freelist == []
    ensures NoFreePage(pmm.pages)
  {
  }

  lemma ForeignKeptDetached(id: nat, p: map<Pfn, Page>, q: map<Pfn, Page>, n: nat)
    requires ForeignKept(id, p, q) && id < n && IdsBelow(p, n)
    ensures DetachedKept(p, q) && IdsBelow(q, n)
  {
    forall f | f in p
      ensures (q[f].link == Detached <==> p[f].link == Detached) && (p[f].link == Detached ==> q[f] == p[f])
      ensures LinkBelow(q[f].link, n)
    {
      assert ForeignPageKept(id, p[f], q[f]) && LinkBelow(p[f].link, n);
    }
  }

  lemma IdsBelowMore(pages: map<Pfn, Page>, n: nat)
    requires IdsBelow(pages, n)
    ensures IdsBelow(pages, n + 1) && Unused(n, pages)
  {
    forall f | f in pages
      ensures LinkBelow(pages[f].link, n + 1) && !OwnLink(n, pages[f].link) && pages[f].link != OnTables(n)
    {
      assert LinkBelow(pages[f].link, n);
    }
  }

  // A space that an operation of another space leaves alone.
  lemma OtherUndisturbed(id: nat, s: Space, tables: map<TableKey, Pfn>, q: map<Pfn, Page>)
    requires s.id != id && Owned(s) && TablesOwned(s.id, tables, s.ptes, s.pages) && ForeignKept(id, s.pages, q)
    ensures Undisturbed(s, s.(pages := q)) && Owned(s.(pages := q)) && TablesOwned(s.id, tables, s.ptes, q)
  {
    ParentUnaffected(s, tables, q, id);
    forall files: Files, a: nat ensures ByteAt(s.(pages := q), files, a) == ByteAt(s, files, a) {
      OtherSpaceUnaffected(id, s, q, files);
    }
  }

  /** An operation of one space other than fork, creation and exit. */
  method StepInside(space: Pagemap, op: Op, files: Files) returns (ghost reached: nat)
    requires space.Valid() && !MakesSpace(op) && !op.Exit?
    modifies space`ranges, space`nextId, space`ptes, space`tables, space`cachedRangeLookup
    modifies space.pmm`pages, space.pmm`freelist, space.pmm`totalFreePages
    ensures space.Valid()
    ensures ForeignKept(space.id, old(space.pmm.pages), space.pmm.pages)
    ensures Effect(op, old(space.Snapshot()), space.Snapshot(), reached, files)
  {
    hide WellFormed, Owned, Linked, TablesOwned, ForeignKept, FreelistMatches, ManagedPages, ByteAt, AddedRange,
      SameResidents, ProtectedTo, DontNeeded, StoredBytes, Unmapped, NoFreePage;
    ghost var s := space.Snapshot();
    reached := 0;
    match op {
      case FaultAt(_, addr) =>
        var result := space.HandlePageFault(addr, files);
        SameBytesStored(s, space.Snapshot(), files, addr);
        if result == OutOfMemory {
          EmptyFreelist(space.pmm);
        }
      case WriteTo(_, addr, data) =>
        reached := WriteBytes(space, addr, data, files);
      case Map(_, request, merge) =>
        space.AddRange(request, merge);
        AddedRangeForeignKept(s, space.Snapshot(), request);
      case Unmap(_, addr, length) =>
        var _ := Munmap(space, addr, length);
      case Protect(_, addr, length, write, exec) =>
        var result;
        result, reached := Mprotect(space, addr, length, write, exec);
      case DontNeed(_, addr, length) =>
        var _ := MadviseDontNeed(space, addr, length, files);
    }
  }

  lemma SameBytesStored(s: Space, t: Space, files: Files, a: nat)
    requires forall b: nat :: ByteAt(t, files, b) == ByteAt(s, files, b)
    ensures StoredBytes(s, t, files, a, [])
  {
  }

  // access_memory from a buffer that holds the data
  method WriteBytes(space: Pagemap, addr: nat, data: seq<bv8>, files: Files) returns (ghost copied: nat)
    requires space.Valid()
    modifies space`ptes, space`tables, space`cachedRangeLookup
    modifies space.pmm`pages, space.pmm`freelist, space.pmm`totalFreePages
    ensures space.Valid()
    ensures ForeignKept(space.id, old(space.pmm.pages), space.pmm.pages)
    ensures copied <= |data| && StoredBytes(old(space.Snapshot()), space.Snapshot(), files, addr, data[..copied])
    ensures copied == |data| || View(space.ranges, addr + copied).None? || NoFreePage(space.pmm.pages)
  {
    hide WellFormed, Owned, Linked, TablesOwned, ForeignKept, FreelistMatches, ManagedPages, StoredBytes, NoFreePage;
    var source := new bv8[|data|](i requires 0 <= i < |data| => data[i]);
    assert source[..] == data;
    var result;
    result, copied := space.AccessMemory(addr, source, |data|, true, files);
    if result == Panicked {
      EmptyFreelist(space.pmm);
    }
  }

  /** The operation of one space, with the rest of the system around it. */
  method StepOn(pmm: PageAllocator, spaces: map<nat, Pagemap>, nextId: nat, op: Op, files: Files) returns (ghost reached: nat)
    requires SystemValid(pmm, spaces, nextId) && op.id in spaces
    requires !MakesSpace(op) && !op.Exit?
    modifies pmm, spaces.Values
    ensures SystemValid(pmm, spaces, nextId)
    ensures Transition(old(Observe(pmm, spaces, nextId)), Observe(pmm, spaces, nextId), op, reached, files)
  {
    hide WellFormed, Owned, Linked, TablesOwned, ForeignKept, FreelistMatches, ManagedPages, IdsBelow, DetachedKept,
      Effect, Undisturbed;
    ghost var s := Observe(pmm, spaces, nextId);
    reached := StepInside(spaces[op.id], op, files);
    ghost var t := Observe(pmm, spaces, nextId);
    ForeignKeptDetached(op.id, s.pages, t.pages, nextId);
    forall i | i in spaces && i != op.id ensures spaces[i].Valid() && Undisturbed(s.spaces[i], t.spaces[i]) {
      OtherUndisturbed(op.id, s.spaces[i], spaces[i].tables, t.pages);
      assert t.spaces[i] == s.spaces[i].(pages := t.pages);
    }
  }

  // A fork next to all other address spaces.
  method ForkBeside(pmm: PageAllocator, spaces: map<nat, Pagemap>, nextId: nat, parent: nat) returns (child: Option<Pagemap>)
    requires SystemValid(pmm, spaces, nextId) && parent in spaces
    modifies pmm`pages, pmm`freelist, pmm`totalFreePages
    ensures SystemValid(pmm, spaces, nextId + 1) && nextId !in spaces && DetachedKept(old(pmm.pages), pmm.pages)
    ensures forall i :: i in spaces ==>
      Undisturbed(old(ObserveSpace(pmm, spaces, i)), ObserveSpace(pmm, spaces, i))
    ensures child.Some? ==>
      && fresh(child.value) && child.value.id == nextId && child.value.pmm == pmm && child.value.Valid()
      && Forked(old(ObserveSpace(pmm, spaces, parent)), child.value.Snapshot())
    ensures child.None? ==> NoFreePage(pmm.pages)
  {
    hide WellFormed, Owned, Linked, TablesOwned, ForeignKept, FreelistMatches, ManagedPages, IdsBelow, DetachedKept,
      Undisturbed, Forked, Unused, NoFreePage;
    ghost var p := pmm.pages;
    IdsBelowMore(p, nextId);
    child := ForkSpace(spaces[parent], nextId);
    ForeignKeptDetached(nextId, p, pmm.pages, nextId + 1);
    if child == None {
      EmptyFreelist(pmm);
    }
    forall i | i in spaces
      ensures spaces[i].Valid() && Undisturbed(old(ObserveSpace(pmm, spaces, i)), ObserveSpace(pmm, spaces, i))
    {
      ghost var s := old(ObserveSpace(pmm, spaces, i));
      OtherUndisturbed(nextId, s, spaces[i].tables, pmm.pages);
      assert ObserveSpace(pmm, spaces, i) == s.(pages := pmm.pages);
    }
  }

  // A new space next to all others.
  method CreateBeside(pmm: PageAllocator, spaces: map<nat, Pagemap>, nextId: nat) returns (space: Option<Pagemap>)
    requires SystemValid(pmm, spaces, nextId)
    modifies pmm`pages, pmm`freelist, pmm`totalFreePages
    ensures SystemValid(pmm, spaces, nextId + 1) && nextId !in spaces && DetachedKept(old(pmm.pages), pmm.pages)
    ensures forall i :: i in spaces ==>
      Undisturbed(old(ObserveSpace(pmm, spaces, i)), ObserveSpace(pmm, spaces, i))
    ensures space.Some? ==>
      && fresh(space.value) && space.value.id == nextId && space.value.pmm == pmm && space.value.Valid()
      && space.value.ranges == [] && space.value.ptes == map[]
    ensures space.None? ==> NoFreePage(pmm.pages)
  {
    hide WellFormed, Owned, Linked, TablesOwned, ForeignKept, FreelistMatches, ManagedPages, IdsBelow, DetachedKept,
      Undisturbed, Unused, NoFreePage;
    ghost var p := pmm.pages;
    IdsBelowMore(p, nextId);
    var empty, ok := NewSpace(pmm, nextId);
    ForeignKeptDetached(nextId, p, pmm.pages, nextId + 1);
    if ok {
      space := Some(empty);
    } else {
      space := None;
      EmptyFreelist(pmm);
    }
    forall i | i in spaces
      ensures spaces[i].Valid() && Undisturbed(old(ObserveSpace(pmm, spaces, i)), ObserveSpace(pmm, spaces, i))
    {
      ghost var s := old(ObserveSpace(pmm, spaces, i));
      OtherUndisturbed(nextId, s, spaces[i].tables, pmm.pages);
      assert ObserveSpace(pmm, spaces, i) == s.(pages := pmm.pages);
    }
  }

  method StartBeside(pmm: PageAllocator, spaces: map<nat, Pagemap>, nextId: nat, op: Op) returns (space: Option<Pagemap>)
    requires SystemValid(pmm, spaces, nextId) && MakesSpace(op) && Enabled(Observe(pmm, spaces, nextId), op)
    modifies pmm`pages, pmm`freelist, pmm`totalFreePages
    ensures SystemValid(pmm, spaces, nextId + 1) && nextId !in spaces && DetachedKept(old(pmm.pages), pmm.pages)
    ensures forall i :: i in spaces ==>
      Undisturbed(old(ObserveSpace(pmm, spaces, i)), ObserveSpace(pmm, spaces, i))
    ensures space.Some? ==>
      && fresh(space.value) && space.value.id == nextId && space.value.pmm == pmm && space.value.Valid()
      && Started(op, old(Observe(pmm, spaces, nextId)), space.value.Snapshot())
    ensures space.None? ==> NoFreePage(pmm.pages)
  {
    hide SystemValid, DetachedKept, Undisturbed, Forked, NoFreePage, Pagemap.Valid;
    if op.ForkOf? {
      space := ForkBeside(pmm, spaces, nextId, op.id);
    } else {
      space := CreateBeside(pmm, spaces, nextId);
    }
  }

  // The two operations that make a new space.
  method StepGrowing(pmm: PageAllocator, spaces: map<nat, Pagemap>, nextId: nat, op: Op, ghost files: Files)
    returns (spaces': map<nat, Pagemap>, nextId': nat)
    requires SystemValid(pmm, spaces, nextId) && MakesSpace(op) && Enabled(Observe(pmm, spaces, nextId), op)
    modifies pmm`pages, pmm`freelist, pmm`totalFreePages
    ensures SystemValid(pmm, spaces', nextId')
    ensures forall i :: i in spaces' ==> (i in spaces && spaces'[i] == spaces[i]) || fresh(spaces'[i])
    ensures Transition(old(Observe(pmm, spaces, nextId)), Observe(pmm, spaces', nextId'), op, 0, files)
  {
    hide SystemValid, DetachedKept, Undisturbed, Started, NoFreePage, Transition, Pagemap.Valid;
    ghost var s := Observe(pmm, spaces, nextId);
    var space := StartBeside(pmm, spaces, nextId, op);
    spaces' := if space == None then spaces else spaces[nextId := space.value];
    nextId' := nextId + 1;
    ghost var t := Observe(pmm, spaces', nextId');
    assert forall i :: i in spaces ==> t.spaces[i] == ObserveSpace(pmm, spaces, i);
    if space.Some? {
      SystemGrows(pmm, spaces, nextId, space.value);
      assert t.spaces[nextId] == space.value.Snapshot();
    }
    GrowingTransition(s, t, op, files);
  }

  lemma SystemGrows(pmm: PageAllocator, spaces: map<nat, Pagemap>, nextId: nat, child: Pagemap)
    requires SystemValid(pmm, spaces, nextId + 1) && child.id == nextId && child.pmm == pmm && child.Valid()
    ensures SystemValid(pmm, spaces[nextId := child], nextId + 1)
  {
    hide IdsBelow, Pagemap.Valid, PageAllocator.Valid;
  }

  lemma GrowingTransition(s: System, t: System, op: Op, files: Files)
    requires MakesSpace(op) && Enabled(s, op) && s.nextId !in s.spaces
    requires DetachedKept(s.pages, t.pages) && t.nextId == s.nextId + 1
    requires forall i :: i in s.spaces ==> i in t.spaces && Undisturbed(s.spaces[i], t.spaces[i])
    requires forall i :: i in t.spaces ==> i in s.spaces || i == s.nextId
    requires if s.nextId in t.spaces then Started(op, s, t.spaces[s.nextId]) else NoFreePage(t.pages)
    ensures Transition(s, t, op, 0, files)
  {
    hide DetachedKept, Undisturbed, Started, NoFreePage;
  }

  // Pages that a process gives back are those of its own space.
  lemma FreedSpaceForeignKept(id: nat, pages: map<Pfn, Page>)
    ensures ForeignKept(id, pages, FreedSpace(pages, id))
  {
  }

  method StepExit(pmm: PageAllocator, spaces: map<nat, Pagemap>, nextId: nat, space: Pagemap, op: Op, ghost files: Files)
    returns (spaces': map<nat, Pagemap>)
    requires SystemValid(pmm, spaces, nextId) && op.id in spaces && space == spaces[op.id] && op.Exit?
    modifies space`ranges, pmm`pages, pmm`freelist, pmm`totalFreePages
    ensures SystemValid(pmm, spaces', nextId)
    ensures spaces' == spaces - {op.id}
    ensures Transition(old(Observe(pmm, spaces, nextId)), Observe(pmm, spaces', nextId), op, 0, files)
  {
    hide WellFormed, Owned, Linked, TablesOwned, ForeignKept, FreelistMatches, ManagedPages, IdsBelow, DetachedKept,
      Undisturbed, FreedSpace;
    ghost var s := Observe(pmm, spaces, nextId);
    space.Destroy();
    spaces' := spaces - {op.id};
    ghost var t := Observe(pmm, spaces', nextId);
    FreedSpaceForeignKept(op.id, s.pages);
    ForeignKeptDetached(op.id, s.pages, t.pages, nextId);
    forall i | i in spaces && i != op.id ensures spaces[i].Valid() && Undisturbed(s.spaces[i], t.spaces[i]) {
      OtherUndisturbed(op.id, s.spaces[i], spaces[i].tables, t.pages);
      assert t.spaces[i] == s.spaces[i].(pages := t.pages);
    }
  }

  /** One operation has its effect on its own space, disturbs no other and loses no page. */
  method Step(pmm: PageAllocator, spaces: map<nat, Pagemap>, nextId: nat, op: Op, files: Files)
    returns (spaces': map<nat, Pagemap>, nextId': nat, ghost reached: nat)
    requires SystemValid(pmm, spaces, nextId)
    modifies pmm, spaces.Values
    ensures SystemValid(pmm, spaces', nextId')
    ensures forall i :: i in spaces' ==> (i in spaces && spaces'[i] == spaces[i]) || fresh(spaces'[i])
    ensures RunStep(old(Observe(pmm, spaces, nextId)), Observe(pmm, spaces', nextId'), op, reached, files)
  {
    hide IdsBelow, Transition, PageAllocator.Valid;
    spaces', nextId', reached := spaces, nextId, 0;
    if if op.Create? then op.id == nextId else op.id in spaces {
      if op.ForkOf? || op.Create? {
        spaces', nextId' := StepGrowing(pmm, spaces, nextId, op, files);
      } else if op.Exit? {
        spaces' := StepExit(pmm, spaces, nextId, spaces[op.id], op, files);
      } else {
        reached := StepOn(pmm, spaces, nextId, op, files);
      }
    }
  }

  /** Every run keeps the invariant of every address space; what it does is the trace of its steps. */
  method Run(pmm: PageAllocator, spaces0: map<nat, Pagemap>, nextId0: nat, ops: seq<Op>, files: Files)
    returns (spaces: map<nat, Pagemap>, nextId: nat, ghost trace: seq<System>, ghost reached: seq<nat>)
    requires SystemValid(pmm, spaces0, nextId0)
    modifies pmm, spaces0.Values
    ensures SystemValid(pmm, spaces, nextId)
    ensures IsRun(trace, ops, reached, files)
    ensures trace[0] == old(Observe(pmm, spaces0, nextId0)) && trace[|ops|] == Observe(pmm, spaces, nextId)
  {
    hide SystemValid, Observe, SoundSystem, RunStep;
    spaces, nextId := spaces0, nextId0;
    trace, reached := [Observe(pmm, spaces, nextId)], [];
    ValidIsSound(pmm, spaces, nextId);
    assert ops[..0] == [];
    var i := 0;
    while i < |ops|
      invariant 0 <= i <= |ops|
      invariant SystemValid(pmm, spaces, nextId)
      invariant IsRun(trace, ops[..i], reached, files)
      invariant trace[0] == old(Observe(pmm, spaces0, nextId0)) && trace[i] == Observe(pmm, spaces, nextId)
      invariant forall k :: k in spaces ==> (k in spaces0 && spaces[k] == spaces0[k]) || fresh(spaces[k])
    {
      ghost var n;
      spaces, nextId, n := Step(pmm, spaces, nextId, ops[i], files);
      ValidIsSound(pmm, spaces, nextId);
      RunGrows(trace, ops[..i], reached, files, Observe(pmm, spaces, nextId), ops[i], n);
      trace, reached := trace + [Observe(pmm, spaces, nextId)], reached + [n];
      assert ops[..i] + [ops[i]] == ops[..i + 1];
      i := i + 1;
    }
    assert ops[..i] == ops;
  }

  lemma RunGrows(trace: seq<System>, ops: seq<Op>, reached: seq<nat>, files: Files, s: System, op: Op, n: nat)
    requires IsRun(trace, ops, reached, files)
    requires SoundSystem(s) && RunStep(trace[|ops|], s, op, n, files)
    ensures IsRun(trace + [s], ops + [op], reached + [n], files)
  {
    hide SoundSystem, RunStep;
    var tr, os := trace + [s], ops + [op];
    forall k | 0 <= k <= |os| ensures SoundSystem(tr[k]) {
      assert k <= |ops| ==> tr[k] == trace[k];
    }
    forall k | 0 <= k < |os| ensures RunStep(tr[k], tr[k + 1], os[k], (reached + [n])[k], files) {
      assert k < |ops| ==> RunStep(trace[k], trace[k + 1], ops[k], reached[k], files);
    }
  }
}
