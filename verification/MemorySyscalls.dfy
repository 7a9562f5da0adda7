/**
 munmap, mprotect and MADV_DONTNEED on an address space (kernel/kernel/src/mem/vmm.cpp).
 */
module MemorySyscalls {

  import opened Algorithm
  import opened Lists
  import opened PhysicalMemory
  import opened RangeList
  import opened FrameOwnership
  import opened MemoryMeaning
  import opened AddressSpace

  datatype SyscallResult = Done | EINVAL | ENOMEM

  function ProtToPageFlags(write: bool, exec: bool): PageFlags {
    PageFlags(true, write, true, !exec)
  }

  // mprotect of addr .. end replaces a part of e by a new range, unless the request covers e, and what is
  // left of e behind that part becomes a new range too, if something is left in front of it.  The file
  // offset of both new ranges is computed from the current base of e instead of its original base.
  predicate OffsetMoves(e: MappedRange, addr: nat, end: nat, a: nat) {
    && ReachedBy(e, addr, end)
    && !(addr <= e.base && e.End() <= end)
    && (addr <= a < end || (e.base < addr && end <= a))
  }

  predicate ReachedBy(e: MappedRange, addr: nat, end: nat) {
    addr < end && Overlaps(e, addr, end)
  }

  // Where a byte of a file range is read from after mprotect.
  function ProtectedOffset(e: MappedRange, addr: nat, end: nat, a: nat): int {
    if OffsetMoves(e, addr, end, a) then a - e.base + e.fileOffset else e.BackingOffset(a)
  }

  // Addresses addr .. cur have the new protection; file ranges out of reach are the same ranges, and the
  // others read from the place above; nothing else about the meaning of any address changed.
  ghost predicate ProtectedTo(s0: Space, s: Space, addr: nat, cur: nat, flags: PageFlags) {
    forall a: nat :: ProtectedAt(s0, s, addr, cur, flags, a)
  }

  ghost predicate ProtectedAt(s0: Space, s: Space, addr: nat, cur: nat, flags: PageFlags, a: nat) {
    var e, r := View(s0.ranges, a), View(s.ranges, a);
    && (e.None? <==> r.None?)
    && (e.Some? ==>
          && r.value.kind == e.value.kind
          && r.value.flags == (if addr <= a < cur then flags else e.value.flags)
          && (r.value.kind == FILE ==> ProtectedFile(e.value, r.value, addr, cur, a)))
  }

  predicate ProtectedFile(e: MappedRange, r: MappedRange, addr: nat, cur: nat, a: nat) {
    && r.file == e.file
    && r.BackingOffset(a) == ProtectedOffset(e, addr, cur, a)
    && (!ReachedBy(e, addr, cur) ==> r == e)
  }

  // The loop of mprotect stops at cur < end only where a file range ends.
  ghost predicate WholeFileRanges(s0: Space, addr: nat, cur: nat) {
    forall a: nat :: WholeFileRange(View(s0.ranges, a), addr, cur)
  }

  predicate WholeFileRange(e: Option<MappedRange>, addr: nat, cur: nat) {
    e.Some? && e.value.kind == FILE && ReachedBy(e.value, addr, cur) ==> e.value.End() <= cur
  }

  // The same pages are resident at the same addresses with the same contents.
  ghost predicate SameResidents(s0: Space, s: Space) {
    && (forall v :: v in s.ptes <==> v in s0.ptes)
    && (forall v :: v in s.ptes ==> s.ptes[v].pfn == s0.ptes[v].pfn)
    && s.pages.Keys == s0.pages.Keys
    && (forall f :: f in s.pages ==> s.pages[f].data == s0.pages[f].data)
  }

  function PieceOf(e: MappedRange, current: nat, length: nat, flags: PageFlags): Request {
    Request(current, length, flags, e.kind, e.file, e.fileOffset + (current - e.base), true)
  }

  // A file range at current is still the range that was there before mprotect.
  lemma FileRangeUntouched(s0: Space, s: Space, addr: nat, current: nat, flags: PageFlags, e: MappedRange)
    requires ProtectedTo(s0, s, addr, current, flags) && WholeFileRanges(s0, addr, current)
    requires View(s.ranges, current) == Some(e) && e.kind == FILE
    ensures View(s0.ranges, current) == Some(e) && !ReachedBy(e, addr, current)
  {
    assert ProtectedAt(s0, s, addr, current, flags, current);
    assert WholeFileRange(View(s0.ranges, current), addr, current);
  }

  // A request inside one range that keeps its pages.
  lemma ProtectMeaning(s0: Space, s: Space, u: Space, addr: nat, current: nat, length: nat, flags: PageFlags, e: MappedRange)
    requires ProtectedTo(s0, s, addr, current, flags) && addr <= current && 0 < length
    requires WellFormed(s0.ranges, s0.nextId) && WholeFileRanges(s0, addr, current)
    requires WellFormed(s.ranges, s.nextId) && View(s.ranges, current) == Some(e) && current + length <= e.End()
    requires AddedRange(s, u, PieceOf(e, current, length, flags))
    ensures ProtectedTo(s0, u, addr, current + length, flags)
  {
    hide Owned, ResidentAfter, PagesKept, WellFormed, ProtectedAt, MeaningAt;
    var next := current + length;
    forall a: nat ensures ProtectedAt(s0, u, addr, next, flags, a) {
      assert MeaningAt(s, u, PieceOf(e, current, length, flags), a);
      ProtectMeaningAt(s0, s, u, addr, current, length, flags, e, a);
    }
  }

  lemma ProtectMeaningAt(s0: Space, s: Space, u: Space, addr: nat, current: nat, length: nat, flags: PageFlags,
                         e: MappedRange, a: nat)
    requires ProtectedTo(s0, s, addr, current, flags) && addr <= current && 0 < length
    requires WellFormed(s0.ranges, s0.nextId) && WholeFileRanges(s0, addr, current)
    requires WellFormed(s.ranges, s.nextId) && View(s.ranges, current) == Some(e) && current + length <= e.End()
    requires MeaningAt(s, u, PieceOf(e, current, length, flags), a)
    ensures ProtectedAt(s0, u, addr, current + length, flags, a)
  {
    hide WellFormed;
    assert ProtectedAt(s0, s, addr, current, flags, a);
    if e.Covers(a) {
      InsideView(s.ranges, s.nextId, e, current, a);
    }
    RangeIsSound(s.ranges, s.nextId, IndexOf(s.ranges, current));
    if View(s.ranges, a).Some? && View(s.ranges, a).value.kind == FILE {
      var x, y, z := View(s0.ranges, a).value, View(s.ranges, a).value, View(u.ranges, a).value;
      if e.Covers(a) {
        FileRangeUntouched(s0, s, addr, current, flags, e);
        InsideView(s0.ranges, s0.nextId, e, current, a);
        ProtectedPiece(e, z, addr, current, length, flags, a);
      } else {
        ViewsApart(s.ranges, s.nextId, current, a);
        assert WholeFileRange(View(s0.ranges, a), addr, current);
        ProtectedElsewhere(x, y, z, addr, current, length, flags, e, a);
      }
    }
  }

  lemma ViewsApart(rs: seq<MappedRange>, nextId: nat, a: nat, b: nat)
    requires WellFormed(rs, nextId) && View(rs, a).Some? && View(rs, b).Some?
    ensures View(rs, a) == View(rs, b) || Apart(View(rs, a).value, View(rs, b).value)
  {
    var i, j := IndexOf(rs, a), IndexOf(rs, b);
    assert i != j ==> Apart(rs[i], rs[j]) || Apart(rs[j], rs[i]);
  }

  // A range that mprotect does not work on now.
  lemma ProtectedElsewhere(x: MappedRange, y: MappedRange, z: MappedRange, addr: nat, current: nat, length: nat,
                           flags: PageFlags, e: MappedRange, a: nat)
    requires addr <= current && 0 < length && e.base <= current && current + length <= e.End()
    requires x.Covers(a) && y.Covers(a) && !e.Covers(a) && Apart(e, y) && y.kind == FILE
    requires ProtectedFile(x, y, addr, current, a) && WholeFileRange(Some(x), addr, current) && x.kind == FILE
    requires SameMeaning(y, z, PieceOf(e, current, length, flags), a)
    ensures ProtectedFile(x, z, addr, current + length, a)
  {
    assert z == y;
  }

  // The range that mprotect works on, after the work.
  lemma ProtectedPiece(e: MappedRange, r: MappedRange, addr: nat, current: nat, length: nat, flags: PageFlags, a: nat)
    requires addr <= current && 0 < length && e.base <= current && current + length <= e.End()
    requires e.Covers(a) && e.kind == FILE && !ReachedBy(e, addr, current)
    requires var req := PieceOf(e, current, length, flags);
      if req.Contains(a) then r.kind == FILE && BackedAt(Some(e), r, req, a) else SameMeaning(e, r, req, a)
    ensures ProtectedFile(e, r, addr, current + length, a)
  {
  }

  lemma InsideView(rs: seq<MappedRange>, nextId: nat, e: MappedRange, current: nat, a: nat)
    requires WellFormed(rs, nextId) && View(rs, current) == Some(e)
    requires e.Covers(a)
    ensures View(rs, a) == Some(e)
  {
    ViewIsUnique(rs, nextId, IndexOf(rs, current), a);
  }

  lemma ProtectResidents(s: Space, u: Space, current: nat, length: nat, flags: PageFlags, e: MappedRange)
    requires WellFormed(s.ranges, s.nextId) && View(s.ranges, current) == Some(e) && current + length <= e.End()
    requires e.kind != NONE
    requires AddedRange(s, u, PieceOf(e, current, length, flags))
    ensures SameResidents(s, u)
  {
    hide Owned;
    var req := PieceOf(e, current, length, flags);
    forall v | v in s.ptes ensures !Lost(s, req, v) {
      if req.Contains(PageAddr(v)) {
        InsideView(s.ranges, s.nextId, e, current, PageAddr(v));
        assert req.Deletes(e) ==> req.Exact(e);
      }
    }
    forall f | f in u.pages ensures u.pages[f].data == s.pages[f].data {
      assert PageKept(u.id, s.pages[f], u.pages[f]);
    }
  }

  lemma SameResidentsTransitive(s: Space, t: Space, u: Space)
    requires SameResidents(s, t) && SameResidents(t, u)
    ensures SameResidents(s, u)
  {
  }

  lemma StartProtecting(s: Space, addr: nat, flags: PageFlags)
    ensures ProtectedTo(s, s, addr, addr, flags) && SameResidents(s, s) && WholeFileRanges(s, addr, addr)
  {
    assert forall a: nat :: ProtectedAt(s, s, addr, addr, flags, a);
  }

  // The next round starts where no file range is left half done.
  lemma StillWhole(s0: Space, s: Space, addr: nat, current: nat, length: nat, flags: PageFlags, e: MappedRange)
    requires ProtectedTo(s0, s, addr, current, flags) && addr <= current
    requires WellFormed(s0.ranges, s0.nextId) && WholeFileRanges(s0, addr, current)
    requires WellFormed(s.ranges, s.nextId) && View(s.ranges, current) == Some(e) && current + length == e.End()
    ensures WholeFileRanges(s0, addr, current + length)
  {
    hide WellFormed, ProtectedTo;
    forall a: nat ensures WholeFileRange(View(s0.ranges, a), addr, current + length) {
      assert WholeFileRange(View(s0.ranges, a), addr, current);
      var x := View(s0.ranges, a);
      if x.Some? && x.value.kind == FILE && ReachedBy(x.value, addr, current + length)
         && !ReachedBy(x.value, addr, current) {
        var b := if x.value.base < current then current else x.value.base;
        InsideView(s0.ranges, s0.nextId, x.value, a, b);
        InsideView(s.ranges, s.nextId, e, current, b);
        KindKept(s0, s, addr, current, flags, b);
        FileRangeUntouched(s0, s, addr, current, flags, e);
        InsideView(s0.ranges, s0.nextId, e, current, b);
      }
    }
  }

  lemma KindKept(s0: Space, s: Space, addr: nat, current: nat, flags: PageFlags, a: nat)
    requires ProtectedTo(s0, s, addr, current, flags)
    ensures View(s0.ranges, a).None? <==> View(s.ranges, a).None?
    ensures View(s0.ranges, a).Some? ==> View(s.ranges, a).value.kind == View(s0.ranges, a).value.kind
  {
    assert ProtectedAt(s0, s, addr, current, flags, a);
  }

  // The part of current .. end that lies in e.
  function PieceLength(e: MappedRange, current: nat, end: nat): int {
    if e.End() > end then end - current else e.End() - current
  }

  lemma PieceIsSound(rs: seq<MappedRange>, nextId: nat, e: MappedRange, current: nat, end: nat, flags: PageFlags)
    requires WellFormed(rs, nextId) && View(rs, current) == Some(e)
    requires current < end && Aligned(current) && Aligned(end) && flags.present
    ensures var n := PieceLength(e, current, end);
      && e.kind != NONE && 0 < n && current + n <= end && current + n <= e.End() && Aligned(current + n)
      && (current + n < end ==> current + n == e.End())
      && PieceOf(e, current, n, flags).Sound()
  {
    RangeIsSound(rs, nextId, IndexOf(rs, current));
  }

  // One round of mprotect: the part of the request that lies in the range at current, if there is one.
  method ProtectPiece(space: Pagemap, ghost addr: nat, current: nat, end: nat, flags: PageFlags, ghost s0: Space)
    returns (next: Option<nat>)
    requires space.Valid() && addr <= current < end && Aligned(current) && Aligned(end) && flags.present
    requires s0.id == space.id && ForeignKept(space.id, s0.pages, space.pmm.pages)
    requires SameResidents(s0, space.Snapshot())
    requires ProtectedTo(s0, space.Snapshot(), addr, current, flags)
    requires WellFormed(s0.ranges, s0.nextId) && WholeFileRanges(s0, addr, current)
    modifies space`ranges, space`nextId, space`ptes, space`cachedRangeLookup
    modifies space.pmm`pages, space.pmm`freelist, space.pmm`totalFreePages
    ensures space.Valid()
    ensures ForeignKept(space.id, s0.pages, space.pmm.pages)
    ensures SameResidents(s0, space.Snapshot())
    ensures next.None? ==> View(s0.ranges, current).None? && ProtectedTo(s0, space.Snapshot(), addr, current, flags)
    ensures next.Some? ==>
      && current < next.value <= end && Aligned(next.value)
      && ProtectedTo(s0, space.Snapshot(), addr, next.value, flags)
      && (next.value < end ==> WholeFileRanges(s0, addr, next.value))
      && (forall a :: current <= a < next.value ==> View(s0.ranges, a).Some?)
  {
    hide WellFormed, Owned, TablesOwned, Linked, ForeignKept, PagesKept, ResidentAfter, SameResidents, FreelistMatches,
      ManagedPages, WholeFileRanges, ProtectedTo, AddedRange, PieceOf, Aligned, PageAllocator.Valid, Request.Sound;
    var existing := space.AddrToRange(current);
    ghost var s := space.Snapshot();
    KindKept(s0, s, addr, current, flags, current);
    if existing == None {
      return None;
    }
    var e := existing.value;
    var rangeLen := e.End() - current;
    if current + rangeLen > end {
      rangeLen := end - current;
    }
    PieceIsSound(s.ranges, s.nextId, e, current, end, flags);
    assert rangeLen == PieceLength(e, current, end);
    ProtectedAreMapped(s0, s, addr, current, rangeLen, flags, e);
    if current + rangeLen < end {
      StillWhole(s0, s, addr, current, rangeLen, flags, e);
    }
    var req := PieceOf(e, current, rangeLen, flags);
    space.AddRange(req, true);
    ProtectStep(s0, s, space.Snapshot(), addr, current, rangeLen, flags, e);
    return Some(current + rangeLen);
  }

  lemma ProtectStep(s0: Space, s: Space, u: Space, addr: nat, current: nat, length: nat, flags: PageFlags, e: MappedRange)
    requires ForeignKept(s.id, s0.pages, s.pages) && SameResidents(s0, s) && e.kind != NONE
    requires ProtectedTo(s0, s, addr, current, flags) && addr <= current && 0 < length
    requires WellFormed(s0.ranges, s0.nextId) && WholeFileRanges(s0, addr, current)
    requires WellFormed(s.ranges, s.nextId) && View(s.ranges, current) == Some(e) && current + length <= e.End()
    requires AddedRange(s, u, PieceOf(e, current, length, flags))
    ensures u.id == s.id && ForeignKept(s.id, s0.pages, u.pages) && SameResidents(s0, u)
    ensures ProtectedTo(s0, u, addr, current + length, flags)
  {
    hide WellFormed, Owned, ForeignKept, PagesKept, ResidentAfter, SameResidents, ProtectedTo, WholeFileRanges;
    ProtectMeaning(s0, s, u, addr, current, length, flags, e);
    ProtectResidents(s, u, current, length, flags, e);
    SameResidentsTransitive(s0, s, u);
    AddedRangeForeignKept(s, u, PieceOf(e, current, length, flags));
    ForeignKeptTransitive(s.id, s0.pages, s.pages, u.pages);
  }

  lemma ProtectedAreMapped(s0: Space, s: Space, addr: nat, current: nat, length: nat, flags: PageFlags, e: MappedRange)
    requires ProtectedTo(s0, s, addr, current, flags)
    requires WellFormed(s.ranges, s.nextId) && View(s.ranges, current) == Some(e) && current + length <= e.End()
    ensures forall a :: current <= a < current + length ==> View(s0.ranges, a).Some?
  {
    forall a: nat | current <= a < current + length ensures View(s0.ranges, a).Some? {
      assert ProtectedAt(s0, s, addr, current, flags, a);
      InsideView(s.ranges, s.nextId, e, current, a);
    }
  }

  /** mprotect changes the protection from addr up to the first address that is not mapped, keeps all
      resident pages with their contents, and succeeds if and only if every address is mapped.  Pages of a
      file that are not resident keep their place in the file as ProtectKeepsBytesIff says. */
  method Mprotect(space: Pagemap, addr: nat, length: nat, write: bool, exec: bool)
    returns (result: SyscallResult, ghost stop: nat)
    requires space.Valid()
    modifies space`ranges, space`nextId, space`ptes, space`cachedRangeLookup
    modifies space.pmm`pages, space.pmm`freelist, space.pmm`totalFreePages
    ensures space.Valid()
    ensures ForeignKept(space.id, old(space.pmm.pages), space.pmm.pages)
    ensures SameResidents(old(space.Snapshot()), space.Snapshot())
    ensures result == EINVAL <==> !Aligned(addr)
    ensures addr <= stop <= addr + AlignUp(length, 4096)
    ensures ProtectedTo(old(space.Snapshot()), space.Snapshot(), addr, stop, ProtToPageFlags(write, exec))
    ensures result == EINVAL ==> stop == addr
    ensures result == Done ==> stop == addr + AlignUp(length, 4096)
    ensures result == ENOMEM ==> stop < addr + AlignUp(length, 4096) && View(old(space.ranges), stop).None?
    ensures forall a :: addr <= a < stop ==> View(old(space.ranges), a).Some?
  {
    hide WellFormed, Owned, TablesOwned, Linked, ForeignKept, PagesKept, ResidentAfter, SameResidents, FreelistMatches,
      ManagedPages, ProtectedTo, WholeFileRanges;
    ghost var s0 := space.Snapshot();
    var flags := ProtToPageFlags(write, exec);
    stop := addr;
    StartProtecting(s0, addr, flags);
    NothingForeign(space.id, s0.pages);
    if addr % 4096 != 0 {
      return EINVAL, addr;
    }
    var current := addr;
    var end := addr + AlignUp(length, 4096);
    while current < end
      invariant addr <= current <= end && Aligned(current)
      invariant stop == current
      invariant space.Valid()
      invariant ForeignKept(space.id, s0.pages, space.pmm.pages)
      invariant SameResidents(s0, space.Snapshot())
      invariant ProtectedTo(s0, space.Snapshot(), addr, current, flags)
      invariant current < end ==> WholeFileRanges(s0, addr, current)
      invariant forall a :: addr <= a < current ==> View(s0.ranges, a).Some?
    {
      var next := ProtectPiece(space, addr, current, end, flags, s0);
      if next == None {
        return ENOMEM, current;
      }
      current := next.value;
      stop := current;
    }
    return Done, current;
  }

  /** After mprotect, an address of a page that is not resident reads the same byte as before, whatever
      the files contain, if and only if it is not in the part of a range that became a new range, or that
      range was never trimmed at the front; resident and anonymous pages always do. */
  lemma ProtectKeepsBytesIff(s0: Space, u: Space, addr: nat, stop: nat, flags: PageFlags, a: nat)
    requires ProtectedTo(s0, u, addr, stop, flags) && SameResidents(s0, u)
    requires WellFormed(s0.ranges, s0.nextId) && View(s0.ranges, a).Some?
    requires PageNumber(a) in s0.ptes ==> s0.ptes[PageNumber(a)].pfn in s0.pages
    ensures var e := View(s0.ranges, a).value;
      (forall files: Files :: ByteAt(u, files, a) == ByteAt(s0, files, a)) <==>
        (e.kind == FILE && PageNumber(a) !in s0.ptes && OffsetMoves(e, addr, stop, a) ==> e.base == e.originalBase)
  {
    var e := View(s0.ranges, a).value;
    assert ProtectedAt(s0, u, addr, stop, flags, a);
    RangeIsSound(s0.ranges, s0.nextId, IndexOf(s0.ranges, a));
    if e.kind == FILE && PageNumber(a) !in s0.ptes && OffsetMoves(e, addr, stop, a) && e.base != e.originalBase {
      var files: Files := (file: nat, offset: int) => if offset == e.BackingOffset(a) then 1 else 0;
      assert ByteAt(u, files, a) != ByteAt(s0, files, a);
    }
  }

  /** Every address of a file keeps its place in the file if and only if every range that mprotect reaches
      without covering it was never trimmed at the front. */
  lemma ProtectKeepsFileOffsetsIff(s0: Space, u: Space, addr: nat, stop: nat, flags: PageFlags)
    requires ProtectedTo(s0, u, addr, stop, flags) && WellFormed(s0.ranges, s0.nextId)
    ensures
      (forall a: nat :: View(s0.ranges, a).Some? && View(s0.ranges, a).value.kind == FILE ==>
         BackingKept(View(s0.ranges, a), View(u.ranges, a), a))
      <==>
      (forall i :: 0 <= i < |s0.ranges| ==> OffsetsSafe(s0.ranges[i], addr, stop))
  {
    hide WellFormed;
    forall i | 0 <= i < |s0.ranges| && !OffsetsSafe(s0.ranges[i], addr, stop)
      ensures exists a: nat ::
        View(s0.ranges, a) == Some(s0.ranges[i]) && !BackingKept(View(s0.ranges, a), View(u.ranges, a), a)
    {
      var a := if s0.ranges[i].base < addr then addr else s0.ranges[i].base;
      ViewIsUnique(s0.ranges, s0.nextId, i, a);
      assert ProtectedAt(s0, u, addr, stop, flags, a);
      assert !BackingKept(View(s0.ranges, a), View(u.ranges, a), a);
    }
    forall a: nat | View(s0.ranges, a).Some? && View(s0.ranges, a).value.kind == FILE &&
      (forall i :: 0 <= i < |s0.ranges| ==> OffsetsSafe(s0.ranges[i], addr, stop))
      ensures BackingKept(View(s0.ranges, a), View(u.ranges, a), a)
    {
      assert ProtectedAt(s0, u, addr, stop, flags, a);
      assert OffsetsSafe(s0.ranges[IndexOf(s0.ranges, a)], addr, stop);
    }
  }

  predicate OffsetsSafe(e: MappedRange, addr: nat, stop: nat) {
    e.kind == FILE && ReachedBy(e, addr, stop) ==> e.base == e.originalBase || (addr <= e.base && e.End() <= stop)
  }

  lemma AddedRangeForeignKept(s: Space, u: Space, req: Request)
    requires AddedRange(s, u, req)
    ensures ForeignKept(u.id, s.pages, u.pages)
  {
    PagesKeptIsForeignKept(u.id, s.pages, u.pages);
  }

  // Nothing is mapped or resident in [addr, end), and outside of it the same addresses are mapped as before.
  ghost predicate Unmapped(s0: Space, s: Space, addr: nat, end: nat) {
    && (forall a: nat :: addr <= a < end ==> View(s.ranges, a).None?)
    && (forall v :: v in s.ptes ==> !(addr <= PageAddr(v) < end))
    && (forall a: nat :: !(addr <= a < end) ==> (View(s.ranges, a).Some? <==> View(s0.ranges, a).Some?))
  }

  /** munmap leaves nothing mapped or resident in the given pages. */
  method Munmap(space: Pagemap, addr: nat, length: nat) returns (result: SyscallResult)
    requires space.Valid()
    modifies space`ranges, space`nextId, space`ptes, space`cachedRangeLookup
    modifies space.pmm`pages, space.pmm`freelist, space.pmm`totalFreePages
    ensures space.Valid()
    ensures ForeignKept(space.id, old(space.pmm.pages), space.pmm.pages)
    ensures result == EINVAL <==> !Aligned(addr)
    ensures result == EINVAL ==> space.Snapshot() == old(space.Snapshot())
    ensures result != EINVAL ==>
      && result == Done
      && Unmapped(old(space.Snapshot()), space.Snapshot(), addr, addr + AlignUp(length, 4096))
      && AddedRange(old(space.Snapshot()), space.Snapshot(), UnmapRequest(addr, AlignUp(length, 4096)))
  {
    hide WellFormed, Owned, TablesOwned, Linked, ForeignKept, PagesKept, ResidentAfter, FreelistMatches, ManagedPages;
    ghost var s := space.Snapshot();
    NothingForeign(space.id, s.pages);
    if addr % 4096 != 0 {
      return EINVAL;
    }
    space.AddRange(UnmapRequest(addr, AlignUp(length, 4096)), false);
    AddedRangeForeignKept(s, space.Snapshot(), UnmapRequest(addr, AlignUp(length, 4096)));
    UnmappedBy(s, space.Snapshot(), addr, AlignUp(length, 4096));
    return Done;
  }

  function UnmapRequest(addr: nat, length: nat): Request {
    Request(addr, length, PageFlags(false, false, false, false), NONE, None, 0, false)
  }

  lemma UnmappedBy(s0: Space, s: Space, addr: nat, length: nat)
    requires AddedRange(s0, s, UnmapRequest(addr, length))
    ensures Unmapped(s0, s, addr, addr + length)
  {
    hide WellFormed, PagesKept;
    forall a: nat
      ensures addr <= a < addr + length ==> View(s.ranges, a).None?
      ensures !(addr <= a < addr + length) ==> (View(s.ranges, a).Some? <==> View(s0.ranges, a).Some?)
    {
      assert MeaningAt(s0, s, UnmapRequest(addr, length), a);
    }
    forall v | v in s.ptes ensures !(addr <= PageAddr(v) < addr + length) {
      assert LinkedEntry(s, v) && OwnedEntry(s, v);
    }
  }

  // The pages in [addr, end) are no longer resident and read as a page fault would fill them; all other
  // entries and bytes stay as they are.
  ghost predicate DontNeeded(s: Space, t: Space, files: Files, addr: nat, end: nat) {
    && t.ranges == s.ranges
    && (forall v :: v in t.ptes <==> v in s.ptes && !(addr <= PageAddr(v) < end))
    && (forall v :: v in t.ptes ==> t.ptes[v] == s.ptes[v])
    && (forall a: nat :: ByteAt(t, files, a) ==
          if addr <= a < end then DemandByte(View(s.ranges, a), files, a) else ByteAt(s, files, a))
  }

  lemma DontNeedStep(s: Space, t: Space, tables: map<TableKey, Pfn>, files: Files, addr: nat, end: nat)
    requires Owned(s) && TablesOwned(s.id, tables, s.ptes, s.pages) && Aligned(addr) && Aligned(end)
    requires Reassigned(s, t, PageNumber(addr), PageNumber(end), None)
    ensures Owned(t) && ForeignKept(s.id, s.pages, t.pages) && TablesOwned(s.id, tables, t.ptes, t.pages)
    ensures DontNeeded(s, t, files, addr, end)
  {
    hide Owned, ForeignKept, TablesOwned, EntriesReassigned, PagesReassigned, ByteAt;
    DroppedKeepsOwned(s, t, PageNumber(addr), PageNumber(end));
    DroppedKeepsForeign(s, t, PageNumber(addr), PageNumber(end), tables);
    ReassignedEntries(s, t, addr, end, None);
    NotResidentBytes(t, files, addr, end);
    BytesOutsideKept(s, t, files, addr, end);
  }

  /** MADV_DONTNEED drops the resident pages; anonymous memory then reads as zero. */
  method MadviseDontNeed(space: Pagemap, addr: nat, length: nat, ghost files: Files) returns (result: SyscallResult)
    requires space.Valid()
    modifies space`ptes, space.pmm`pages, space.pmm`freelist, space.pmm`totalFreePages
    ensures space.Valid()
    ensures ForeignKept(space.id, old(space.pmm.pages), space.pmm.pages)
    ensures result == if Aligned(addr) then Done else EINVAL
    ensures result == EINVAL ==> space.Snapshot() == old(space.Snapshot())
    ensures result == Done ==>
      DontNeeded(old(space.Snapshot()), space.Snapshot(), files, addr, addr + AlignUp(length, 4096))
  {
    hide WellFormed, TablesOwned, Owned, ForeignKept, FreelistMatches, ManagedPages, DontNeeded, Reassigned, PageNumber;
    ghost var s := space.Snapshot();
    OwnedIsLinked(s);
    NothingForeign(space.id, s.pages);
    if addr % 4096 != 0 {
      return EINVAL;
    }
    space.InvalidatePages(addr, AlignUp(length, 4096), None);
    DontNeedStep(s, space.Snapshot(), space.tables, files, addr, addr + AlignUp(length, 4096));
    return Done;
  }

  // What a page fault would bring in.
  ghost function DemandByte(r: Option<MappedRange>, files: Files, a: nat): Option<bv8> {
    if r.None? then None
    else if r.value.kind == FILE && r.value.file.Some? then Some(files(r.value.file.value, r.value.BackingOffset(a)))
    else Some(0)
  }

  lemma NotResidentBytes(s: Space, files: Files, addr: nat, end: nat)
    requires Aligned(addr) && Aligned(end)
    requires forall v :: v in s.ptes ==> !(addr <= PageAddr(v) < end)
    ensures forall a: nat :: addr <= a < end ==> ByteAt(s, files, a) == DemandByte(View(s.ranges, a), files, a)
  {
    forall a: nat | addr <= a < end ensures PageNumber(a) !in s.ptes {
      SpanCovers(addr, end, PageNumber(a));
    }
  }

  lemma BytesOutsideKept(s: Space, t: Space, files: Files, addr: nat, end: nat)
    requires Aligned(addr) && Aligned(end) && Owned(s)
    requires Reassigned(s, t, PageNumber(addr), PageNumber(end), None)
    ensures forall v :: v in t.ptes ==> v in s.ptes && t.ptes[v] == s.ptes[v]
    ensures forall a: nat :: !(addr <= a < end) ==> ByteAt(t, files, a) == ByteAt(s, files, a)
  {
    forall a: nat | !(addr <= a < end) ensures ByteAt(t, files, a) == ByteAt(s, files, a) {
      SpanCovers(addr, end, PageNumber(a));
      assert PageAddr(PageNumber(a)) <= a < PageAddr(PageNumber(a)) + 4096;
      if PageNumber(a) in s.ptes {
        assert LinkedEntry(s, PageNumber(a));
      }
    }
  }

  lemma DroppedKeepsOwned(s: Space, t: Space, lo: nat, hi: nat)
    requires Owned(s) && Reassigned(s, t, lo, hi, None)
    ensures Owned(t)
  {
    ReassignedLinked(s, t, lo, hi, None);
    forall v | v in t.ptes ensures LinkedEntry(t, v) && OwnedEntry(t, v) {
      assert LinkedEntry(s, v) && OwnedEntry(s, v);
    }
  }

  lemma DroppedKeepsForeign(s: Space, t: Space, lo: nat, hi: nat, tables: map<TableKey, Pfn>)
    requires Reassigned(s, t, lo, hi, None) && TablesOwned(s.id, tables, s.ptes, s.pages)
    ensures ForeignKept(s.id, s.pages, t.pages) && TablesOwned(s.id, tables, t.ptes, t.pages)
  {
    TablesKept(s.id, tables, s.ptes, s.pages, t.ptes, t.pages);
  }
}
