/**
 Promises of mapping calls that add_range does not always keep, with the exact conditions under which it
 does, and states in which it does not (kernel/kernel/src/mem/vmm.cpp).
 */
module RemapLimits {

  import opened Algorithm
  import opened Lists
  import opened PhysicalMemory
  import opened RangeList
  import opened FrameOwnership
  import opened MemoryMeaning
  import opened AddressSpace
  import opened MemorySyscalls
  import opened Fork

  const PLAIN := PageFlags(true, true, true, true)

  // A file mapping of pages 2 to 7 of which page 1 was cut off earlier.
  function TrimmedFileRange(): MappedRange {
    MappedRange(0, 8192, 4096, 24576, PLAIN, FILE, Some(0), 0)
  }

  /** This is what is left of a file mapping of pages 1 to 7 once page 1 is unmapped. */
  lemma UnmappingTrims(s0: Space, u: Space, a: nat)
    requires View(s0.ranges, a) == Some(TrimmedFileRange().(base := 4096, length := 28672))
    requires 8192 <= a && AddedRange(s0, u, UnmapRequest(4096, 4096))
    ensures View(u.ranges, a) == Some(TrimmedFileRange())
  {
    assert MeaningAt(s0, u, UnmapRequest(4096, 4096), a);
  }

  /** Unmapping page 4 then moves the pages behind the hole to another place in the file. */
  lemma HoleMovesFileOffset(s0: Space, u: Space)
    requires View(s0.ranges, 20480) == Some(TrimmedFileRange()) && AddedRange(s0, u, UnmapRequest(16384, 4096))
    ensures TrimmedFileRange().BackingOffset(20480) == 16384
    ensures View(u.ranges, 20480).Some? && View(u.ranges, 20480).value.BackingOffset(20480) == 12288
  {
    assert MeaningAt(s0, u, UnmapRequest(16384, 4096), 20480);
  }

  /** Changing the protection of page 4 moves that page to another place in the file. */
  lemma ProtectMovesFileOffset(s0: Space, u: Space, flags: PageFlags)
    requires View(s0.ranges, 16384) == Some(TrimmedFileRange()) && ProtectedTo(s0, u, 16384, 20480, flags)
    ensures TrimmedFileRange().BackingOffset(16384) == 12288
    ensures View(u.ranges, 16384).Some? && View(u.ranges, 16384).value.BackingOffset(16384) == 8192
  {
    assert ProtectedAt(s0, u, 16384, 20480, flags, 16384);
  }

  /** In a fork of the space every page of it is at another place in the file. */
  lemma ForkMovesFileOffset(p: Space, c: Space)
    requires View(p.ranges, 8192) == Some(TrimmedFileRange()) && Forked(p, c)
    ensures TrimmedFileRange().BackingOffset(8192) == 4096
    ensures View(c.ranges, 8192).Some? && View(c.ranges, 8192).value.BackingOffset(8192) == 0
  {
    assert CopiedAt(View(p.ranges, 8192), View(c.ranges, 8192), 8192);
  }

  /** After a hole is cut, every address keeps its place in its file if and only if no range that the
      hole splits was trimmed at the front. */
  lemma HoleKeepsFileOffsetsIff(s0: Space, u: Space, req: Request)
    requires AddedRange(s0, u, req) && WellFormed(s0.ranges, s0.nextId) && req.base <= req.End()
    ensures
      (forall a: nat :: !req.Contains(a) && View(s0.ranges, a).Some? ==> BackingKept(View(s0.ranges, a), View(u.ranges, a), a))
      <==>
      (forall i :: 0 <= i < |s0.ranges| && req.Splits(s0.ranges[i]) ==> s0.ranges[i].base == s0.ranges[i].originalBase)
  {
    hide Owned, ResidentAfter, PagesKept;
    if forall a: nat :: !req.Contains(a) && View(s0.ranges, a).Some? ==> BackingKept(View(s0.ranges, a), View(u.ranges, a), a) {
      forall i | 0 <= i < |s0.ranges| && req.Splits(s0.ranges[i])
        ensures s0.ranges[i].base == s0.ranges[i].originalBase
      {
        ViewIsUnique(s0.ranges, s0.nextId, i, req.End());
        BackingKeptIff(s0, u, req, req.End());
      }
    }
    if forall i :: 0 <= i < |s0.ranges| && req.Splits(s0.ranges[i]) ==> s0.ranges[i].base == s0.ranges[i].originalBase {
      forall a: nat | !req.Contains(a) && View(s0.ranges, a).Some?
        ensures BackingKept(View(s0.ranges, a), View(u.ranges, a), a)
      {
        BackingKeptIff(s0, u, req, a);
      }
    }
  }

  /** A page that was resident before a new mapping was placed over it shows through the new mapping if
      and only if its range sticks out of the request on some side, or matches the request exactly and
      pages are kept. */
  lemma OldPageShowsThroughIff(s0: Space, u: Space, req: Request, v: nat)
    requires AddedRange(s0, u, req) && Owned(s0) && req.kind != NONE
    requires v in s0.ptes && req.Contains(PageAddr(v))
    ensures var e := View(s0.ranges, PageAddr(v));
      && e.Some?
      && (v in u.ptes && u.ptes[v].pfn == s0.ptes[v].pfn <==>
          e.value.base < req.base || req.End() < e.value.End() || req.Exact(e.value))
  {
    assert OwnedEntry(s0, v);
  }

  /** So a new anonymous mapping, which must read as zero, reads an old byte where the range of a
      resident page starts before the mapping. */
  lemma NewMappingReadsOldByte(s0: Space, u: Space, req: Request, files: Files, a: nat)
    requires AddedRange(s0, u, req) && Owned(s0) && Owned(u) && req.kind == ANONYMOUS
    requires req.Contains(a) && req.Contains(PageAddr(PageNumber(a))) && PageNumber(a) in s0.ptes
    requires View(s0.ranges, PageAddr(PageNumber(a))).Some?
    requires View(s0.ranges, PageAddr(PageNumber(a))).value.base < req.base
    requires View(s0.ranges, a) == View(s0.ranges, PageAddr(PageNumber(a)))
    ensures ByteAt(u, files, a) == ByteAt(s0, files, a)
  {
    var v := PageNumber(a);
    OldPageShowsThroughIff(s0, u, req, v);
    assert MeaningAt(s0, u, req, a);
    assert LinkedEntry(s0, v) && LinkedEntry(u, v);
    assert PageKept(u.id, s0.pages[s0.ptes[v].pfn], u.pages[s0.ptes[v].pfn]);
  }

  // ----- a new mapping that does not read as zero -----

  // An anonymous range over pages 1 and 2, of which page 2 is resident in frame 5.
  function OldRange(): MappedRange {
    MappedRange(0, 4096, 4096, 8192, PLAIN, ANONYMOUS, None, 0)
  }

  function OldSpace(data: PageData): Space {
    Space(0, [OldRange()], 1, map[2 := Pte(5, PLAIN)], map[5 := Page(false, 8192, OnRange(0, 0), data)])
  }

  // MAP_FIXED of two anonymous pages from page 2 on.
  function FixedRequest(): Request {
    Request(8192, 8192, PLAIN.(writable := false), ANONYMOUS, None, 0, false)
  }

  // What add_range makes of it: the old range keeps page 1, and the new one gets the resident page.
  function NewSpace(data: PageData): Space {
    Space(0, [OldRange().(length := 4096), MappedRange(1, 8192, 8192, 8192, PLAIN.(writable := false), ANONYMOUS, None, 0)],
          2, map[2 := Pte(5, PLAIN.(writable := false))], map[5 := Page(false, 8192, OnRange(0, 1), data)])
  }

  lemma OldSpaceSound(data: PageData)
    ensures Owned(OldSpace(data)) && WellFormed(OldSpace(data).ranges, 1)
    ensures Owned(NewSpace(data)) && WellFormed(NewSpace(data).ranges, 2)
  {
    hide WellFormed;
    OldRangesSound(data);
    var s, u := OldSpace(data), NewSpace(data);
    ViewIsUnique(s.ranges, 1, 0, 8192);
    ViewIsUnique(u.ranges, 2, 1, 8192);
    assert LinkedEntry(s, 2) && OwnedEntry(s, 2) && LinkedPage(s, 5);
    assert LinkedEntry(u, 2) && OwnedEntry(u, 2) && LinkedPage(u, 5);
  }

  lemma OldRangesSound(data: PageData)
    ensures WellFormed(OldSpace(data).ranges, 1) && WellFormed(NewSpace(data).ranges, 2)
  {
  }

  lemma FixedOutcome(data: PageData)
    ensures FixedRequest().Sound() && AddedRange(OldSpace(data), NewSpace(data), FixedRequest())
  {
    hide Owned;
    OldSpaceSound(data);
    var s, u, req := OldSpace(data), NewSpace(data), FixedRequest();
    forall a: nat ensures MeaningAt(s, u, req, a) {
      assert a >= 4096 && a < 12288 ==> s.ranges[0].Covers(a);
      assert 4096 <= a < 8192 ==> u.ranges[0].Covers(a);
      assert 8192 <= a < 16384 ==> u.ranges[1].Covers(a);
    }
    assert View(s.ranges, 8192) == Some(OldRange());
  }

  /** Whatever page 2 held before can be read from the new anonymous mapping. */
  lemma FixedMappingReadsOldByte(data: PageData, files: Files)
    ensures View(NewSpace(data).ranges, 8192).Some? && View(NewSpace(data).ranges, 8192).value.base == 8192
    ensures ByteAt(NewSpace(data), files, 8192) == ByteAt(OldSpace(data), files, 8192) == Some(data[0])
  {
    OldSpaceSound(data);
    FixedOutcome(data);
    assert View(OldSpace(data).ranges, 8192) == Some(OldRange());
    NewMappingReadsOldByte(OldSpace(data), NewSpace(data), FixedRequest(), files, 8192);
  }

  // ----- ranges that do not start at a page -----

  predicate Touches(v: nat, base: nat, length: nat) {
    PageAddr(v) < base + length && base < PageAddr(v + 1)
  }

  /** invalidate_pages gets to every page that the addresses touch exactly if they do not stick out of as many
      whole pages.  If the length is a number of pages, they stick out unless the base is page-aligned. */
  lemma SweepReachesAllIff(base: nat, length: nat)
    requires 0 < length
    ensures (forall v: nat :: Touches(v, base, length) ==> PageNumber(base) <= v < SweepEnd(base, length))
      <==> base % 4096 + length <= AlignUp(length, 4096)
    ensures Aligned(length) ==> (base % 4096 + length <= AlignUp(length, 4096) <==> Aligned(base))
  {
    var n := AlignUp(length, 4096) / 4096;
    assert AlignUp(length, 4096) == n * 4096;
    if base % 4096 + length > n * 4096 {
      assert Touches(PageNumber(base) + n, base, length);
    }
  }

  /** Deleting a range: the entry of a page that the sweep does not get to stays and names a page that is free. */
  method DeleteWithoutSweeping(space: Pagemap, i: nat, ghost v: nat)
    requires space.pmm.Valid() && Linked(space.Snapshot()) && i < |space.ranges|
    requires v in space.ptes && LinkedEntry(space.Snapshot(), v) && Holder(space.Snapshot(), v) == space.ranges[i].id
    modifies space`ranges, space`ptes, space.pmm`pages, space.pmm`freelist, space.pmm`totalFreePages
    ensures space.ranges == RemoveAt(old(space.ranges), i)
    ensures var r := old(space.ranges)[i];
      v in space.ptes <==> !(PageNumber(r.base) <= v < SweepEnd(r.base, r.length))
    ensures v in space.ptes ==>
      space.ptes[v].pfn in space.pmm.pages && space.pmm.pages[space.ptes[v].pfn].free
  {
    hide FreelistMatches, ManagedPages;
    space.InvalidatePages(space.ranges[i].base, space.ranges[i].length, None);
    space.DestroyRange(i);
  }
}
