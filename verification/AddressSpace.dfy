/**
 A process address space: struct Pagemap in kernel/kernel/src/mem/vmm.hpp and its operations in vmm.cpp.
 */
module AddressSpace {

  import opened Algorithm
  import opened Lists
  import opened PhysicalMemory
  import opened RangeList
  import opened FrameOwnership
  import opened MemoryMeaning

  // What a page fault ends in: an address that is not mapped, a page, or a panic.
  datatype FaultResult = BadAddress | Physical(pfn: Pfn) | OutOfMemory

  // What access_memory ends in: a number of bytes, an error, or a panic.
  datatype AccessResult = Transferred(count: nat) | EFAULT | Panicked

  // The first page that invalidate_pages does not get to.
  function SweepEnd(base: nat, length: nat): nat {
    PageNumber(base) + AlignUp(length, 4096) / 4096
  }

  class Pagemap {
    const id: nat
    const pmm: PageAllocator

    var ranges: seq<MappedRange>
    var nextId: nat
    var ptes: map<nat, Pte>
    var tables: map<TableKey, Pfn>
    var cachedRangeLookup: Option<nat>

    constructor (id: nat, pmm: PageAllocator)
      ensures this.id == id && this.pmm == pmm
      ensures ranges == [] && ptes == map[] && tables == map[] && cachedRangeLookup == None
    {
      this.id, this.pmm := id, pmm;
      ranges, nextId, ptes, tables, cachedRangeLookup := [], 0, map[], map[], None;
    }

    ghost function Snapshot(): Space
      reads this, pmm
    {
      Space(id, ranges, nextId, ptes, pmm.pages)
    }

    // The cached range, if any, is one of the ranges on the list.
    ghost predicate CacheValid()
      reads this
    {
      cachedRangeLookup.Some? ==> exists i :: 0 <= i < |ranges| && ranges[i].id == cachedRangeLookup.value
    }

    ghost predicate Valid()
      reads this, pmm
    {
      && pmm.Valid()
      && WellFormed(ranges, nextId)
      && Owned(Snapshot())
      && TablesOwned(id, tables, ptes, pmm.pages)
      && CacheValid()
    }

    // find_page_table_entry(virt), and what becomes of a present entry and its page
    method InvalidatePage(virt: nat, target: Option<MappedRange>)
      requires pmm.Valid() && Linked(Snapshot()) && (target.Some? ==> Aligned(virt))
      modifies this`ptes, pmm`pages, pmm`freelist, pmm`totalFreePages
      ensures pmm.Valid() && Linked(Snapshot())
      ensures Reassigned(old(Snapshot()), Snapshot(), PageNumber(virt), PageNumber(virt) + 1, target)
    {
      hide Linked, EntriesReassigned, PagesReassigned, FreelistMatches, ManagedPages;
      var v := PageNumber(virt);
      ghost var s := Snapshot();
      if v !in ptes {
        ReassignAbsent(s, v, target);
        return;
      }
      ReassignPresent(s, v, target);
      var f := ptes[v].pfn;
      assert !pmm.pages[f].free; // ASSERT(!page->free)
      pmm.Unlink(f);
      if target.Some? {
        pmm.SetMappedAddr(f, virt);
        pmm.AddToList(f, OnRange(id, target.value.id));
        ptes := ptes[v := Pte(f, target.value.flags)];
      } else {
        ptes := ptes - {v};
        pmm.FreePage(f);
      }
      ghost var page := MovedPage(id, v, v + 1, target, s.pages[f]);
      assert pmm.pages == s.pages[f := page];
      ReassignedLinked(s, Snapshot(), v, v + 1, target);
    }

    // As many pages as the length has, from that of the base on.
    method InvalidatePages(base: nat, length: nat, target: Option<MappedRange>)
      requires pmm.Valid() && Linked(Snapshot()) && (target.Some? ==> Aligned(base))
      modifies this`ptes, pmm`pages, pmm`freelist, pmm`totalFreePages
      ensures pmm.Valid() && Linked(Snapshot())
      ensures Reassigned(old(Snapshot()), Snapshot(), PageNumber(base), SweepEnd(base, length), target)
      ensures Aligned(base) && Aligned(length) ==> SweepEnd(base, length) == PageNumber(base + length)
    {
      hide Linked, EntriesReassigned, PagesReassigned, PageAllocator.Valid;
      var n := AlignUp(length, 4096) / 4096;
      var i := 0;
      ghost var s := Snapshot();
      ReassignedNothing(s, PageNumber(base), target);
      while i < n
        invariant 0 <= i <= n
        invariant pmm.Valid() && Linked(Snapshot())
        invariant Reassigned(s, Snapshot(), PageNumber(base), PageNumber(base) + i, target)
      {
        ghost var t := Snapshot();
        InvalidatePage(base + i * 4096, target);
        ReassignedMore(s, t, Snapshot(), PageNumber(base), PageNumber(base) + i, target);
        i := i + 1;
      }
    }

    // ~MappedRange: takes the range off the list and frees every page on its page list.
    method DestroyRange(i: nat)
      requires pmm.Valid() && i < |ranges|
      modifies this`ranges, pmm`pages, pmm`freelist, pmm`totalFreePages
      ensures pmm.Valid()
      ensures ranges == RemoveAt(old(ranges), i)
      ensures pmm.pages == FreedList(old(pmm.pages), OnRange(id, old(ranges)[i].id))
    {
      var list := OnRange(id, ranges[i].id);
      ranges := RemoveAt(ranges, i);
      FreeList(list);
    }

    // LIST_FOR_EACH_SAFE(page, list, link) pmm::free_page(page)
    method FreeList(list: Link)
      requires pmm.Valid() && list != OnFreelist
      modifies pmm`pages, pmm`freelist, pmm`totalFreePages
      ensures pmm.Valid()
      ensures pmm.pages == FreedList(old(pmm.pages), list)
    {
      hide FreelistMatches, ManagedPages;
      var pageList := PageList(pmm.pages, list);
      while pageList != {}
        invariant pmm.Valid()
        invariant pageList == PageList(pmm.pages, list)
        invariant FreedList(pmm.pages, list) == FreedList(old(pmm.pages), list)
        decreases pageList
      {
        var f :| f in pageList;
        FreedListStep(pmm.pages, list, f);
        UnlinkAndFree(f);
        pageList := pageList - {f};
      }
      FreedListDone(pmm.pages, list);
    }

    method UnlinkAndFree(f: Pfn)
      requires pmm.Valid() && f in pmm.pages && pmm.pages[f].link != OnFreelist
      modifies pmm`pages, pmm`freelist, pmm`totalFreePages
      ensures pmm.Valid()
      ensures pmm.pages == old(pmm.pages)[f := old(pmm.pages)[f].(free := true, mappedAddr := 0, link := OnFreelist)]
    {
      hide FreelistMatches, ManagedPages;
      FreePagesAreOnTheFreelist(pmm, f);
      pmm.Unlink(f);
      pmm.FreePage(f);
    }

    // The last part of add_range; all of it when overlaps are not resolved and nothing is merged.
    method InsertRange(base: nat, length: nat, flags: PageFlags, kind: RangeType, file: Option<nat>, fileOffset: int)
      returns (k: nat)
      modifies this`ranges, this`nextId, this`cachedRangeLookup
      ensures k <= |old(ranges)| && nextId == old(nextId) + 1 && cachedRangeLookup == None
      ensures ranges == InsertAt(old(ranges), k, MappedRange(old(nextId), base, base, length, flags, kind, file, fileOffset))
    {
      cachedRangeLookup := None;
      k := 0;
      if ranges != [] {
        while k + 1 < |ranges| && ranges[k + 1].base <= base
          invariant k < |ranges|
        {
          k := k + 1;
        }
        k := k + 1;
      }
      ranges := InsertAt(ranges, k, MappedRange(nextId, base, base, length, flags, kind, file, fileOffset));
      nextId := nextId + 1;
    }

    // The request matches an existing range, which keeps its pages.
    method ChangeProtection(req: Request, i: nat, ghost s0: Space)
      requires pmm.Valid() && req.Sound() && req.kind != NONE
      requires Resolving(s0, Snapshot(), req)
      requires i < |ranges| && req.Exact(ranges[i])
      modifies this`ranges, this`ptes, pmm`pages, pmm`freelist, pmm`totalFreePages
      ensures pmm.Valid()
      ensures AddedRange(s0, Snapshot(), req)
    {
      hide WellFormed, Linked, MeaningKept, ResidentKept, PagesKept, ResidentAfter, Untouched;
      hide EntriesReassigned, PagesReassigned, FreelistMatches, ManagedPages;
      ghost var s := Snapshot();
      if ranges[i].flags != req.flags {
        RangeIsSound(ranges, nextId, i);
        ranges := ranges[i := ranges[i].(flags := req.flags)];
        LinkedIgnoresRanges(s, Snapshot());
        InvalidatePages(ranges[i].base, ranges[i].length, Some(ranges[i]));
      } else {
        ExactWithoutChange(s0, s, req, i);
        assert ranges[i := ranges[i].(flags := req.flags)] == ranges;
      }
      FinishExact(s0, s, Snapshot(), req, i);
    }

    // The request covers an existing range: frees its pages and deletes it.
    method DeleteRange(req: Request, i: nat, ghost s0: Space)
      requires pmm.Valid() && req.Sound()
      requires Resolving(s0, Snapshot(), req)
      requires i < |ranges| && Overlaps(ranges[i], req.base, req.End()) && req.Deletes(ranges[i])
      modifies this`ranges, this`ptes, pmm`pages, pmm`freelist, pmm`totalFreePages
      ensures pmm.Valid()
      ensures ranges == RemoveAt(old(ranges), i)
      ensures Resolving(s0, Snapshot(), req)
    {
      hide WellFormed, Linked, MeaningKept, ResidentKept, PagesKept, ResidentAfter, Untouched;
      hide EntriesReassigned, PagesReassigned, FreelistMatches, ManagedPages;
      ghost var s := Snapshot();
      RangeIsSound(ranges, nextId, i);
      InvalidatePages(ranges[i].base, ranges[i].length, None);
      ghost var t := Snapshot();
      DeleteStep(s0, s, t, req, i);
      FreedEmptyList(pmm.pages, OnRange(id, ranges[i].id));
      DestroyRange(i);
      assert Snapshot() == t.(ranges := RemoveAt(s.ranges, i));
    }

    // The request lies strictly inside an existing range, whose right part becomes a new range.
    method SplitRange(req: Request, i: nat, ghost s0: Space) returns (next: nat)
      requires pmm.Valid() && req.Sound()
      requires Resolving(s0, Snapshot(), req)
      requires i < |ranges| && req.Splits(ranges[i])
      requires NoOverlap(ranges[..i], req.base, req.End())
      modifies this`ranges, this`nextId, this`ptes, this`cachedRangeLookup
      modifies pmm`pages, pmm`freelist, pmm`totalFreePages
      ensures pmm.Valid() && cachedRangeLookup == None
      ensures Resolving(s0, Snapshot(), req)
      ensures next <= |ranges| && NoOverlap(ranges[..next], req.base, req.End())
      ensures CountOverlaps(ranges, req.base, req.End()) + 1 == CountOverlaps(old(ranges), req.base, req.End())
    {
      hide WellFormed, Linked, MeaningKept, ResidentKept, PagesKept, ResidentAfter, Untouched;
      hide EntriesReassigned, PagesReassigned, FreelistMatches, ManagedPages;
      var existing := ranges[i];
      ghost var s := Snapshot();
      RangeIsSound(ranges, nextId, i);
      var base2 := req.End();
      var length2 := existing.End() - req.End();
      var splitOffset := base2 - existing.base;
      ranges := ranges[i := existing.(length := req.base - existing.base)];
      var k := InsertRange(base2, length2, existing.flags, existing.kind, existing.file,
                           existing.fileOffset + splitOffset);
      ghost var s1 := Snapshot();
      var split := ranges[k];
      assert split == RightPart(existing, req, s.nextId);
      assert s1 == s.(ranges := InsertAt(s.ranges[i := LeftPart(existing, req)], k, split), nextId := s.nextId + 1);
      SplitView(s.ranges, s.nextId, req, i, k);
      LinkedIgnoresRanges(s, s1);
      InvalidatePages(split.base, split.length, Some(split));
      ghost var t := Snapshot();
      assert Reassigned(s1, t, PageNumber(split.base), PageNumber(split.End()), Some(split));
      SplitStep(s0, s, s1, t, req, i, k);
      next := if k <= i + 1 then i + 2 else i + 1;
      SplitPrefix(s.ranges, req, i, k, s.nextId);
    }

    // One existing range that overlaps the request.  next is the position at which the loop over the
    // list goes on; exact is the early return for a range that the request matches.
    method ResolveRange(req: Request, i: nat, ghost s0: Space) returns (next: nat, exact: bool)
      requires pmm.Valid() && req.Sound() && cachedRangeLookup == None
      requires Resolving(s0, Snapshot(), req)
      requires i < |ranges| && Overlaps(ranges[i], req.base, req.End())
      requires NoOverlap(ranges[..i], req.base, req.End())
      modifies this`ranges, this`nextId, this`ptes, this`cachedRangeLookup
      modifies pmm`pages, pmm`freelist, pmm`totalFreePages
      ensures pmm.Valid() && cachedRangeLookup == None
      ensures exact ==> AddedRange(s0, Snapshot(), req)
      ensures !exact ==> Resolving(s0, Snapshot(), req)
      ensures !exact ==> next <= |ranges| && NoOverlap(ranges[..next], req.base, req.End())
      ensures !exact ==>
        CountOverlaps(ranges, req.base, req.End()) + 1 == CountOverlaps(old(ranges), req.base, req.End())
    {
      hide WellFormed, Linked, WeaklyOwned, Owned, MeaningKept, ResidentKept, PagesKept, ResidentAfter;
      hide EntriesReassigned, PagesReassigned, FreelistMatches, ManagedPages, Untouched;
      var existing := ranges[i];
      ghost var s := Snapshot();
      RangeIsSound(ranges, nextId, i);
      next := i + 1;
      exact := false;
      if req.base <= existing.base {
        if req.End() >= existing.End() {
          if req.Exact(existing) {
            exact := true;
            ChangeProtection(req, i, s0);
          } else {
            DeleteRange(req, i, s0);
            next := i;
            CountRemove(s.ranges, i, req.base, req.End());
            assert ranges[..i] == s.ranges[..i];
          }
        } else {
          var overlap := req.End() - existing.base;
          ranges := ranges[i := existing.(base := existing.base + overlap, length := existing.length - overlap)];
          TrimStep(s0, s, req, i, ranges[i]);
          TrimFacts(req, existing, ranges[i]);
          CountReplace(s.ranges, i, ranges[i], req.base, req.End());
          NoOverlapPrefix(s.ranges, ranges, i, req.base, req.End());
        }
      } else if req.End() >= existing.End() {
        ranges := ranges[i := existing.(length := existing.length - (existing.End() - req.base))];
        TrimStep(s0, s, req, i, ranges[i]);
        TrimFacts(req, existing, ranges[i]);
        CountReplace(s.ranges, i, ranges[i], req.base, req.End());
        NoOverlapPrefix(s.ranges, ranges, i, req.base, req.End());
      } else {
        next := SplitRange(req, i, s0);
      }
    }

    /** add_range with overlap resolution. */
    method AddRange(req: Request, merge: bool)
      requires Valid() && req.Sound()
      modifies this`ranges, this`nextId, this`ptes, this`cachedRangeLookup
      modifies pmm`pages, pmm`freelist, pmm`totalFreePages
      ensures Valid()
      ensures AddedRange(old(Snapshot()), Snapshot(), req)
    {
      hide WellFormed, Linked, WeaklyOwned, Owned, MeaningKept, ResidentKept, PagesKept, ResidentAfter, Untouched;
      hide EntriesReassigned, PagesReassigned, FreelistMatches, ManagedPages, TablesOwned;
      ghost var s0 := Snapshot();
      cachedRangeLookup := None;
      var hadOverlap := false;
      var needToResolveOverlap := true;
      ResolvingStarts(s0, req);
      while needToResolveOverlap
        invariant pmm.Valid() && cachedRangeLookup == None
        invariant Resolving(s0, Snapshot(), req)
        invariant !hadOverlap ==> Snapshot() == s0
        invariant !needToResolveOverlap ==> NoOverlap(ranges, req.base, req.End())
        decreases CountOverlaps(ranges, req.base, req.End()) + if needToResolveOverlap then 1 else 0
      {
        needToResolveOverlap := false;
        ghost var count := CountOverlaps(ranges, req.base, req.End());
        var i: nat := 0;
        while i < |ranges|
          invariant i <= |ranges|
          invariant pmm.Valid() && cachedRangeLookup == None
          invariant Resolving(s0, Snapshot(), req)
          invariant !hadOverlap ==> Snapshot() == s0
          invariant NoOverlap(ranges[..i], req.base, req.End())
          invariant CountOverlaps(ranges, req.base, req.End()) + (if needToResolveOverlap then 1 else 0) <= count
          decreases CountOverlaps(ranges, req.base, req.End()), |ranges| - i
        {
          if !Overlaps(ranges[i], req.base, req.End()) {
            NoOverlapPrefix(ranges, ranges, i, req.base, req.End());
            i := i + 1;
          } else {
            var next, exact := ResolveRange(req, i, s0);
            if exact {
              AddedRangeTables(s0, Snapshot(), req, tables);
              return;
            }
            hadOverlap := true;
            needToResolveOverlap := true;
            i := next;
          }
        }
        assert ranges[..i] == ranges;
      }
      FillRequest(req, merge, hadOverlap, s0);
      AddedRangeTables(s0, Snapshot(), req, tables);
    }

    // Nothing overlaps the request any more: merge with a neighbour, unmap, or insert a new range.
    method FillRequest(req: Request, merge: bool, hadOverlap: bool, ghost s0: Space)
      requires pmm.Valid() && req.Sound() && cachedRangeLookup == None
      requires Resolving(s0, Snapshot(), req) && NoOverlap(ranges, req.base, req.End())
      requires !hadOverlap ==> Snapshot() == s0
      modifies this`ranges, this`nextId, this`ptes, this`cachedRangeLookup
      modifies pmm`pages, pmm`freelist, pmm`totalFreePages
      ensures pmm.Valid() && cachedRangeLookup == None
      ensures AddedRange(s0, Snapshot(), req)
    {
      hide WellFormed, Linked, MeaningKept, ResidentKept, PagesKept, ResidentAfter, Untouched;
      hide EntriesReassigned, PagesReassigned, FreelistMatches, ManagedPages;
      ghost var s := Snapshot();
      if merge && req.kind == ANONYMOUS {
        var i: nat := 0;
        while i < |ranges|
          invariant pmm.Valid() && cachedRangeLookup == None && Snapshot() == s
        {
          var existing := ranges[i];
          if req.kind == existing.kind && req.flags == existing.flags {
            if req.base == existing.End() {
              ranges := ranges[i := existing.(length := existing.length + req.length)];
              MergePages(req, i, hadOverlap, s0, s);
              return;
            } else if req.End() == existing.base {
              ranges := ranges[i := existing.(base := existing.base - req.length, length := existing.length + req.length)];
              MergePages(req, i, hadOverlap, s0, s);
              return;
            }
          }
          i := i + 1;
        }
      }

      if req.kind == NONE {
        FillByNothing(s, req);
        InvalidatePages(req.base, req.length, None);
        ghost var u := Snapshot();
        assert Reassigned(s, u, PageNumber(req.base), PageNumber(req.End()), None);
        Finish(s0, s, s, u, req, None);
        return;
      }

      InsertFilled(req, hadOverlap, s0);
    }

    // The new range takes over the pages of the request.
    method InsertFilled(req: Request, hadOverlap: bool, ghost s0: Space)
      requires pmm.Valid() && req.Sound() && req.kind != NONE
      requires Resolving(s0, Snapshot(), req) && NoOverlap(ranges, req.base, req.End())
      requires !hadOverlap ==> Snapshot() == s0
      modifies this`ranges, this`nextId, this`ptes, this`cachedRangeLookup
      modifies pmm`pages, pmm`freelist, pmm`totalFreePages
      ensures pmm.Valid() && cachedRangeLookup == None
      ensures AddedRange(s0, Snapshot(), req)
    {
      hide WellFormed, Linked, MeaningKept, ResidentKept, PagesKept, ResidentAfter, Untouched;
      hide EntriesReassigned, PagesReassigned, FreelistMatches, ManagedPages;
      ghost var s := Snapshot();
      var k := InsertRange(req.base, req.length, req.flags, req.kind, req.file, req.fileOffset);
      ghost var s1 := Snapshot();
      assert s1 == s.(ranges := InsertAt(s.ranges, k, ranges[k]), nextId := s.nextId + 1);
      FillByInsertion(s, req, k, ranges[k]);
      if hadOverlap {
        LinkedIgnoresRanges(s, s1);
        InvalidatePages(req.base, req.length, Some(ranges[k]));
      } else {
        NothingToMove(s, s1, req, Some(ranges[k]));
      }
      ghost var u := Snapshot();
      assert Reassigned(s1, u, PageNumber(req.base), PageNumber(req.End()), Some(ranges[k]));
      Finish(s0, s, s1, u, req, Some(ranges[k]));
    }

    // The pages of the request move to the neighbour that was enlarged.
    method MergePages(req: Request, i: nat, hadOverlap: bool, ghost s0: Space, ghost s: Space)
      requires pmm.Valid() && req.Sound() && req.kind == ANONYMOUS
      requires Resolving(s0, s, req) && NoOverlap(s.ranges, req.base, req.End())
      requires !hadOverlap ==> s == s0
      requires i < |s.ranges| && i < |ranges| && Enlarges(req, s.ranges[i], ranges[i])
      requires s.ranges[i].kind == req.kind && s.ranges[i].flags == req.flags
      requires Snapshot() == s.(ranges := s.ranges[i := ranges[i]])
      modifies this`ptes, pmm`pages, pmm`freelist, pmm`totalFreePages
      ensures pmm.Valid()
      ensures AddedRange(s0, Snapshot(), req)
    {
      hide WellFormed, Linked, MeaningKept, ResidentKept, PagesKept, ResidentAfter, Untouched;
      hide EntriesReassigned, PagesReassigned, FreelistMatches, ManagedPages;
      ghost var s1 := Snapshot();
      FillByMerging(s, req, i, ranges[i]);
      if hadOverlap {
        LinkedIgnoresRanges(s, s1);
        InvalidatePages(req.base, req.length, Some(ranges[i]));
      } else {
        NothingToMove(s, s1, req, Some(ranges[i]));
      }
      Finish(s0, s, s1, Snapshot(), req, Some(ranges[i]));
    }

    // The object that a range pointer refers to.
    function RangeById(rangeId: nat): Option<MappedRange>
      reads this`ranges
    {
      FindById(ranges, rangeId)
    }

    /** addr_to_range, for the ranges of this pagemap. */
    method AddrToRange(virt: nat) returns (range: Option<MappedRange>)
      requires WellFormed(ranges, nextId) && CacheValid()
      modifies this`cachedRangeLookup
      ensures range == View(ranges, virt)
      ensures CacheValid()
    {
      if cachedRangeLookup.Some? {
        var cached := RangeById(cachedRangeLookup.value);
        FoundById(ranges, cachedRangeLookup.value);
        if cached.value.Covers(virt) {
          var i :| 0 <= i < |ranges| && ranges[i] == cached.value;
          ViewIsUnique(ranges, nextId, i, virt);
          return cached;
        }
      }
      var i: nat := 0;
      while i < |ranges|
        invariant i <= |ranges|
        invariant forall j :: 0 <= j < i ==> !ranges[j].Covers(virt)
      {
        if ranges[i].Covers(virt) {
          cachedRangeLookup := Some(ranges[i].id);
          ViewIsUnique(ranges, nextId, i, virt);
          return Some(ranges[i]);
        }
        i := i + 1;
      }
      return None;
    }

    // alloc_page_for_page_table; false stands for the panic of an empty freelist
    method AllocTable(k: TableKey) returns (ok: bool)
      requires Valid() && k !in tables
      modifies this`tables, pmm`pages, pmm`freelist, pmm`totalFreePages
      ensures Valid()
      ensures ForeignKept(id, old(pmm.pages), pmm.pages)
      ensures OwnPagesKept(id, old(pmm.pages), pmm.pages)
      ensures if ok then tables.Keys == old(tables).Keys + {k} else tables == old(tables)
      ensures !ok ==> pmm.freelist == []
    {
      hide WellFormed, Owned, FreelistMatches, ManagedPages, TablesOwned, ForeignKept, OwnPagesKept;
      ghost var s := Snapshot();
      NothingForeign(id, s.pages);
      var page := AllocPageFor(0, OnTables(id), ZeroPage());
      if page == None {
        assert Snapshot() == s;
        return false;
      }
      ghost var table := pmm.pages[page.value];
      TookTableOwned(s, pmm.pages, page.value, table);
      TookTable(id, tables, ptes, s.pages, pmm.pages, k, page.value, table);
      TookPageForeignKept(id, s.pages, pmm.pages, page.value, table);
      TookPageOwnKept(id, s.pages, pmm.pages, page.value, table);
      tables := tables[k := page.value];
      return true;
    }

    // find_page_table_entry(virt, true): creates the tables on the way to the entry of page v.
    method CreatePath(v: nat) returns (ok: bool)
      requires Valid()
      modifies this`tables, pmm`pages, pmm`freelist, pmm`totalFreePages
      ensures Valid()
      ensures ForeignKept(id, old(pmm.pages), pmm.pages)
      ensures OwnPagesKept(id, old(pmm.pages), pmm.pages)
      ensures old(tables.Keys) <= tables.Keys
      ensures ok ==> HasPath(tables, v) && tables.Keys == old(tables.Keys) + {KeyOf(3, v), KeyOf(2, v), KeyOf(1, v)}
      ensures !ok ==> pmm.freelist == [] && !HasPath(tables, v)
    {
      hide WellFormed, Owned, FreelistMatches, ManagedPages, TablesOwned, ForeignKept, OwnPagesKept, KeyOf, Linked;
      ghost var p := pmm.pages;
      NothingForeign(id, p);
      var level := 3;
      while level >= 1
        invariant 0 <= level <= 3
        invariant Valid()
        invariant ForeignKept(id, p, pmm.pages) && OwnPagesKept(id, p, pmm.pages)
        invariant tables.Keys == old(tables.Keys) + set l | level < l <= 3 :: KeyOf(l, v)
      {
        ghost var q := pmm.pages;
        if KeyOf(level, v) !in tables {
          ok := AllocTable(KeyOf(level, v));
          ForeignKeptTransitive(id, p, q, pmm.pages);
          OwnPagesKeptTransitive(id, p, q, pmm.pages);
          if !ok {
            return;
          }
        }
        level := level - 1;
      }
      return true;
    }

    // A page becomes resident: allocate it, fill it, put it on the page list of its range and enter it.
    method AddPage(v: nat, ghost r: MappedRange, rangeId: nat, flags: PageFlags, data: PageData)
      returns (page: Option<Pfn>)
      requires Valid() && v !in ptes && HasPath(tables, v)
      requires View(ranges, PageAddr(v)) == Some(r) && r.id == rangeId && r.flags == flags
      modifies this`ptes, pmm`pages, pmm`freelist, pmm`totalFreePages
      ensures Valid()
      ensures ForeignKept(id, old(pmm.pages), pmm.pages)
      ensures OwnPagesKept(id, old(pmm.pages), pmm.pages)
      ensures page.None? ==> ptes == old(ptes) && pmm.freelist == []
      ensures page.Some? ==>
        && ptes == old(ptes)[v := Pte(page.value, flags)]
        && page.value in pmm.pages && pmm.pages[page.value].data == data
    {
      hide WellFormed, Owned, FreelistMatches, ManagedPages, TablesOwned, Linked, ForeignKept, OwnPagesKept;
      ghost var s := Snapshot();
      NothingForeign(id, s.pages);
      page := AllocPageFor(v * 4096, OnRange(id, rangeId), data);
      if page == None {
        assert Snapshot() == s;
        return;
      }
      ghost var added := pmm.pages[page.value];
      ptes := ptes[v := Pte(page.value, flags)];
      TookPageOwned(s, Snapshot(), v, r, page.value, added);
      TookPageForeignKept(id, s.pages, pmm.pages, page.value, added);
      TookPageOwnKept(id, s.pages, pmm.pages, page.value, added);
      TookPageTables(id, tables, s.ptes, s.pages, ptes, pmm.pages, page.value, added);
    }

    // Allocates a page, marks and fills it and puts it on a list.
    method AllocPageFor(mappedAddr: nat, list: Link, data: PageData) returns (page: Option<Pfn>)
      requires pmm.Valid() && list != Detached && list != OnFreelist
      modifies pmm`pages, pmm`freelist, pmm`totalFreePages
      ensures pmm.Valid()
      ensures page.None? ==> pmm.pages == old(pmm.pages) && pmm.freelist == []
      ensures page.Some? ==> TookPage(old(pmm.pages), pmm.pages, page.value, Page(false, mappedAddr, list, data))
    {
      hide FreelistMatches, ManagedPages;
      page := pmm.AllocPage();
      if page.Some? {
        FreePageIsOnFreelist(old(pmm.pages), old(pmm.freelist), page.value);
        pmm.SetMappedAddr(page.value, mappedAddr);
        pmm.AddToList(page.value, list);
        pmm.SetData(page.value, data);
        assert pmm.pages == old(pmm.pages)[page.value := Page(false, mappedAddr, list, data)];
      }
    }

    /** handle_page_fault.  Files are read through the parameter. */
    method HandlePageFault(virt: nat, files: Files) returns (result: FaultResult)
      requires Valid()
      modifies this`ptes, this`tables, this`cachedRangeLookup, pmm`pages, pmm`freelist, pmm`totalFreePages
      ensures Valid()
      ensures ForeignKept(id, old(pmm.pages), pmm.pages)
      // no load returns anything else than before
      ensures forall a: nat :: ByteAt(Snapshot(), files, a) == ByteAt(old(Snapshot()), files, a)
      ensures result.Physical? ==>
        && PageNumber(virt) !in old(ptes) && View(ranges, virt).Some?
        && ptes == old(ptes)[PageNumber(virt) := Pte(result.pfn, View(ranges, virt).value.flags)]
      ensures !result.Physical? ==> ptes == old(ptes)
      ensures result.BadAddress? ==> PageNumber(virt) in ptes || View(ranges, virt).None?
      ensures result.OutOfMemory? ==> pmm.freelist == [] && PageNumber(virt) !in ptes
    {
      hide WellFormed, Owned, FreelistMatches, ManagedPages, TablesOwned, Linked, ForeignKept, OwnPagesKept, ByteAt;
      var v := PageNumber(virt);
      ghost var s := Snapshot();
      var ok := CreatePath(v);
      ghost var t := Snapshot();
      SameBytes(s, t, files);
      if !ok {
        NoPathNoEntry(id, tables, ptes, pmm.pages, v);
        return OutOfMemory;
      }
      if v in ptes {
        return BadAddress;
      }
      var range := AddrToRange(virt);
      if range == None {
        return BadAddress;
      }
      PageInsideRange(ranges, nextId, range.value, virt);
      var data := FaultData(range.value, files, PageAddr(v));
      var page := AddPage(v, range.value, range.value.id, range.value.flags, data);
      ForeignKeptTransitive(id, s.pages, t.pages, pmm.pages);
      if page == None {
        SameBytes(t, Snapshot(), files);
        return OutOfMemory;
      }
      OwnedIsLinked(t);
      OwnPagesStay(t, Snapshot());
      FaultIsTransparent(t, Snapshot(), files, v, page.value, range.value);
      return Physical(page.value);
    }

    // Puts bytes into a resident page.
    method StoreInPage(f: Pfn, a: nat, bytes: seq<bv8>, ghost files: Files)
      requires Valid() && PageNumber(a) in ptes && ptes[PageNumber(a)].pfn == f && a % 4096 + |bytes| <= 4096
      modifies pmm`pages
      ensures Valid()
      ensures ForeignKept(id, old(pmm.pages), pmm.pages)
      ensures StoredBytes(old(Snapshot()), Snapshot(), files, a, bytes)
    {
      hide WellFormed, Owned, FreelistMatches, ManagedPages, TablesOwned, Linked, ForeignKept, StoredBytes, Splice;
      ghost var s := Snapshot();
      ResidentPage(s, nextId, a);
      pmm.SetData(f, Splice(pmm.pages[f].data, a % 4096, bytes));
      StoreStep(s, nextId, Snapshot(), files, a, bytes);
      StoredTables(s, Snapshot(), tables, f);
    }

    // Gets bytes from a resident page.
    method LoadFromPage(f: Pfn, a: nat, target: array<bv8>, k: nat, n: nat, ghost files: Files)
      requires Valid() && PageNumber(a) in ptes && ptes[PageNumber(a)].pfn == f && a % 4096 + n <= 4096
      requires k + n <= target.Length
      modifies target
      ensures FetchedBytes(Snapshot(), files, a, target[k..k + n])
      ensures target[..k] == old(target[..k]) && target[k + n..] == old(target[k + n..])
    {
      hide WellFormed, Owned, FreelistMatches, ManagedPages, TablesOwned, Linked, FetchedBytes;
      ResidentPage(Snapshot(), nextId, a);
      var data := pmm.pages[f].data;
      forall i | 0 <= i < n {
        target[k + i] := data[a % 4096 + i];
      }
      assert target[k..k + n] == data[a % 4096..a % 4096 + n];
      FetchStep(Snapshot(), nextId, files, a, target[k..k + n]);
    }

    /** get_physical_addr: the page at an address, which a page fault brings in if it is not resident. */
    method GetPhysicalAddr(virt: nat, files: Files) returns (result: FaultResult)
      requires Valid()
      modifies this`ptes, this`tables, this`cachedRangeLookup, pmm`pages, pmm`freelist, pmm`totalFreePages
      ensures Valid()
      ensures ForeignKept(id, old(pmm.pages), pmm.pages)
      ensures StoredBytes(old(Snapshot()), Snapshot(), files, virt, [])
      ensures result.Physical? ==> PageNumber(virt) in ptes && ptes[PageNumber(virt)].pfn == result.pfn
      ensures result.BadAddress? ==> View(ranges, virt).None?
      ensures result.OutOfMemory? ==> pmm.freelist == []
    {
      hide WellFormed, Owned, FreelistMatches, ManagedPages, TablesOwned, ForeignKept, ByteAt;
      if PageNumber(virt) in ptes {
        NothingForeign(id, pmm.pages);
        return Physical(ptes[PageNumber(virt)].pfn);
      }
      result := HandlePageFault(virt, files);
    }

    // One round of access_memory: n bytes from offset on in the page at pageVirt.
    method AccessPage(pageVirt: nat, offset: nat, target: array<bv8>, k: nat, n: nat, write: bool, files: Files)
      returns (result: FaultResult)
      requires Valid() && Aligned(pageVirt) && 0 < n && offset + n <= 4096 && k + n <= target.Length
      modifies target
      modifies this`ptes, this`tables, this`cachedRangeLookup, pmm`pages, pmm`freelist, pmm`totalFreePages
      ensures Valid()
      ensures ForeignKept(id, old(pmm.pages), pmm.pages)
      ensures Accessed(old(Snapshot()), Snapshot(), files, pageVirt + offset, old(target[..]), target[..], k,
                       if result.Physical? then n else 0, write)
      ensures result.BadAddress? ==> View(ranges, pageVirt + offset).None?
      ensures result.OutOfMemory? ==> pmm.freelist == []
    {
      hide WellFormed, Owned, FreelistMatches, ManagedPages, TablesOwned, Linked, ForeignKept, StoredBytes, FetchedBytes,
        PageNumber;
      ghost var s, data := Snapshot(), target[..];
      var a := pageVirt + offset;
      InPage(pageVirt, offset);
      result := GetPhysicalAddr(pageVirt, files);
      ghost var t := Snapshot();
      StoredNothing(s, t, files, pageVirt, a);
      FetchedNothing(s, files, a);
      if !result.Physical? {
        assert data[k..k + 0] == [] == target[k..k + 0];
        if result.BadAddress? {
          PageHasOneRange(ranges, nextId, pageVirt, a);
        }
        return;
      }
      if write {
        StoreInPage(result.pfn, a, target[k..k + n], files);
        ForeignKeptTransitive(id, s.pages, t.pages, pmm.pages);
        StoredMore(s, t, Snapshot(), files, a, [], data[k..k + n]);
        assert [] + data[k..k + n] == data[k..k + n];
      } else {
        LoadFromPage(result.pfn, a, target, k, n, files);
        FetchedBefore(s, t, files, a, target[k..k + n]);
      }
    }

    /** access_memory: the first bytes of the request, up to the first address that is not mapped, are
        copied from the target into the address space or the other way round, whether or not their pages
        are resident; no other byte of either changes. */
    method AccessMemory(virt: nat, target: array<bv8>, count: nat, write: bool, files: Files)
      returns (result: AccessResult, ghost copied: nat)
      requires Valid() && count <= target.Length
      modifies target
      modifies this`ptes, this`tables, this`cachedRangeLookup, pmm`pages, pmm`freelist, pmm`totalFreePages
      ensures Valid()
      ensures ForeignKept(id, old(pmm.pages), pmm.pages)
      ensures copied <= count
      ensures Accessed(old(Snapshot()), Snapshot(), files, virt, old(target[..]), target[..], 0, copied, write)
      ensures match result
        case Transferred(n) => n == copied && (copied == count || (0 < copied && View(ranges, virt + copied).None?))
        case EFAULT => copied == 0 < count && View(ranges, virt).None?
        case Panicked => pmm.freelist == []
    {
      hide WellFormed, Owned, FreelistMatches, ManagedPages, TablesOwned, Linked, ForeignKept, Accessed, PageNumber;
      ghost var s0, data := Snapshot(), target[..];
      var start, end := virt, virt + count;
      var pageVirt := PageAddr(PageNumber(start));
      var endPageVirt := PageAddr(PageNumber(end));
      var transferred := 0;
      copied := 0;
      PageOfAddress(start);
      PageOfAddress(end);
      NothingForeign(id, s0.pages);
      NothingAccessed(s0, files, virt, data, write);
      while pageVirt <= endPageVirt
        invariant Aligned(pageVirt) && copied == transferred <= count
        invariant if pageVirt < start then transferred == 0 && start < pageVirt + 4096
          else pageVirt == start + transferred || (transferred == count && endPageVirt < pageVirt)
        invariant Valid()
        invariant ForeignKept(id, s0.pages, pmm.pages)
        invariant Accessed(s0, Snapshot(), files, virt, data, target[..], 0, transferred, write)
        decreases endPageVirt - pageVirt
      {
        var offset := 0;
        var bytesInPage := 4096;
        if pageVirt < start {
          offset := start - pageVirt;
          bytesInPage := bytesInPage - offset;
        }
        if pageVirt + 4096 >= end {
          bytesInPage := bytesInPage - (pageVirt + 4096 - end);
        }
        if bytesInPage == 0 {
          return Transferred(transferred), transferred;
        }
        ghost var s, data1 := Snapshot(), target[..];
        var page := AccessPage(pageVirt, offset, target, transferred, bytesInPage, write, files);
        ForeignKeptTransitive(id, s0.pages, s.pages, pmm.pages);
        AccessedMore(s0, s, Snapshot(), files, virt, data, data1, target[..], transferred,
                     if page.Physical? then bytesInPage else 0, write);
        if page == BadAddress {
          return if transferred == 0 then EFAULT else Transferred(transferred), transferred;
        }
        if page == OutOfMemory {
          return Panicked, transferred;
        }
        transferred := transferred + bytesInPage;
        copied := transferred;
        pageVirt := pageVirt + 4096;
      }
      return Transferred(transferred), transferred;
    }

    /** ~Pagemap: frees every page of the space and every page of its tables, and nothing else. */
    method Destroy()
      requires Valid()
      modifies this`ranges, pmm`pages, pmm`freelist, pmm`totalFreePages
      ensures pmm.Valid()
      ensures pmm.pages == FreedSpace(old(pmm.pages), id)
    {
      hide FreelistMatches, ManagedPages, Owned, TablesOwned, WellFormed, FreedSpace, FreedList, HeldBy;
      ghost var p := pmm.pages;
      HoldersAreListed(Snapshot());
      while ranges != []
        invariant pmm.Valid()
        invariant FreedSpace(pmm.pages, id) == FreedSpace(p, id)
        invariant HeldBy(pmm.pages, id, ranges)
        decreases |ranges|
      {
        FreedListHeld(pmm.pages, id, ranges);
        DestroyRange(0);
      }
      FreedListTables(pmm.pages, id);
      FreeList(OnTables(id));
    }
  }

  // Pages on the page lists of the space stay as they are.
  ghost predicate OwnPagesKept(id: nat, p: map<Pfn, Page>, q: map<Pfn, Page>) {
    forall f :: f in p && OwnLink(id, p[f].link) ==> f in q && q[f] == p[f]
  }

  lemma OwnPagesKeptTransitive(id: nat, p: map<Pfn, Page>, q: map<Pfn, Page>, r: map<Pfn, Page>)
    requires OwnPagesKept(id, p, q) && OwnPagesKept(id, q, r)
    ensures OwnPagesKept(id, p, r)
  {
  }

  lemma OwnPagesStay(s: Space, t: Space)
    requires OwnPagesKept(s.id, s.pages, t.pages)
    ensures forall f :: f in s.pages && OwnLink(s.id, s.pages[f].link) ==> f in t.pages && t.pages[f] == s.pages[f]
  {
  }

  lemma OwnedIsLinked(s: Space)
    requires Owned(s)
    ensures Linked(s)
  {
  }

  lemma SameBytes(s: Space, t: Space, files: Files)
    requires Owned(s) && Owned(t) && t.id == s.id && t.ranges == s.ranges && t.ptes == s.ptes
    requires OwnPagesKept(s.id, s.pages, t.pages)
    ensures forall a: nat :: ByteAt(t, files, a) == ByteAt(s, files, a)
  {
    forall a: nat ensures ByteAt(t, files, a) == ByteAt(s, files, a) {
      if PageNumber(a) in s.ptes {
        assert LinkedEntry(s, PageNumber(a)) && LinkedEntry(t, PageNumber(a));
      }
    }
  }

  // Ranges consist of whole pages.
  lemma PageInsideRange(rs: seq<MappedRange>, nextId: nat, r: MappedRange, virt: nat)
    requires WellFormed(rs, nextId) && View(rs, virt) == Some(r)
    ensures r.base <= PageAddr(PageNumber(virt)) && PageAddr(PageNumber(virt)) + 4096 <= r.End()
    ensures forall a: nat :: PageNumber(a) == PageNumber(virt) ==> View(rs, a) == Some(r)
    ensures View(rs, PageAddr(PageNumber(virt))) == Some(r)
  {
    var i := IndexOf(rs, virt);
    assert Sound(rs[i]);
    forall a: nat | PageNumber(a) == PageNumber(virt) ensures View(rs, a) == Some(r) {
      assert r.Covers(a);
      ViewIsUnique(rs, nextId, i, a);
    }
    assert PageNumber(PageAddr(PageNumber(virt))) == PageNumber(virt);
  }

  lemma ResidentPage(s: Space, nextId: nat, a: nat)
    requires Owned(s) && WellFormed(s.ranges, nextId) && PageNumber(a) in s.ptes
    ensures View(s.ranges, a).Some?
    ensures LinkedEntry(s, PageNumber(a))
  {
    var b := PageAddr(PageNumber(a));
    assert LinkedEntry(s, PageNumber(a)) && OwnedEntry(s, PageNumber(a));
    PageInsideRange(s.ranges, nextId, View(s.ranges, b).value, b);
    assert PageNumber(a) == PageNumber(b);
  }

  // ----- copying into and out of the address space -----

  function Splice(data: PageData, at: nat, bytes: seq<bv8>): PageData
    requires at + |bytes| <= 4096
  {
    data[..at] + bytes + data[at + |bytes|..]
  }

  // The addresses from a on read as these bytes, and all others as before.
  ghost predicate StoredBytes(s: Space, t: Space, files: Files, a: nat, bytes: seq<bv8>) {
    forall b: nat :: ByteAt(t, files, b) == if a <= b < a + |bytes| then Some(bytes[b - a]) else ByteAt(s, files, b)
  }

  // These bytes are what the addresses from a on read as.
  ghost predicate FetchedBytes(s: Space, files: Files, a: nat, bytes: seq<bv8>) {
    forall i :: 0 <= i < |bytes| ==> ByteAt(s, files, a + i) == Some(bytes[i])
  }

  // n bytes were copied between the addresses from a on and the places from k on of a buffer.
  ghost predicate Accessed(s: Space, t: Space, files: Files, a: nat, before: seq<bv8>, after: seq<bv8>, k: nat, n: nat,
                           write: bool)
  {
    && k + n <= |before| == |after|
    && StoredBytes(s, t, files, a, if write then before[k..k + n] else [])
    && (if write then after == before
        else FetchedBytes(s, files, a, after[k..k + n]) && after[..k] == before[..k] && after[k + n..] == before[k + n..])
  }

  lemma StoreStep(s: Space, nextId: nat, t: Space, files: Files, a: nat, bytes: seq<bv8>)
    requires Owned(s) && WellFormed(s.ranges, nextId)
    requires PageNumber(a) in s.ptes && LinkedEntry(s, PageNumber(a)) && a % 4096 + |bytes| <= 4096
    requires var f := s.ptes[PageNumber(a)].pfn;
      t == s.(pages := s.pages[f := s.pages[f].(data := Splice(s.pages[f].data, a % 4096, bytes))])
    ensures Owned(t) && ForeignKept(s.id, s.pages, t.pages)
    ensures StoredBytes(s, t, files, a, bytes)
  {
    hide WellFormed, Owned, Splice;
    StoreOwned(s, t, s.ptes[PageNumber(a)].pfn);
    forall b: nat
      ensures ByteAt(t, files, b) == if a <= b < a + |bytes| then Some(bytes[b - a]) else ByteAt(s, files, b)
    {
      StoredByte(s, nextId, t, files, a, bytes, b);
    }
  }

  lemma StoreOwned(s: Space, t: Space, f: Pfn)
    requires Owned(s) && f in s.pages && OwnLink(s.id, s.pages[f].link)
    requires f in t.pages && t == s.(pages := s.pages[f := s.pages[f].(data := t.pages[f].data)])
    ensures Owned(t) && ForeignKept(s.id, s.pages, t.pages)
  {
    forall v | v in t.ptes ensures LinkedEntry(t, v) && OwnedEntry(t, v) {
      assert LinkedEntry(s, v) && OwnedEntry(s, v);
    }
    forall g | g in t.pages && OwnLink(t.id, t.pages[g].link) ensures LinkedPage(t, g) {
      assert LinkedPage(s, g);
    }
  }

  lemma StoredByte(s: Space, nextId: nat, t: Space, files: Files, a: nat, bytes: seq<bv8>, b: nat)
    requires Owned(s) && WellFormed(s.ranges, nextId)
    requires PageNumber(a) in s.ptes && LinkedEntry(s, PageNumber(a)) && a % 4096 + |bytes| <= 4096
    requires var f := s.ptes[PageNumber(a)].pfn;
      t == s.(pages := s.pages[f := s.pages[f].(data := Splice(s.pages[f].data, a % 4096, bytes))])
    ensures ByteAt(t, files, b) == if a <= b < a + |bytes| then Some(bytes[b - a]) else ByteAt(s, files, b)
  {
    hide WellFormed, Splice, PageNumber, View, LinkedPage, OwnedEntry, ZeroPage;
    SamePage(a, |bytes|, b);
    if PageNumber(b) in s.ptes {
      ResidentPage(s, nextId, b);
      var f := s.ptes[PageNumber(a)].pfn;
      if s.ptes[PageNumber(b)].pfn == f {
        PagesAreNotAliased(s, PageNumber(a), PageNumber(b));
        SplicedByte(s.pages[f].data, a % 4096, bytes, b % 4096);
      }
    }
  }

  // Two addresses in one page are as far apart as their offsets.
  lemma SamePage(a: nat, n: nat, b: nat)
    requires a % 4096 + n <= 4096
    ensures PageNumber(a) == PageNumber(b) ==> b - a == b % 4096 - a % 4096
    ensures PageNumber(a) != PageNumber(b) ==> !(a <= b < a + n)
    ensures 0 <= b % 4096 < 4096
  {
    assert a == PageNumber(a) * 4096 + a % 4096 && b == PageNumber(b) * 4096 + b % 4096;
  }

  lemma SplicedByte(data: PageData, at: nat, bytes: seq<bv8>, i: nat)
    requires at + |bytes| <= 4096 && i < 4096
    ensures Splice(data, at, bytes)[i] == if at <= i < at + |bytes| then bytes[i - at] else data[i]
  {
  }

  lemma FetchStep(s: Space, nextId: nat, files: Files, a: nat, bytes: seq<bv8>)
    requires Owned(s) && WellFormed(s.ranges, nextId)
    requires PageNumber(a) in s.ptes && LinkedEntry(s, PageNumber(a)) && a % 4096 + |bytes| <= 4096
    requires bytes == s.pages[s.ptes[PageNumber(a)].pfn].data[a % 4096..a % 4096 + |bytes|]
    ensures FetchedBytes(s, files, a, bytes)
  {
    hide WellFormed, Owned, View, PageNumber;
    forall i | 0 <= i < |bytes| ensures ByteAt(s, files, a + i) == Some(bytes[i]) {
      SamePage(a, |bytes|, a + i);
      ResidentPage(s, nextId, a + i);
    }
  }

  lemma StoredNothing(s: Space, t: Space, files: Files, a: nat, b: nat)
    requires StoredBytes(s, t, files, a, [])
    ensures StoredBytes(s, t, files, b, [])
  {
  }

  lemma FetchedNothing(s: Space, files: Files, a: nat)
    ensures FetchedBytes(s, files, a, [])
  {
  }

  lemma StoredMore(s: Space, t: Space, u: Space, files: Files, a: nat, x: seq<bv8>, y: seq<bv8>)
    requires StoredBytes(s, t, files, a, x) && StoredBytes(t, u, files, a + |x|, y)
    ensures StoredBytes(s, u, files, a, x + y)
  {
  }

  // What is read after the page was brought in is what was there before.
  lemma FetchedBefore(s: Space, t: Space, files: Files, a: nat, bytes: seq<bv8>)
    requires StoredBytes(s, t, files, a, []) && FetchedBytes(t, files, a, bytes)
    ensures FetchedBytes(s, files, a, bytes)
  {
  }

  lemma FetchedMore(s: Space, files: Files, a: nat, x: seq<bv8>, y: seq<bv8>)
    requires FetchedBytes(s, files, a, x) && FetchedBytes(s, files, a + |x|, y)
    ensures FetchedBytes(s, files, a, x + y)
  {
    forall i | 0 <= i < |x + y| ensures ByteAt(s, files, a + i) == Some((x + y)[i]) {
      if i >= |x| {
        assert ByteAt(s, files, a + |x| + (i - |x|)) == Some(y[i - |x|]);
      }
    }
  }

  lemma NothingAccessed(s: Space, files: Files, a: nat, data: seq<bv8>, write: bool)
    ensures Accessed(s, s, files, a, data, data, 0, 0, write)
  {
    assert data[0..0] == [];
  }

  lemma AccessedMore(s: Space, t: Space, u: Space, files: Files, a: nat, x: seq<bv8>, y: seq<bv8>, z: seq<bv8>,
                     k: nat, n: nat, write: bool)
    requires Accessed(s, t, files, a, x, y, 0, k, write) && Accessed(t, u, files, a + k, y, z, k, n, write)
    ensures Accessed(s, u, files, a, x, z, 0, k + n, write)
  {
    hide StoredBytes, FetchedBytes;
    if write {
      assert x[0..k] + x[k..k + n] == x[0..k + n];
      StoredMore(s, t, u, files, a, x[0..k], x[k..k + n]);
    } else {
      StoredNothing(t, u, files, a + k, a);
      StoredMore(s, t, u, files, a, [], []);
      StoredNothing(s, t, files, a, a + k);
      FetchedBefore(s, t, files, a + k, z[k..k + n]);
      assert z[0..k] == z[..k] == y[..k] == y[0..k];
      FetchedMore(s, files, a, z[0..k], z[k..k + n]);
      assert z[0..k] + z[k..k + n] == z[0..k + n];
      assert z[k + n..] == y[k + n..] == y[k..][n..] == x[k..][n..] == x[k + n..];
    }
  }

  lemma InPage(pageVirt: nat, offset: nat)
    requires Aligned(pageVirt) && offset < 4096
    ensures PageNumber(pageVirt + offset) == PageNumber(pageVirt) && (pageVirt + offset) % 4096 == offset
  {
  }

  lemma PageOfAddress(a: nat)
    ensures Aligned(PageAddr(PageNumber(a))) && PageAddr(PageNumber(a)) <= a < PageAddr(PageNumber(a)) + 4096
  {
  }

  lemma PageHasOneRange(rs: seq<MappedRange>, nextId: nat, a: nat, b: nat)
    requires WellFormed(rs, nextId) && PageNumber(a) == PageNumber(b)
    ensures View(rs, a) == View(rs, b)
  {
    if View(rs, a).Some? {
      PageInsideRange(rs, nextId, View(rs, a).value, a);
    } else if View(rs, b).Some? {
      PageInsideRange(rs, nextId, View(rs, b).value, b);
    }
  }

  lemma StoredTables(s: Space, t: Space, tables: map<TableKey, Pfn>, f: Pfn)
    requires TablesOwned(s.id, tables, s.ptes, s.pages) && t.ptes == s.ptes
    requires t.pages.Keys == s.pages.Keys && (forall g :: g in s.pages ==> t.pages[g].link == s.pages[g].link)
    ensures TablesOwned(s.id, tables, t.ptes, t.pages)
  {
    TablesKept(s.id, tables, s.ptes, s.pages, t.ptes, t.pages);
  }

  // What the destruction of a space does to the page structs.
  ghost function FreedSpace(pages: map<Pfn, Page>, id: nat): map<Pfn, Page> {
    map f | f in pages ::
      if OwnLink(id, pages[f].link) || pages[f].link == OnTables(id) then
        pages[f].(free := true, mappedAddr := 0, link := OnFreelist)
      else pages[f]
  }

  // Every page on a page list of the space is on that of one of these ranges.
  ghost predicate HeldBy(pages: map<Pfn, Page>, id: nat, rs: seq<MappedRange>) {
    forall f :: f in pages && OwnLink(id, pages[f].link) ==>
      exists i :: 0 <= i < |rs| && pages[f].link.range == rs[i].id
  }

  lemma HoldersAreListed(s: Space)
    requires Owned(s)
    ensures HeldBy(s.pages, s.id, s.ranges)
  {
    forall f | f in s.pages && OwnLink(s.id, s.pages[f].link)
      ensures exists i :: 0 <= i < |s.ranges| && s.pages[f].link.range == s.ranges[i].id
    {
      assert LinkedPage(s, f);
      var v := PageNumber(s.pages[f].mappedAddr);
      assert LinkedEntry(s, v) && OwnedEntry(s, v);
      assert s.ranges[IndexOf(s.ranges, PageAddr(v))].id == s.pages[f].link.range;
    }
  }

  lemma FreedListHeld(pages: map<Pfn, Page>, id: nat, rs: seq<MappedRange>)
    requires rs != [] && HeldBy(pages, id, rs)
    ensures var q := FreedList(pages, OnRange(id, rs[0].id));
      FreedSpace(q, id) == FreedSpace(pages, id) && HeldBy(q, id, RemoveAt(rs, 0))
  {
    var q := FreedList(pages, OnRange(id, rs[0].id));
    forall f | f in q && OwnLink(id, q[f].link)
      ensures exists i :: 0 <= i < |RemoveAt(rs, 0)| && q[f].link.range == RemoveAt(rs, 0)[i].id
    {
      var i :| 0 <= i < |rs| && pages[f].link.range == rs[i].id;
      assert RemoveAt(rs, 0)[i - 1] == rs[i];
    }
  }

  lemma FreedListTables(pages: map<Pfn, Page>, id: nat)
    requires HeldBy(pages, id, [])
    ensures FreedList(pages, OnTables(id)) == FreedSpace(pages, id)
  {
  }

  lemma TookPageOwnKept(id: nat, p: map<Pfn, Page>, q: map<Pfn, Page>, f: Pfn, page: Page)
    requires TookPage(p, q, f, page)
    ensures OwnPagesKept(id, p, q)
  {
  }

  lemma NoPathNoEntry(id: nat, tables: map<TableKey, Pfn>, ptes: map<nat, Pte>, pages: map<Pfn, Page>, v: nat)
    requires TablesOwned(id, tables, ptes, pages) && !HasPath(tables, v)
    ensures v !in ptes
  {
  }

  lemma TookPageTables(id: nat, tables: map<TableKey, Pfn>, ptes: map<nat, Pte>, p: map<Pfn, Page>,
                       ptes': map<nat, Pte>, q: map<Pfn, Page>, f: Pfn, page: Page)
    requires TablesOwned(id, tables, ptes, p) && TookPage(p, q, f, page) && page.link != OnTables(id)
    requires forall v :: v in ptes' ==> v in ptes || HasPath(tables, v)
    ensures TablesOwned(id, tables, ptes', q)
  {
    TablesKept(id, tables, ptes, p, ptes', q);
  }

  lemma NothingForeign(id: nat, p: map<Pfn, Page>)
    ensures ForeignKept(id, p, p) && OwnPagesKept(id, p, p)
  {
  }

  lemma FreePageIsOnFreelist(pages: map<Pfn, Page>, freelist: seq<Pfn>, f: Pfn)
    requires FreelistMatches(freelist, pages) && f in pages && pages[f].free
    ensures pages[f].link == OnFreelist
  {
  }

  function FindById(rs: seq<MappedRange>, rangeId: nat): Option<MappedRange> {
    if rs == [] then None else if rs[0].id == rangeId then Some(rs[0]) else FindById(rs[1..], rangeId)
  }

  lemma {:induction false} FoundById(rs: seq<MappedRange>, rangeId: nat)
    requires exists i :: 0 <= i < |rs| && rs[i].id == rangeId
    ensures FindById(rs, rangeId).Some? && FindById(rs, rangeId).value in rs
  {
    if rs[0].id != rangeId {
      var i :| 0 <= i < |rs| && rs[i].id == rangeId;
      assert rs[1..][i - 1].id == rangeId;
      FoundById(rs[1..], rangeId);
    }
  }

  lemma AddedRangeTables(s0: Space, u: Space, req: Request, tables: map<TableKey, Pfn>)
    requires AddedRange(s0, u, req) && TablesOwned(s0.id, tables, s0.ptes, s0.pages)
    ensures TablesOwned(u.id, tables, u.ptes, u.pages)
  {
    hide Owned, WellFormed;
    forall f | f in s0.pages
      ensures u.pages[f].link == OnTables(u.id) <==> s0.pages[f].link == OnTables(u.id)
    {
      assert PageKept(u.id, s0.pages[f], u.pages[f]);
    }
    TablesKept(s0.id, tables, s0.ptes, s0.pages, u.ptes, u.pages);
  }

  ghost function FreedList(pages: map<Pfn, Page>, list: Link): map<Pfn, Page> {
    map f | f in pages ::
      if pages[f].link == list then pages[f].(free := true, mappedAddr := 0, link := OnFreelist) else pages[f]
  }

  lemma FreedListStep(pages: map<Pfn, Page>, list: Link, f: Pfn)
    requires f in pages && pages[f].link == list && list != OnFreelist
    ensures var q := pages[f := pages[f].(free := true, mappedAddr := 0, link := OnFreelist)];
      && FreedList(q, list) == FreedList(pages, list)
      && PageList(q, list) == PageList(pages, list) - {f}
  {
  }

  lemma FreedListDone(pages: map<Pfn, Page>, list: Link)
    requires PageList(pages, list) == {}
    ensures FreedList(pages, list) == pages
  {
    forall f | f in pages ensures pages[f].link != list {
      assert f !in PageList(pages, list);
    }
  }

  lemma FreePagesAreOnTheFreelist(pmm: PageAllocator, f: Pfn)
    requires pmm.Valid() && f in pmm.pages && pmm.pages[f].link != OnFreelist
    ensures !pmm.pages[f].free
  {
  }

  lemma NoOverlapPrefix(rs: seq<MappedRange>, ts: seq<MappedRange>, i: nat, base: nat, end: nat)
    requires i < |rs| && i < |ts| && ts[..i] == rs[..i]
    requires NoOverlap(rs[..i], base, end) && !Overlaps(ts[i], base, end)
    ensures NoOverlap(ts[..i + 1], base, end)
  {
    assert ts[..i + 1] == rs[..i] + [ts[i]];
  }

  lemma FreedEmptyList(pages: map<Pfn, Page>, list: Link)
    requires forall f :: f in pages ==> pages[f].link != list
    ensures FreedList(pages, list) == pages
  {
  }

  // Neither part of a split range overlaps the request, and the loop over the list steps past both
  // that come before its next element.
  lemma SplitPrefix(rs: seq<MappedRange>, req: Request, i: nat, k: nat, id: nat)
    requires i < |rs| && k <= |rs| && req.Splits(rs[i]) && req.base <= req.End()
    requires NoOverlap(rs[..i], req.base, req.End())
    ensures var ts := InsertAt(rs[i := LeftPart(rs[i], req)], k, RightPart(rs[i], req, id));
      && NoOverlap(ts[..if k <= i + 1 then i + 2 else i + 1], req.base, req.End())
      && CountOverlaps(ts, req.base, req.End()) + 1 == CountOverlaps(rs, req.base, req.End())
  {
    var r1, r2 := LeftPart(rs[i], req), RightPart(rs[i], req, id);
    var cut := rs[i := r1];
    var ts := InsertAt(cut, k, r2);
    var next := if k <= i + 1 then i + 2 else i + 1;
    CountReplace(rs, i, r1, req.base, req.End());
    CountInsert(cut, k, r2, req.base, req.End());
    forall j | 0 <= j < next ensures !Overlaps(ts[j], req.base, req.End()) {
      if j == k {
        assert ts[j] == r2;
      } else {
        var l := if j < k then j else j - 1;
        assert ts[j] == cut[l] && l <= i;
        assert l < i ==> cut[l] == rs[..i][l];
      }
    }
  }
}
