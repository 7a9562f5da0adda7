/**
 Pagemap::fork (kernel/kernel/src/mem/vmm.cpp): copying an address space.
 */
module Fork {

  import opened Lists
  import opened PhysicalMemory
  import opened RangeList
  import opened FrameOwnership
  import opened MemoryMeaning
  import opened AddressSpace

  // Address a means the same in the copy, except that the copy counts file offsets from the current base.
  ghost predicate CopiedAt(e: Option<MappedRange>, r: Option<MappedRange>, a: nat) {
    && (e.None? <==> r.None?)
    && (e.Some? ==>
          && r.value.base == e.value.base && r.value.length == e.value.length
          && r.value.kind == e.value.kind && r.value.flags == e.value.flags && r.value.file == e.value.file
          && r.value.BackingOffset(a) == a - e.value.base + e.value.fileOffset)
  }

  ghost predicate CopiedRanges(ps: seq<MappedRange>, cs: seq<MappedRange>) {
    forall a: nat :: CopiedAt(View(ps, a), View(cs, a), a)
  }

  // The copy has exactly the resident pages of the ranges ps, apart from those still to do, with the
  // same contents and protection.
  ghost predicate CopiedPages(p: Space, c: Space, ps: seq<MappedRange>, todo: set<Pfn>) {
    && (forall v :: v in c.ptes <==> v in p.ptes && View(ps, PageAddr(v)).Some? && p.ptes[v].pfn !in todo)
    && (forall v :: v in c.ptes ==> CopiedEntry(p, c, v))
  }

  ghost predicate CopiedEntry(p: Space, c: Space, v: nat) {
    && v in c.ptes && v in p.ptes
    && c.ptes[v].flags == p.ptes[v].flags
    && c.ptes[v].pfn in c.pages && p.ptes[v].pfn in p.pages
    && c.pages[c.ptes[v].pfn].data == p.pages[p.ptes[v].pfn].data
  }

  /** What fork promises. */
  ghost predicate Forked(p: Space, c: Space) {
    CopiedRanges(p.ranges, c.ranges) && CopiedPages(p, c, p.ranges, {})
  }

  ghost predicate Unused(id: nat, pages: map<Pfn, Page>) {
    forall f :: f in pages ==> !OwnLink(id, pages[f].link) && pages[f].link != OnTables(id)
  }

  /** The child reads the same byte as the parent at every address that is not mapped, is anonymous
      memory, resident or not, or is resident. */
  lemma ForkCopiesMemory(p: Space, c: Space, files: Files, a: nat)
    requires Owned(p) && Owned(c) && Forked(p, c) && WellFormed(p.ranges, p.nextId)
    ensures View(p.ranges, a).None? ==> ByteAt(c, files, a) == ByteAt(p, files, a) == None
    ensures View(p.ranges, a).Some? && View(p.ranges, a).value.kind == ANONYMOUS ==>
      ByteAt(c, files, a) == ByteAt(p, files, a)
    ensures PageNumber(a) in p.ptes ==> ByteAt(c, files, a) == ByteAt(p, files, a)
    ensures View(p.ranges, a).Some? && View(p.ranges, a).value.kind == FILE && PageNumber(a) !in p.ptes ==>
      var e := View(p.ranges, a).value;
      && e.file.Some?
      && ByteAt(p, files, a) == Some(files(e.file.value, a - e.originalBase + e.fileOffset))
      && ByteAt(c, files, a) == Some(files(e.file.value, a - e.base + e.fileOffset))
  {
    assert CopiedAt(View(p.ranges, a), View(c.ranges, a), a);
    var v := PageNumber(a);
    if View(p.ranges, a).Some? {
      RangeIsSound(p.ranges, p.nextId, IndexOf(p.ranges, a));
      PageInsideRange(p.ranges, p.nextId, View(p.ranges, a).value, a);
    }
    if v in p.ptes {
      assert LinkedEntry(p, v) && OwnedEntry(p, v);
      if View(p.ranges, a).None? {
        PageHasOneView(p.ranges, p.nextId, a);
      }
      assert v in c.ptes && CopiedEntry(p, c, v);
    } else {
      assert v !in c.ptes;
    }
  }

  /** At an address of a file mapping that is not resident, the child reads the same byte as the parent
      whatever the file contains if and only if the range was never trimmed at the front. */
  lemma ForkKeepsFileBytesIff(p: Space, c: Space, a: nat)
    requires Owned(p) && Owned(c) && Forked(p, c) && WellFormed(p.ranges, p.nextId)
    requires View(p.ranges, a).Some? && View(p.ranges, a).value.kind == FILE && PageNumber(a) !in p.ptes
    ensures (forall files: Files :: ByteAt(c, files, a) == ByteAt(p, files, a)) <==>
      View(p.ranges, a).value.base == View(p.ranges, a).value.originalBase
  {
    var e := View(p.ranges, a).value;
    forall files: Files | e.base == e.originalBase ensures ByteAt(c, files, a) == ByteAt(p, files, a) {
      ForkCopiesMemory(p, c, files, a);
    }
    if e.base != e.originalBase {
      var files: Files := (file: nat, offset: int) => if offset == a - e.base + e.fileOffset then 1 else 0;
      ForkCopiesMemory(p, c, files, a);
      assert ByteAt(c, files, a) != ByteAt(p, files, a);
    }
  }

  lemma PageHasOneView(rs: seq<MappedRange>, nextId: nat, a: nat)
    requires WellFormed(rs, nextId)
    ensures View(rs, a).None? ==> View(rs, PageAddr(PageNumber(a))).None?
  {
    var b := PageAddr(PageNumber(a));
    if View(rs, b).Some? {
      PageInsideRange(rs, nextId, View(rs, b).value, b);
      assert PageNumber(a) == PageNumber(b);
    }
  }

  // ----- one more range -----

  lemma PrefixView(rs: seq<MappedRange>, nextId: nat, i: nat, a: nat)
    requires WellFormed(rs, nextId) && i < |rs|
    ensures View(rs[..i + 1], a) == if rs[i].Covers(a) then Some(rs[i]) else View(rs[..i], a)
    ensures rs[i].Covers(a) ==> View(rs[..i], a).None?
  {
    var k, l := IndexOf(rs[..i], a), IndexOf(rs[..i + 1], a);
    assert forall j :: 0 <= j < i ==> rs[..i][j] == rs[j] && rs[..i + 1][j] == rs[j];
    assert rs[..i + 1][i] == rs[i];
    if k < i {
      assert Apart(rs[k], rs[i]);
    }
  }

  lemma CopyHasRoom(rs: seq<MappedRange>, nextId: nat, cs: seq<MappedRange>, i: nat)
    requires WellFormed(rs, nextId) && i < |rs| && CopiedRanges(rs[..i], cs)
    requires forall j :: 0 <= j < |cs| ==> Sound(cs[j])
    ensures NoOverlap(cs, rs[i].base, rs[i].End())
  {
    var e := rs[i];
    forall j | 0 <= j < |cs| ensures !Overlaps(cs[j], e.base, e.End()) {
      var a := if cs[j].base < e.base then e.base else cs[j].base;
      PrefixView(rs, nextId, i, a);
      assert CopiedAt(View(rs[..i], a), View(cs, a), a);
      assert Overlaps(cs[j], e.base, e.End()) ==> e.Covers(a) && cs[j].Covers(a);
    }
  }

  lemma CopyRange(rs: seq<MappedRange>, nextId: nat, cs: seq<MappedRange>, childNext: nat, i: nat, k: nat, r: MappedRange)
    requires WellFormed(rs, nextId) && i < |rs| && CopiedRanges(rs[..i], cs)
    requires WellFormed(cs, childNext) && k <= |cs|
    requires var e := rs[i];
      r == MappedRange(childNext, e.base, e.base, e.length, e.flags, e.kind, e.file, e.fileOffset)
    ensures NoOverlap(cs, r.base, r.End()) && Sound(r)
    ensures WellFormed(InsertAt(cs, k, r), childNext + 1)
    ensures CopiedRanges(rs[..i + 1], InsertAt(cs, k, r))
    ensures forall a: nat :: rs[i].Covers(a) ==> View(InsertAt(cs, k, r), a) == Some(r)
  {
    CopyHasRoom(rs, nextId, cs, i);
    InsertView(cs, childNext, k, r);
    var ds := InsertAt(cs, k, r);
    forall a: nat ensures CopiedAt(View(rs[..i + 1], a), View(ds, a), a) {
      PrefixView(rs, nextId, i, a);
      assert CopiedAt(View(rs[..i], a), View(cs, a), a);
    }
  }

  // A new range where nothing is mapped changes nothing about the pages of the others.
  lemma InsertKeepsOwned(s: Space, t: Space, k: nat, r: MappedRange)
    requires Owned(s) && WellFormed(s.ranges, s.nextId) && k <= |s.ranges|
    requires Sound(r) && r.id == s.nextId && NoOverlap(s.ranges, r.base, r.End())
    requires t == s.(ranges := InsertAt(s.ranges, k, r), nextId := s.nextId + 1)
    ensures Owned(t)
  {
    InsertView(s.ranges, s.nextId, k, r);
    LinkedIgnoresRanges(s, t);
    NoOverlapView(s.ranges, r.base, r.End());
    forall v | v in t.ptes ensures LinkedEntry(t, v) && OwnedEntry(t, v) {
      assert LinkedEntry(s, v) && OwnedEntry(s, v);
    }
  }

  // The pages still to copy for range i are the ones on its page list.
  lemma CopiedPagesNextRange(p: Space, c: Space, d: Space, i: nat)
    requires Owned(p) && WellFormed(p.ranges, p.nextId) && i < |p.ranges|
    requires CopiedPages(p, c, p.ranges[..i], {})
    requires d.ptes == c.ptes && d.pages == c.pages
    ensures CopiedPages(p, d, p.ranges[..i + 1], PageList(p.pages, OnRange(p.id, p.ranges[i].id)))
  {
    var todo := PageList(p.pages, OnRange(p.id, p.ranges[i].id));
    forall v
      ensures v in d.ptes <==> v in p.ptes && View(p.ranges[..i + 1], PageAddr(v)).Some? && p.ptes[v].pfn !in todo
    {
      if v in p.ptes {
        assert LinkedEntry(p, v) && OwnedEntry(p, v);
        PrefixView(p.ranges, p.nextId, i, PageAddr(v));
        PrefixHolder(p, i, v);
      }
    }
    forall v | v in d.ptes ensures CopiedEntry(p, d, v) {
      assert CopiedEntry(p, c, v);
    }
  }

  lemma PrefixHolder(p: Space, i: nat, v: nat)
    requires WellFormed(p.ranges, p.nextId) && i < |p.ranges|
    requires v in p.ptes && LinkedEntry(p, v) && OwnedEntry(p, v)
    ensures p.ptes[v].pfn in PageList(p.pages, OnRange(p.id, p.ranges[i].id)) <==> p.ranges[i].Covers(PageAddr(v))
  {
    var k := IndexOf(p.ranges, PageAddr(v));
    if p.ranges[i].Covers(PageAddr(v)) {
      ViewIsUnique(p.ranges, p.nextId, i, PageAddr(v));
    }
  }

  lemma CopiedPagesAll(p: Space, c: Space)
    requires CopiedPages(p, c, p.ranges[..|p.ranges|], {})
    ensures CopiedPages(p, c, p.ranges, {})
  {
    assert p.ranges[..|p.ranges|] == p.ranges;
  }

  // One more page.
  lemma CopiedPagesStep(p: Space, c: Space, d: Space, ps: seq<MappedRange>, todo: set<Pfn>, v: nat, f: Pfn)
    requires Linked(p) && CopiedPages(p, c, ps, todo)
    requires v in p.ptes && p.ptes[v].pfn in todo && View(ps, PageAddr(v)).Some?
    requires d.ptes == c.ptes[v := Pte(f, p.ptes[v].flags)]
    requires f in d.pages && p.ptes[v].pfn in p.pages && d.pages[f].data == p.pages[p.ptes[v].pfn].data
    requires forall w :: w in c.ptes ==>
      c.ptes[w].pfn in c.pages && c.ptes[w].pfn in d.pages && d.pages[c.ptes[w].pfn] == c.pages[c.ptes[w].pfn]
    ensures CopiedPages(p, d, ps, todo - {p.ptes[v].pfn})
  {
    forall w | w in p.ptes && w != v ensures p.ptes[w].pfn != p.ptes[v].pfn {
      assert LinkedEntry(p, w) && LinkedEntry(p, v);
    }
    forall w | w in d.ptes ensures CopiedEntry(p, d, w) {
      assert w != v ==> CopiedEntry(p, c, w);
    }
  }

  // ----- the operation -----

  // Gives the child one table for every table of the parent; false is the panic of an empty freelist.
  method CopyTables(space: Pagemap, forked: Pagemap) returns (ok: bool)
    requires forked.Valid() && forked.pmm == space.pmm && forked != space
    requires forked.tables.Keys == {TableKey(4, 0)}
    modifies forked`tables, forked.pmm`pages, forked.pmm`freelist, forked.pmm`totalFreePages
    ensures forked.Valid()
    ensures ForeignKept(forked.id, old(forked.pmm.pages), forked.pmm.pages)
    ensures ok ==> forked.tables.Keys == space.tables.Keys + {TableKey(4, 0)}
    ensures !ok ==> forked.pmm.freelist == []
  {
    hide WellFormed, Owned, TablesOwned, ForeignKept, OwnPagesKept, FreelistMatches, ManagedPages;
    ghost var p := forked.pmm.pages;
    NothingForeign(forked.id, p);
    var todo := space.tables.Keys - {TableKey(4, 0)};
    while todo != {}
      invariant forked.Valid()
      invariant ForeignKept(forked.id, p, forked.pmm.pages)
      invariant todo !! forked.tables.Keys
      invariant forked.tables.Keys + todo == space.tables.Keys + {TableKey(4, 0)}
      decreases todo
    {
      var k :| k in todo;
      ghost var q := forked.pmm.pages;
      ok := forked.AllocTable(k);
      ForeignKeptTransitive(forked.id, p, q, forked.pmm.pages);
      if !ok {
        return;
      }
      todo := todo - {k};
    }
    return true;
  }

  // The pages on a page list of another space are the same as before.
  lemma ForeignListKept(id: nat, p: map<Pfn, Page>, q: map<Pfn, Page>, owner: nat, range: nat)
    requires ForeignKept(id, p, q) && owner != id
    ensures PageList(q, OnRange(owner, range)) == PageList(p, OnRange(owner, range))
    ensures forall f :: f in PageList(p, OnRange(owner, range)) ==> f in q && q[f] == p[f]
  {
    forall f | f in p ensures ForeignPageKept(id, p[f], q[f]) {
    }
  }

  // A page on the page list of range i.
  lemma ListedPage(p: Space, i: nat, f: Pfn)
    requires Owned(p) && WellFormed(p.ranges, p.nextId) && i < |p.ranges|
    requires f in PageList(p.pages, OnRange(p.id, p.ranges[i].id))
    ensures var v := PageNumber(p.pages[f].mappedAddr);
      v in p.ptes && p.ptes[v].pfn == f && p.ranges[i].Covers(PageAddr(v)) && p.ptes[v].flags == p.ranges[i].flags
      && View(p.ranges[..i + 1], PageAddr(v)).Some?
  {
    assert LinkedPage(p, f);
    var v := PageNumber(p.pages[f].mappedAddr);
    assert LinkedEntry(p, v) && OwnedEntry(p, v);
    PrefixHolder(p, i, v);
    PrefixView(p.ranges, p.nextId, i, PageAddr(v));
    ViewIsUnique(p.ranges, p.nextId, i, PageAddr(v));
  }

  lemma OwnedPagesStay(c: Space, q: map<Pfn, Page>)
    requires Owned(c) && OwnPagesKept(c.id, c.pages, q)
    ensures forall w :: w in c.ptes ==>
      c.ptes[w].pfn in c.pages && c.ptes[w].pfn in q && q[c.ptes[w].pfn] == c.pages[c.ptes[w].pfn]
  {
    forall w | w in c.ptes
      ensures c.ptes[w].pfn in c.pages && c.ptes[w].pfn in q && q[c.ptes[w].pfn] == c.pages[c.ptes[w].pfn]
    {
      assert LinkedEntry(c, w);
    }
  }

  // The copy of range i: allocates a page for every page on its page list and copies the contents.
  method CopyPages(space: Pagemap, forked: Pagemap, i: nat, newRange: MappedRange, ghost p: Space) returns (ok: bool)
    requires forked != space && forked.pmm == space.pmm && forked.id != space.id
    requires forked.Valid() && i < |space.ranges|
    requires p.id == space.id && p.ranges == space.ranges && p.ptes == space.ptes
    requires Owned(p) && WellFormed(p.ranges, p.nextId) && ForeignKept(forked.id, p.pages, forked.pmm.pages)
    requires CopiedPages(p, forked.Snapshot(), p.ranges[..i + 1], PageList(p.pages, OnRange(p.id, p.ranges[i].id)))
    requires newRange.flags == p.ranges[i].flags
    requires forall a: nat :: p.ranges[i].Covers(a) ==> View(forked.ranges, a) == Some(newRange)
    requires forall v :: v in p.ptes ==> HasPath(forked.tables, v)
    modifies forked`ptes, forked.pmm`pages, forked.pmm`freelist, forked.pmm`totalFreePages
    ensures forked.Valid()
    ensures ForeignKept(forked.id, p.pages, forked.pmm.pages)
    ensures ok ==> CopiedPages(p, forked.Snapshot(), p.ranges[..i + 1], {})
    ensures !ok ==> forked.pmm.freelist == []
  {
    hide WellFormed, Owned, Linked, TablesOwned, ForeignKept, OwnPagesKept, FreelistMatches, ManagedPages, CopiedPages,
      HasPath;
    ForeignListKept(forked.id, p.pages, forked.pmm.pages, space.id, space.ranges[i].id);
    var todo := PageList(space.pmm.pages, OnRange(space.id, space.ranges[i].id));
    while todo != {}
      invariant forked.Valid()
      invariant ForeignKept(forked.id, p.pages, forked.pmm.pages)
      invariant todo <= PageList(p.pages, OnRange(p.id, p.ranges[i].id))
      invariant CopiedPages(p, forked.Snapshot(), p.ranges[..i + 1], todo)
      decreases todo
    {
      var oldPage :| oldPage in todo;
      ListedPage(p, i, oldPage);
      ForeignListKept(forked.id, p.pages, forked.pmm.pages, space.id, space.ranges[i].id);
      var v := PageNumber(space.pmm.pages[oldPage].mappedAddr);
      ghost var c := forked.Snapshot();
      StillToCopy(p, c, p.ranges[..i + 1], todo, v);
      var newPage := forked.AddPage(v, newRange, newRange.id, newRange.flags, space.pmm.pages[oldPage].data);
      ForeignKeptTransitive(forked.id, p.pages, c.pages, forked.pmm.pages);
      if newPage == None {
        return false;
      }
      OwnedPagesStay(c, forked.pmm.pages);
      OwnedIsLinked(p);
      CopiedPagesStep(p, c, forked.Snapshot(), p.ranges[..i + 1], todo, v, newPage.value);
      todo := todo - {oldPage};
    }
    return true;
  }

  lemma StillToCopy(p: Space, c: Space, ps: seq<MappedRange>, todo: set<Pfn>, v: nat)
    requires CopiedPages(p, c, ps, todo) && v in p.ptes && p.ptes[v].pfn in todo
    ensures v !in c.ptes
  {
  }

  // add_range without merging and without resolving overlaps, for the copy of range i.
  method CopyOneRange(space: Pagemap, forked: Pagemap, i: nat, ghost p: Space) returns (newRange: MappedRange)
    requires forked != space && forked.pmm == space.pmm
    requires forked.Valid() && i < |space.ranges|
    requires p.id == space.id && p.ranges == space.ranges && Owned(p) && WellFormed(p.ranges, p.nextId)
    requires CopiedRanges(p.ranges[..i], forked.ranges)
    requires CopiedPages(p, forked.Snapshot(), p.ranges[..i], {})
    modifies forked`ranges, forked`nextId, forked`cachedRangeLookup
    ensures forked.Valid()
    ensures CopiedRanges(p.ranges[..i + 1], forked.ranges)
    ensures CopiedPages(p, forked.Snapshot(), p.ranges[..i + 1], PageList(p.pages, OnRange(p.id, p.ranges[i].id)))
    ensures newRange.flags == p.ranges[i].flags
    ensures forall a: nat :: p.ranges[i].Covers(a) ==> View(forked.ranges, a) == Some(newRange)
  {
    hide WellFormed, Owned, TablesOwned, FreelistMatches, ManagedPages, CopiedPages, CopiedRanges;
    ghost var c := forked.Snapshot();
    var oldRange := space.ranges[i];
    var k := forked.InsertRange(oldRange.base, oldRange.length, oldRange.flags, oldRange.kind, oldRange.file, oldRange.fileOffset);
    newRange := forked.ranges[k];
    CopyRange(p.ranges, p.nextId, c.ranges, c.nextId, i, k, newRange);
    InsertKeepsOwned(c, forked.Snapshot(), k, newRange);
    CopiedPagesNextRange(p, c, forked.Snapshot(), i);
  }

  // Pagemap::Pagemap: no ranges, and a page of its own for the top table unless no page is free.
  method NewSpace(pmm: PageAllocator, id: nat) returns (space: Pagemap, ok: bool)
    requires pmm.Valid() && Unused(id, pmm.pages)
    modifies pmm`pages, pmm`freelist, pmm`totalFreePages
    ensures fresh(space) && space.id == id && space.pmm == pmm && space.Valid()
    ensures space.ranges == [] && space.ptes == map[] && space.tables.Keys == if ok then {TableKey(4, 0)} else {}
    ensures ForeignKept(id, old(pmm.pages), pmm.pages)
    ensures !ok ==> pmm.freelist == []
  {
    hide WellFormed, Owned, TablesOwned, ForeignKept, FreelistMatches, ManagedPages, Unused;
    space := new Pagemap(id, pmm);
    EmptySpaceOwned(space.Snapshot());
    ok := space.AllocTable(TableKey(4, 0));
  }

  /** fork: None is the panic of an empty freelist. */
  method ForkSpace(space: Pagemap, childId: nat) returns (forked: Option<Pagemap>)
    requires space.Valid() && childId != space.id && Unused(childId, space.pmm.pages)
    modifies space.pmm`pages, space.pmm`freelist, space.pmm`totalFreePages
    ensures space.Valid()
    ensures ForeignKept(childId, old(space.pmm.pages), space.pmm.pages)
    ensures forked.Some? ==>
      && fresh(forked.value) && forked.value.id == childId && forked.value.pmm == space.pmm
      && forked.value.Valid()
      && Forked(old(space.Snapshot()), forked.value.Snapshot())
    ensures forked.None? ==> space.pmm.freelist == []
  {
    hide WellFormed, Owned, Linked, TablesOwned, ForeignKept, OwnPagesKept, FreelistMatches, ManagedPages, CopiedPages,
      CopiedRanges, HasPath, Unused;
    ghost var p := space.Snapshot();
    var child, ok := NewSpace(space.pmm, childId);
    if ok {
      ghost var q := space.pmm.pages;
      ok := CopyTables(space, child);
      ForeignKeptTransitive(childId, p.pages, q, space.pmm.pages);
    }
    NothingCopied(p, child.Snapshot());
    var i := 0;
    while ok && i < |space.ranges|
      invariant 0 <= i <= |space.ranges|
      invariant child.Valid()
      invariant ForeignKept(childId, p.pages, space.pmm.pages)
      invariant ok ==> child.tables.Keys == space.tables.Keys + {TableKey(4, 0)}
      invariant ok ==> CopiedRanges(p.ranges[..i], child.ranges)
      invariant ok ==> CopiedPages(p, child.Snapshot(), p.ranges[..i], {})
      invariant !ok ==> space.pmm.freelist == []
    {
      var newRange := CopyOneRange(space, child, i, p);
      PathsCopied(p, space.tables, child.tables);
      ok := CopyPages(space, child, i, newRange, p);
      i := i + 1;
    }
    ParentUnaffected(p, space.tables, space.pmm.pages, childId);
    if !ok {
      return None;
    }
    CopiedPagesAll(p, child.Snapshot());
    assert p.ranges[..|p.ranges|] == p.ranges;
    return Some(child);
  }

  lemma EmptySpaceOwned(c: Space)
    requires c.ptes == map[] && c.ranges == [] && Unused(c.id, c.pages)
    ensures Owned(c) && TablesOwned(c.id, map[], c.ptes, c.pages) && WellFormed(c.ranges, c.nextId)
  {
    assert PageList(c.pages, OnTables(c.id)) == {};
  }

  lemma NothingCopied(p: Space, c: Space)
    requires c.ptes == map[] && c.ranges == []
    ensures CopiedRanges([], c.ranges) && CopiedPages(p, c, [], {})
    ensures CopiedRanges(p.ranges[..0], c.ranges) && CopiedPages(p, c, p.ranges[..0], {})
  {
    assert p.ranges[..0] == [];
    assert forall a: nat :: CopiedAt(View([], a), View(c.ranges, a), a);
  }

  lemma PathsCopied(p: Space, ts: map<TableKey, Pfn>, us: map<TableKey, Pfn>)
    requires TablesOwned(p.id, ts, p.ptes, p.pages) && ts.Keys <= us.Keys
    ensures forall v :: v in p.ptes ==> HasPath(us, v)
  {
    forall v | v in p.ptes ensures HasPath(us, v) {
      assert HasPath(ts, v);
    }
  }

  lemma ParentUnaffected(p: Space, tables: map<TableKey, Pfn>, q: map<Pfn, Page>, childId: nat)
    requires Owned(p) && TablesOwned(p.id, tables, p.ptes, p.pages) && p.id != childId
    requires ForeignKept(childId, p.pages, q)
    ensures Owned(p.(pages := q)) && TablesOwned(p.id, tables, p.ptes, q)
  {
    OtherSpaceUnaffected(childId, p, q, (file, offset) => 0);
    forall f | f in p.pages ensures q[f].link == OnTables(p.id) <==> p.pages[f].link == OnTables(p.id) {
      assert ForeignPageKept(childId, p.pages[f], q[f]);
    }
    TablesKept(p.id, tables, p.ptes, p.pages, p.ptes, q);
  }
}
