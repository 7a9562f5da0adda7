/**
 Which page frames an address space owns, and how the steps of Pagemap::add_range change that
 (kernel/kernel/src/mem/vmm.cpp).

 The page tables appear here as the flat map from virtual page numbers to present leaf entries
 that module PageTables proves the four-level tables to implement.
 */
module FrameOwnership {

  import opened Lists
  import opened PhysicalMemory
  import opened RangeList

  // A present leaf entry.
  datatype Pte = Pte(pfn: Pfn, flags: PageFlags)

  // The state of one pagemap and of all page structs.
  datatype Space = Space(id: nat, ranges: seq<MappedRange>, nextId: nat, ptes: map<nat, Pte>, pages: map<Pfn, Page>)

  // The arguments of add_range that matter when overlaps are resolved.
  datatype Request = Request(base: nat, length: nat, flags: PageFlags, kind: RangeType, file: Option<nat>,
                             fileOffset: int, keepPages: bool)
  {
    function End(): nat {
      base + length
    }

    predicate Contains(a: nat) {
      base <= a < End()
    }

    predicate Sound() {
      && Aligned(base) && Aligned(length)
      && (kind != NONE ==> 0 < length && flags.present)
      && (kind == FILE ==> file.Some?)
    }

    // The range that the request replaces with itself, keeping its pages.
    predicate Exact(e: MappedRange) {
      keepPages && base == e.base && End() == e.End() && kind == e.kind
    }

    // The ranges whose pages the request throws away.
    predicate Deletes(e: MappedRange) {
      base <= e.base && e.End() <= End() && !Exact(e)
    }

    predicate Splits(e: MappedRange) {
      e.base < base && End() < e.End()
    }
  }

  predicate OwnLink(id: nat, link: Link) {
    link.OnRange? && link.space == id
  }

  // Present entries and page lists agree: every present entry names a page that is not free, is on
  // a page list of this space and is marked with the address of the entry, and every page on one
  // of these page lists is mapped at the address it is marked with.
  ghost predicate Linked(s: Space) {
    && (forall v :: v in s.ptes ==> LinkedEntry(s, v))
    && (forall f :: f in s.pages && OwnLink(s.id, s.pages[f].link) ==> LinkedPage(s, f))
  }

  predicate LinkedEntry(s: Space, v: nat)
    requires v in s.ptes
  {
    var f := s.ptes[v].pfn;
    f in s.pages && !s.pages[f].free && OwnLink(s.id, s.pages[f].link) && s.pages[f].mappedAddr == PageAddr(v)
  }

  predicate LinkedPage(s: Space, f: Pfn)
    requires f in s.pages
  {
    var v := PageNumber(s.pages[f].mappedAddr);
    v in s.ptes && s.ptes[v].pfn == f
  }

  // The range whose page list the page of a present entry is on.
  function Holder(s: Space, v: nat): nat
    requires v in s.ptes && LinkedEntry(s, v)
  {
    s.pages[s.ptes[v].pfn].link.range
  }

  // The page of every present entry is on the page list of the one range that contains its address,
  // and the entry has the protection of that range.
  ghost predicate Owned(s: Space) {
    && Linked(s)
    && (forall v :: v in s.ptes ==> LinkedEntry(s, v) && OwnedEntry(s, v))
  }

  ghost predicate OwnedEntry(s: Space, v: nat)
    requires v in s.ptes && LinkedEntry(s, v)
  {
    var r := View(s.ranges, PageAddr(v));
    r.Some? && Holder(s, v) == r.value.id && s.ptes[v].flags == r.value.flags
  }

  // The state between trimming the ranges that a request overlaps and giving the pages inside the
  // request to their new range: those pages are still on the list of a range that was trimmed.
  ghost predicate WeaklyOwned(s: Space, base: nat, end: nat) {
    && Linked(s)
    && (forall v :: v in s.ptes ==> LinkedEntry(s, v) && (OwnedEntry(s, v) || Dangling(s, v, base, end)))
  }

  ghost predicate Dangling(s: Space, v: nat, base: nat, end: nat)
    requires v in s.ptes && LinkedEntry(s, v)
  {
    && View(s.ranges, PageAddr(v)).None?
    && base <= PageAddr(v) < end
    && (forall i :: 0 <= i < |s.ranges| && s.ranges[i].id == Holder(s, v) ==> !Overlaps(s.ranges[i], base, end))
  }

  // ----- moving or freeing the pages of a span of addresses -----

  predicate InSpan(id: nat, lo: nat, hi: nat, page: Page) {
    OwnLink(id, page.link) && lo <= PageNumber(page.mappedAddr) < hi
  }

  function MovedPage(id: nat, lo: nat, hi: nat, target: Option<MappedRange>, page: Page): Page {
    if !InSpan(id, lo, hi, page) then page
    else if target.Some? then page.(link := OnRange(id, target.value.id))
    else page.(free := true, mappedAddr := 0, link := OnFreelist)
  }

  // What invalidate_pages does to the entries lo .. hi: their pages move to the target range, or are
  // freed when there is none.
  ghost predicate Reassigned(s: Space, t: Space, lo: nat, hi: nat, target: Option<MappedRange>) {
    && t.id == s.id && t.ranges == s.ranges && t.nextId == s.nextId
    && EntriesReassigned(s.ptes, t.ptes, lo, hi, target)
    && PagesReassigned(s.id, s.pages, t.pages, lo, hi, target)
  }

  ghost predicate EntriesReassigned(p: map<nat, Pte>, q: map<nat, Pte>, lo: nat, hi: nat, target: Option<MappedRange>) {
    && (forall v :: v in q <==> v in p && !(lo <= v < hi && target.None?))
    && (forall v :: v in q ==> q[v] == if lo <= v < hi then Pte(p[v].pfn, target.value.flags) else p[v])
  }

  ghost predicate PagesReassigned(id: nat, p: map<Pfn, Page>, q: map<Pfn, Page>, lo: nat, hi: nat,
                                  target: Option<MappedRange>) {
    && q.Keys == p.Keys
    && (forall f :: f in p ==> q[f] == MovedPage(id, lo, hi, target, p[f]))
  }

  lemma ReassignedNothing(s: Space, lo: nat, target: Option<MappedRange>)
    ensures Reassigned(s, s, lo, lo, target)
  {
  }

  lemma ReassignedMore(s: Space, t: Space, u: Space, lo: nat, k: nat, target: Option<MappedRange>)
    requires lo <= k
    requires Reassigned(s, t, lo, k, target) && Reassigned(t, u, k, k + 1, target)
    ensures Reassigned(s, u, lo, k + 1, target)
  {
  }

  lemma ReassignedLinked(s: Space, t: Space, lo: nat, hi: nat, target: Option<MappedRange>)
    requires Linked(s) && Reassigned(s, t, lo, hi, target)
    ensures Linked(t)
  {
    forall v | v in t.ptes ensures LinkedEntry(t, v) {
      assert LinkedEntry(s, v);
    }
    forall f | f in t.pages && OwnLink(t.id, t.pages[f].link) ensures LinkedPage(t, f) {
      assert LinkedPage(s, f);
    }
  }

  // One entry that is not present.
  lemma ReassignAbsent(s: Space, v: nat, target: Option<MappedRange>)
    requires Linked(s) && v !in s.ptes
    ensures Reassigned(s, s, v, v + 1, target)
  {
    forall f | f in s.pages ensures !InSpan(s.id, v, v + 1, s.pages[f]) {
      assert OwnLink(s.id, s.pages[f].link) ==> LinkedPage(s, f);
    }
  }

  // One present entry.
  lemma ReassignPresent(s: Space, v: nat, target: Option<MappedRange>)
    requires Linked(s) && v in s.ptes
    ensures LinkedEntry(s, v)
    ensures
      var f := s.ptes[v].pfn;
      var p := MovedPage(s.id, v, v + 1, target, s.pages[f]);
      var ptes := if target.Some? then s.ptes[v := Pte(f, target.value.flags)] else s.ptes - {v};
      Reassigned(s, s.(ptes := ptes, pages := s.pages[f := p]), v, v + 1, target)
  {
    assert LinkedEntry(s, v);
    var f := s.ptes[v].pfn;
    forall g | g in s.pages && g != f ensures !InSpan(s.id, v, v + 1, s.pages[g]) {
      assert OwnLink(s.id, s.pages[g].link) ==> LinkedPage(s, g);
    }
  }

  // ----- the loop invariant of overlap resolution -----

  // Where a byte of a range is read from after the request.  Cutting a hole out of a range takes the
  // offset of the right part from the current base of the range instead of its original base.
  function ResultOffset(e: MappedRange, req: Request, a: nat): int {
    if req.Splits(e) && a >= req.End() then a - e.base + e.fileOffset else e.BackingOffset(a)
  }

  function LeftPart(e: MappedRange, req: Request): MappedRange
    requires req.Splits(e)
  {
    e.(length := req.base - e.base)
  }

  function RightPart(e: MappedRange, req: Request, id: nat): MappedRange
    requires req.Splits(e)
  {
    MappedRange(id, req.End(), req.End(), e.End() - req.End(), e.flags, e.kind, e.file, e.fileOffset + (req.End() - e.base))
  }

  // What the request leaves of a range at an address a outside of it.  The right part of a range that is
  // cut in two is a new range with a new id.
  function Remainder(e: MappedRange, req: Request, a: nat, id: nat): MappedRange {
    if !Overlaps(e, req.base, req.End()) then e
    else if req.Splits(e) then if a >= req.End() then RightPart(e, req, id) else LeftPart(e, req)
    else if req.base <= e.base && req.End() <= e.End() then e.(base := req.End(), length := e.End() - req.End())
    else if e.base <= req.base then e.(length := req.base - e.base)
    else e
  }

  // Anonymous ranges may have been merged, and then keep their meaning but not their extent.
  predicate SameMeaning(e: MappedRange, r: MappedRange, req: Request, a: nat) {
    && r.kind == e.kind && r.flags == e.flags && r.file == e.file && r.BackingOffset(a) == ResultOffset(e, req, a)
    && (e.kind == FILE ==> r == Remainder(e, req, a, r.id))
  }

  // No address outside the request changes its meaning; inside, ranges only disappear.
  ghost predicate MeaningKept(s0: Space, s: Space, req: Request) {
    forall a :: KeptAt(s0, s, req, a)
  }

  ghost predicate KeptAt(s0: Space, s: Space, req: Request, a: nat) {
    var e, r := View(s0.ranges, a), View(s.ranges, a);
    if req.Contains(a) then
      r == e || (r.None? && !req.Exact(e.value))
    else
      r == e || (r.Some? && e.Some? && SameMeaning(e.value, r.value, req, a))
  }

  // Ranges that still overlap the request have not been touched.
  ghost predicate Untouched(s0: Space, s: Space, req: Request) {
    forall i :: 0 <= i < |s.ranges| && Overlaps(s.ranges[i], req.base, req.End()) ==> s.ranges[i] in s0.ranges
  }

  // Entries are only dropped for ranges that the request deletes.
  ghost predicate ResidentKept(s0: Space, s: Space, req: Request) {
    && (forall v :: v in s.ptes ==> v in s0.ptes && s.ptes[v].pfn == s0.ptes[v].pfn)
    && (forall v :: v in s0.ptes ==>
          (v in s.ptes <==> View(s.ranges, PageAddr(v)) == View(s0.ranges, PageAddr(v)) || !Dropped(s0, req, v)))
  }

  // The page at v is resident before the request and belongs to a range that the request deletes.
  ghost predicate Dropped(s0: Space, req: Request, v: nat) {
    && req.Contains(PageAddr(v))
    && View(s0.ranges, PageAddr(v)).Some?
    && req.Deletes(View(s0.ranges, PageAddr(v)).value)
  }

  // Page contents stay, and so does every page that belongs to someone else.
  ghost predicate PagesKept(id: nat, p: map<Pfn, Page>, q: map<Pfn, Page>) {
    && q.Keys == p.Keys
    && (forall f :: f in p ==> PageKept(id, p[f], q[f]))
  }

  predicate PageKept(id: nat, p: Page, q: Page) {
    && q.data == p.data
    && (if OwnLink(id, p.link) then OwnLink(id, q.link) || q.link == OnFreelist else q == p)
  }

  ghost predicate Resolving(s0: Space, s: Space, req: Request) {
    && s.id == s0.id
    && WellFormed(s0.ranges, s0.nextId) && Owned(s0)
    && WellFormed(s.ranges, s.nextId) && s0.nextId <= s.nextId
    && WeaklyOwned(s, req.base, req.End())
    && MeaningKept(s0, s, req)
    && Untouched(s0, s, req)
    && ResidentKept(s0, s, req)
    && PagesKept(s.id, s0.pages, s.pages)
  }

  lemma ResolvingStarts(s: Space, req: Request)
    requires WellFormed(s.ranges, s.nextId) && Owned(s)
    ensures Resolving(s, s, req)
  {
    forall a ensures KeptAt(s, s, req, a) {
    }
  }

  lemma PagesKeptReassigned(id: nat, p: map<Pfn, Page>, s: Space, t: Space, lo: nat, hi: nat, target: Option<MappedRange>)
    requires id == s.id && PagesKept(id, p, s.pages) && Reassigned(s, t, lo, hi, target)
    ensures PagesKept(id, p, t.pages)
  {
    forall f | f in p ensures PageKept(id, p[f], t.pages[f]) {
      assert PageKept(id, p[f], s.pages[f]);
    }
  }

  lemma MemberView(rs: seq<MappedRange>, nextId: nat, e: MappedRange, a: nat)
    requires WellFormed(rs, nextId) && e in rs && e.Covers(a)
    ensures View(rs, a) == Some(e)
  {
    var i :| 0 <= i < |rs| && rs[i] == e;
    ViewIsUnique(rs, nextId, i, a);
  }

  // ----- trimming -----

  // r is what remains of e once the addresses inside the request are cut off at one end.
  ghost predicate Trims(req: Request, e: MappedRange, r: MappedRange) {
    && Overlaps(e, req.base, req.End())
    && (if req.base <= e.base then
          req.End() < e.End() && r == e.(base := req.End(), length := e.End() - req.End())
        else
          e.End() <= req.End() && r == e.(length := req.base - e.base))
  }

  lemma TrimFacts(req: Request, e: MappedRange, r: MappedRange)
    requires req.Sound() && Sound(e) && Trims(req, e, r)
    ensures Sound(r) && e.base <= r.base && r.End() <= e.End()
    ensures !Overlaps(r, req.base, req.End())
    ensures forall a :: e.Covers(a) && !r.Covers(a) ==> req.Contains(a)
    ensures !req.Splits(e) && !req.Deletes(e)
  {
  }

  lemma TrimStep(s0: Space, s: Space, req: Request, i: nat, r: MappedRange)
    requires Resolving(s0, s, req) && req.Sound()
    requires i < |s.ranges| && Trims(req, s.ranges[i], r)
    ensures Resolving(s0, s.(ranges := s.ranges[i := r]), req)
  {
    var t := s.(ranges := s.ranges[i := r]);
    TrimFacts(req, s.ranges[i], r);
    ShrinkView(s.ranges, s.nextId, i, r);
    TrimWeaklyOwned(s, t, req, i, r);
    forall a ensures KeptAt(s0, t, req, a) {
      assert KeptAt(s0, s, req, a);
      if s.ranges[i].Covers(a) {
        MemberView(s0.ranges, s0.nextId, s.ranges[i], a);
      }
    }
    TrimResidentKept(s0, s, t, req, i, r);
  }

  lemma TrimWeaklyOwned(s: Space, t: Space, req: Request, i: nat, r: MappedRange)
    requires WeaklyOwned(s, req.base, req.End()) && WellFormed(s.ranges, s.nextId)
    requires i < |s.ranges| && t == s.(ranges := s.ranges[i := r])
    requires r.id == s.ranges[i].id && r.flags == s.ranges[i].flags && !Overlaps(r, req.base, req.End())
    requires forall a :: s.ranges[i].Covers(a) && !r.Covers(a) ==> req.Contains(a)
    requires s.ranges[i].base <= r.base && r.End() <= s.ranges[i].End()
    requires forall a ::
      View(t.ranges, a) == (if r.Covers(a) then Some(r) else if s.ranges[i].Covers(a) then None else View(s.ranges, a))
    ensures WeaklyOwned(t, req.base, req.End())
  {
    LinkedIgnoresRanges(s, t);
    var e := s.ranges[i];
    forall v | v in t.ptes ensures LinkedEntry(t, v) && (OwnedEntry(t, v) || Dangling(t, v, req.base, req.End())) {
      assert LinkedEntry(s, v) && (OwnedEntry(s, v) || Dangling(s, v, req.base, req.End()));
      if e.Covers(PageAddr(v)) {
        ViewIsUnique(s.ranges, s.nextId, i, PageAddr(v));
      }
    }
  }

  lemma LinkedIgnoresRanges(s: Space, t: Space)
    requires Linked(s) && t.id == s.id && t.ptes == s.ptes && t.pages == s.pages
    ensures Linked(t)
  {
    forall v | v in t.ptes ensures LinkedEntry(t, v) {
      assert LinkedEntry(s, v);
    }
    forall f | f in t.pages && OwnLink(t.id, t.pages[f].link) ensures LinkedPage(t, f) {
      assert LinkedPage(s, f);
    }
  }

  lemma TrimResidentKept(s0: Space, s: Space, t: Space, req: Request, i: nat, r: MappedRange)
    requires Resolving(s0, s, req)
    requires i < |s.ranges| && Overlaps(s.ranges[i], req.base, req.End()) && !req.Deletes(s.ranges[i])
    requires t.ptes == s.ptes
    requires s.ranges[i].base <= r.base && r.End() <= s.ranges[i].End()
    requires forall a :: !s.ranges[i].Covers(a) ==> View(t.ranges, a) == View(s.ranges, a)
    ensures ResidentKept(s0, t, req)
  {
    var e := s.ranges[i];
    forall v | v in s0.ptes
      ensures v in t.ptes <==>
        View(t.ranges, PageAddr(v)) == View(s0.ranges, PageAddr(v)) || !Dropped(s0, req, v)
    {
      if e.Covers(PageAddr(v)) {
        MemberView(s0.ranges, s0.nextId, e, PageAddr(v));
        ViewIsUnique(s.ranges, s.nextId, i, PageAddr(v));
      }
    }
  }

  // ----- deleting -----

  // The page-aligned span of a sound range.
  lemma SpanCovers(base: nat, end: nat, v: nat)
    requires Aligned(base) && Aligned(end)
    ensures PageNumber(base) <= v < PageNumber(end) <==> base <= PageAddr(v) < end
  {
  }

  lemma DeleteStep(s0: Space, s: Space, t: Space, req: Request, i: nat)
    requires Resolving(s0, s, req) && req.Sound()
    requires i < |s.ranges| && Overlaps(s.ranges[i], req.base, req.End()) && req.Deletes(s.ranges[i])
    requires Reassigned(s, t, PageNumber(s.ranges[i].base), PageNumber(s.ranges[i].End()), None)
    ensures Resolving(s0, t.(ranges := RemoveAt(s.ranges, i)), req)
    // nothing is left on the page list that goes away with the range
    ensures forall f :: f in t.pages ==> t.pages[f].link != OnRange(s.id, s.ranges[i].id)
  {
    var e := s.ranges[i];
    var u := t.(ranges := RemoveAt(s.ranges, i));
    ReassignedLinked(s, t, PageNumber(e.base), PageNumber(e.End()), None);
    LinkedIgnoresRanges(t, u);
    RemoveView(s.ranges, s.nextId, i);
    forall v | v in t.ptes
      ensures LinkedEntry(u, v) && (OwnedEntry(u, v) || Dangling(u, v, req.base, req.End()))
    {
      DeletedSpan(s, t, i, v);
      DeleteEntry(s, u, req, i, v);
    }
    DeleteEmptiesList(s, t, req, i);
    forall a ensures KeptAt(s0, u, req, a) {
      assert KeptAt(s0, s, req, a);
      if e.Covers(a) {
        MemberView(s0.ranges, s0.nextId, e, a);
      }
    }
    assert Untouched(s0, u, req) by {
      assert forall j :: 0 <= j < |u.ranges| ==> u.ranges[j] == s.ranges[if j < i then j else j + 1];
    }
    DeletedEntries(s, t, e);
    DeleteResidentKept(s0, s, u, req, i);
    PagesKeptReassigned(s.id, s0.pages, s, t, PageNumber(e.base), PageNumber(e.End()), None);
  }

  lemma DeletedEntries(s: Space, t: Space, e: MappedRange)
    requires Sound(e) && Reassigned(s, t, PageNumber(e.base), PageNumber(e.End()), None)
    ensures forall v :: v in t.ptes <==> v in s.ptes && !e.Covers(PageAddr(v))
    ensures forall v :: v in t.ptes ==> t.ptes[v] == s.ptes[v]
  {
    forall v ensures v in t.ptes <==> v in s.ptes && !e.Covers(PageAddr(v)) {
      SpanCovers(e.base, e.End(), v);
    }
  }

  lemma DeleteResidentKept(s0: Space, s: Space, u: Space, req: Request, i: nat)
    requires WellFormed(s0.ranges, s0.nextId) && WellFormed(s.ranges, s.nextId)
    requires ResidentKept(s0, s, req)
    requires i < |s.ranges| && s.ranges[i] in s0.ranges && req.Deletes(s.ranges[i])
    requires forall v :: v in u.ptes <==> v in s.ptes && !s.ranges[i].Covers(PageAddr(v))
    requires forall v :: v in u.ptes ==> u.ptes[v] == s.ptes[v]
    requires u.ranges == RemoveAt(s.ranges, i)
    ensures ResidentKept(s0, u, req)
  {
    forall v | v in s0.ptes
      ensures v in u.ptes <==>
        View(u.ranges, PageAddr(v)) == View(s0.ranges, PageAddr(v)) || !Dropped(s0, req, v)
    {
      DeleteResidentAt(s0, s, req, i, v);
    }
  }

  lemma DeleteResidentAt(s0: Space, s: Space, req: Request, i: nat, v: nat)
    requires WellFormed(s0.ranges, s0.nextId) && WellFormed(s.ranges, s.nextId)
    requires i < |s.ranges| && s.ranges[i] in s0.ranges && req.Deletes(s.ranges[i])
    requires v in s.ptes <==> View(s.ranges, PageAddr(v)) == View(s0.ranges, PageAddr(v)) || !Dropped(s0, req, v)
    ensures v in s.ptes && !s.ranges[i].Covers(PageAddr(v)) <==>
      View(RemoveAt(s.ranges, i), PageAddr(v)) == View(s0.ranges, PageAddr(v)) || !Dropped(s0, req, v)
  {
    RemoveViewAt(s.ranges, s.nextId, i, PageAddr(v));
    if s.ranges[i].Covers(PageAddr(v)) {
      MemberView(s0.ranges, s0.nextId, s.ranges[i], PageAddr(v));
    }
  }

  // An entry that is still there is the old one, and outside the deleted range.
  lemma DeletedSpan(s: Space, t: Space, i: nat, v: nat)
    requires i < |s.ranges| && Sound(s.ranges[i])
    requires Reassigned(s, t, PageNumber(s.ranges[i].base), PageNumber(s.ranges[i].End()), None)
    requires Linked(s) && v in t.ptes
    ensures v in s.ptes && t.ptes[v] == s.ptes[v] && !s.ranges[i].Covers(PageAddr(v))
    ensures LinkedEntry(s, v) && t.ptes[v].pfn in t.pages && t.pages[t.ptes[v].pfn] == s.pages[t.ptes[v].pfn]
  {
    SpanCovers(s.ranges[i].base, s.ranges[i].End(), v);
    assert LinkedEntry(s, v);
  }

  lemma DeleteEntry(s: Space, u: Space, req: Request, i: nat, v: nat)
    requires WellFormed(s.ranges, s.nextId) && i < |s.ranges|
    requires u.id == s.id && u.ranges == RemoveAt(s.ranges, i)
    requires v in s.ptes && v in u.ptes && u.ptes[v] == s.ptes[v]
    requires LinkedEntry(s, v) && u.ptes[v].pfn in u.pages && u.pages[u.ptes[v].pfn] == s.pages[u.ptes[v].pfn]
    requires OwnedEntry(s, v) || Dangling(s, v, req.base, req.End())
    requires !s.ranges[i].Covers(PageAddr(v))
    ensures LinkedEntry(u, v) && (OwnedEntry(u, v) || Dangling(u, v, req.base, req.End()))
  {
    RemoveViewAt(s.ranges, s.nextId, i, PageAddr(v));
    if Dangling(s, v, req.base, req.End()) {
      assert forall j :: 0 <= j < |u.ranges| ==> u.ranges[j] == s.ranges[if j < i then j else j + 1];
    }
  }

  lemma DeleteEmptiesList(s: Space, t: Space, req: Request, i: nat)
    requires WeaklyOwned(s, req.base, req.End()) && WellFormed(s.ranges, s.nextId)
    requires i < |s.ranges| && Overlaps(s.ranges[i], req.base, req.End())
    requires Reassigned(s, t, PageNumber(s.ranges[i].base), PageNumber(s.ranges[i].End()), None)
    requires Linked(t)
    ensures forall f :: f in t.pages ==> t.pages[f].link != OnRange(s.id, s.ranges[i].id)
  {
    forall f | f in t.pages ensures t.pages[f].link != OnRange(s.id, s.ranges[i].id) {
      if OwnLink(t.id, t.pages[f].link) {
        assert LinkedPage(t, f);
        var v := PageNumber(t.pages[f].mappedAddr);
        assert LinkedEntry(t, v);
        DeletedSpan(s, t, i, v);
        assert OwnedEntry(s, v) || Dangling(s, v, req.base, req.End());
        if OwnedEntry(s, v) {
          var k := IndexOf(s.ranges, PageAddr(v));
          assert k != i;
        }
      }
    }
  }

  // ----- splitting -----

  lemma SplitView(rs: seq<MappedRange>, nextId: nat, req: Request, i: nat, k: nat)
    requires WellFormed(rs, nextId) && req.Sound()
    requires i < |rs| && k <= |rs| && req.Splits(rs[i])
    ensures
      var r1 := LeftPart(rs[i], req);
      var r2 := RightPart(rs[i], req, nextId);
      var ts := InsertAt(rs[i := r1], k, r2);
      && WellFormed(rs[i := r1], nextId) && NoOverlap(rs[i := r1], r2.base, r2.End())
      && WellFormed(ts, nextId + 1)
      && Sound(r2)
      && (forall a :: View(ts, a) == (if r2.Covers(a) then Some(r2) else if r1.Covers(a) then Some(r1)
                                     else if rs[i].Covers(a) then None else View(rs, a)))
  {
    var r1 := LeftPart(rs[i], req);
    var r2 := RightPart(rs[i], req, nextId);
    ShrinkView(rs, nextId, i, r1);
    NoOverlapAfterCut(rs, nextId, i, r1, r2);
    InsertView(rs[i := r1], nextId, k, r2);
  }

  // A part that is cut off a range overlaps neither the rest of it nor any other range.
  lemma NoOverlapAfterCut(rs: seq<MappedRange>, nextId: nat, i: nat, r1: MappedRange, r2: MappedRange)
    requires WellFormed(rs, nextId) && i < |rs|
    requires rs[i].base <= r2.base && r2.End() <= rs[i].End() && !Overlaps(r1, r2.base, r2.End())
    ensures NoOverlap(rs[i := r1], r2.base, r2.End())
  {
    var cut := rs[i := r1];
    forall j | 0 <= j < |cut| ensures !Overlaps(cut[j], r2.base, r2.End()) {
      if j < i {
        assert Apart(rs[j], rs[i]);
      } else if i < j {
        assert Apart(rs[i], rs[j]);
      }
    }
  }

  lemma SplitStep(s0: Space, s: Space, s1: Space, t: Space, req: Request, i: nat, k: nat)
    requires Resolving(s0, s, req) && req.Sound()
    requires i < |s.ranges| && k <= |s.ranges| && req.Splits(s.ranges[i])
    requires s1 == s.(ranges := InsertAt(s.ranges[i := LeftPart(s.ranges[i], req)], k, RightPart(s.ranges[i], req, s.nextId)),
                      nextId := s.nextId + 1)
    requires var r2 := RightPart(s.ranges[i], req, s.nextId);
      Reassigned(s1, t, PageNumber(r2.base), PageNumber(r2.End()), Some(r2))
    ensures Resolving(s0, t, req)
  {
    hide WellFormed, Linked, ResidentKept, PagesKept, EntriesReassigned, PagesReassigned, Untouched;
    var e := s.ranges[i];
    var r1, r2 := LeftPart(e, req), RightPart(e, req, s.nextId);
    SplitView(s.ranges, s.nextId, req, i, k);
    SplitWeaklyOwned(s, s1, t, req, i, k);
    assert e in s0.ranges by { UntouchedMember(s0, s, req, i); }
    forall a ensures KeptAt(s0, t, req, a) {
      assert KeptAt(s0, s, req, a);
      if e.Covers(a) {
        MemberView(s0.ranges, s0.nextId, e, a);
      }
    }
    SplitUntouched(s0, s, t, req, i, k);
    TrimResidentKept(s0, s, s1, req, i, r1);
    ReassignedResidentKept(s0, s1, t, req, r2);
    PagesKeptReassigned(s.id, s0.pages, s1, t, PageNumber(r2.base), PageNumber(r2.End()), Some(r2));
  }

  lemma UntouchedMember(s0: Space, s: Space, req: Request, i: nat)
    requires Untouched(s0, s, req) && i < |s.ranges| && Overlaps(s.ranges[i], req.base, req.End())
    ensures s.ranges[i] in s0.ranges
  {
  }

  lemma ReassignedResidentKept(s0: Space, s: Space, t: Space, req: Request, r: MappedRange)
    requires ResidentKept(s0, s, req)
    requires Reassigned(s, t, PageNumber(r.base), PageNumber(r.End()), Some(r))
    ensures ResidentKept(s0, t, req)
  {
  }

  lemma SplitUntouched(s0: Space, s: Space, t: Space, req: Request, i: nat, k: nat)
    requires Untouched(s0, s, req)
    requires i < |s.ranges| && k <= |s.ranges| && req.Splits(s.ranges[i])
    requires t.ranges == InsertAt(s.ranges[i := LeftPart(s.ranges[i], req)], k, RightPart(s.ranges[i], req, s.nextId))
    ensures Untouched(s0, t, req)
  {
    assert forall j :: 0 <= j < |t.ranges| && j != k ==>
      t.ranges[j] == s.ranges[i := LeftPart(s.ranges[i], req)][if j < k then j else j - 1];
  }

  lemma SplitWeaklyOwned(s: Space, s1: Space, t: Space, req: Request, i: nat, k: nat)
    requires WeaklyOwned(s, req.base, req.End()) && WellFormed(s.ranges, s.nextId) && req.Sound()
    requires i < |s.ranges| && k <= |s.ranges| && req.Splits(s.ranges[i])
    requires s1 == s.(ranges := InsertAt(s.ranges[i := LeftPart(s.ranges[i], req)], k, RightPart(s.ranges[i], req, s.nextId)),
                      nextId := s.nextId + 1)
    requires var r2 := RightPart(s.ranges[i], req, s.nextId);
      Reassigned(s1, t, PageNumber(r2.base), PageNumber(r2.End()), Some(r2))
    ensures WeaklyOwned(t, req.base, req.End())
  {
    var r2 := RightPart(s.ranges[i], req, s.nextId);
    SplitView(s.ranges, s.nextId, req, i, k);
    LinkedIgnoresRanges(s, s1);
    ReassignedLinked(s1, t, PageNumber(r2.base), PageNumber(r2.End()), Some(r2));
    forall v | v in t.ptes
      ensures LinkedEntry(t, v) && (OwnedEntry(t, v) || Dangling(t, v, req.base, req.End()))
    {
      assert LinkedEntry(s, v);
      ReassignedEntry(s1, t, r2, v);
      SplitEntry(s, t, req, i, k, v);
    }
  }

  // The page of an entry is on the list of r if r contains the entry, and where it was otherwise.
  predicate EntryMoved(s: Space, t: Space, r: MappedRange, v: nat) {
    && v in s.ptes && LinkedEntry(s, v) && v in t.ptes && LinkedEntry(t, v)
    && (if r.Covers(PageAddr(v)) then Holder(t, v) == r.id && t.ptes[v].flags == r.flags
        else Holder(t, v) == Holder(s, v) && t.ptes[v].flags == s.ptes[v].flags)
  }

  // An entry after its span was given to the range r.
  lemma ReassignedEntry(s: Space, t: Space, r: MappedRange, v: nat)
    requires Sound(r) && v in t.ptes
    requires Reassigned(s, t, PageNumber(r.base), PageNumber(r.End()), Some(r))
    requires v in s.ptes && LinkedEntry(s, v)
    ensures LinkedEntry(t, v)
    ensures r.Covers(PageAddr(v)) ==> Holder(t, v) == r.id && t.ptes[v].flags == r.flags
    ensures !r.Covers(PageAddr(v)) ==> Holder(t, v) == Holder(s, v) && t.ptes[v].flags == s.ptes[v].flags
  {
    SpanCovers(r.base, r.End(), v);
  }

  lemma SplitEntry(s: Space, t: Space, req: Request, i: nat, k: nat, v: nat)
    requires WellFormed(s.ranges, s.nextId) && req.Sound()
    requires i < |s.ranges| && k <= |s.ranges| && req.Splits(s.ranges[i])
    requires t.ranges == InsertAt(s.ranges[i := LeftPart(s.ranges[i], req)], k, RightPart(s.ranges[i], req, s.nextId))
    requires v in s.ptes && LinkedEntry(s, v) && v in t.ptes && LinkedEntry(t, v)
    requires OwnedEntry(s, v) || Dangling(s, v, req.base, req.End())
    requires var r2 := RightPart(s.ranges[i], req, s.nextId);
      if r2.Covers(PageAddr(v)) then Holder(t, v) == r2.id && t.ptes[v].flags == r2.flags
      else Holder(t, v) == Holder(s, v) && t.ptes[v].flags == s.ptes[v].flags
    ensures OwnedEntry(t, v) || Dangling(t, v, req.base, req.End())
  {
    var e := s.ranges[i];
    var a := PageAddr(v);
    SplitView(s.ranges, s.nextId, req, i, k);
    if e.Covers(a) {
      ViewIsUnique(s.ranges, s.nextId, i, a);
      if req.Contains(a) {
        SplitDangling(s.ranges, t.ranges, req, i, k, s.nextId, Holder(s, v));
      }
    }
  }

  // After the split no range on whose list a page inside the request can be overlaps the request.
  lemma SplitDangling(rs: seq<MappedRange>, ts: seq<MappedRange>, req: Request, i: nat, k: nat, id: nat, holder: nat)
    requires i < |rs| && k <= |rs| && req.Splits(rs[i])
    requires ts == InsertAt(rs[i := LeftPart(rs[i], req)], k, RightPart(rs[i], req, id))
    requires forall j :: 0 <= j < |rs| && j != i && rs[j].id == holder ==> !Overlaps(rs[j], req.base, req.End())
    ensures forall j :: 0 <= j < |ts| && ts[j].id == holder ==> !Overlaps(ts[j], req.base, req.End())
  {
    var cut := rs[i := LeftPart(rs[i], req)];
    assert forall j :: 0 <= j < |ts| && j != k ==> ts[j] == cut[if j < k then j else j - 1];
  }

  // ----- the outcome of add_range -----

  /** What add_range with overlap resolution promises. */
  ghost predicate AddedRange(s0: Space, u: Space, req: Request) {
    && u.id == s0.id && WellFormed(u.ranges, u.nextId) && s0.nextId <= u.nextId
    && Owned(u)
    && (forall a :: MeaningAt(s0, u, req, a))
    && ResidentAfter(s0, u, req)
    && PagesKept(u.id, s0.pages, u.pages)
  }

  // Every address in the request has the new meaning, and every other address has its old one.
  ghost predicate MeaningAt(s0: Space, u: Space, req: Request, a: nat) {
    var e, r := View(s0.ranges, a), View(u.ranges, a);
    if !req.Contains(a) then
      (e.None? <==> r.None?) && (e.Some? ==> SameMeaning(e.value, r.value, req, a))
    else if req.kind == NONE then
      r.None?
    else
      r.Some? && r.value.kind == req.kind && r.value.flags == req.flags && (req.kind == FILE ==> BackedAt(e, r.value, req, a))
  }

  ghost predicate BackedAt(e: Option<MappedRange>, r: MappedRange, req: Request, a: nat) {
    if e.Some? && req.Exact(e.value) then
      r.file == e.value.file && r.BackingOffset(a) == e.value.BackingOffset(a)
    else
      r.file == req.file && r.BackingOffset(a) == a - req.base + req.fileOffset
  }

  // A page stays resident unless the request unmaps it or deletes its range.
  ghost predicate ResidentAfter(s0: Space, u: Space, req: Request) {
    && (forall v :: v in u.ptes ==> v in s0.ptes && u.ptes[v].pfn == s0.ptes[v].pfn)
    && (forall v :: v in s0.ptes ==> (v in u.ptes <==> !Lost(s0, req, v)))
  }

  ghost predicate Lost(s0: Space, req: Request, v: nat) {
    (req.kind == NONE && req.Contains(PageAddr(v))) || Dropped(s0, req, v)
  }

  // ----- filling the request in once nothing overlaps it -----

  // r means the same as x at address a, perhaps under another extent.
  predicate SameExceptExtent(x: MappedRange, r: MappedRange, a: nat) {
    && r.id == x.id && r.kind == x.kind && r.flags == x.flags && r.file == x.file
    && r.originalBase == x.originalBase && r.fileOffset == x.fileOffset
    && (x.kind == FILE ==> r == x)
  }

  // The new range list s1 gives the addresses of the request to the target and leaves the others alone.
  ghost predicate FilledIn(s: Space, s1: Space, req: Request, target: Option<MappedRange>) {
    && s1.id == s.id && s1.ptes == s.ptes && s1.pages == s.pages
    && WellFormed(s1.ranges, s1.nextId) && s.nextId <= s1.nextId
    && (forall a :: FilledAt(s, s1, req, target, a))
  }

  ghost predicate FilledAt(s: Space, s1: Space, req: Request, target: Option<MappedRange>, a: nat) {
    var x, r := View(s.ranges, a), View(s1.ranges, a);
    if req.Contains(a) then r == target
    else (x.None? <==> r.None?) && (x.Some? ==> SameExceptExtent(x.value, r.value, a))
  }

  predicate TargetOf(req: Request, target: Option<MappedRange>) {
    if req.kind == NONE then target.None?
    else
      && target.Some? && target.value.kind == req.kind && target.value.flags == req.flags
      && (req.kind == FILE ==>
            && target.value.file == req.file
            && target.value.originalBase == req.base && target.value.fileOffset == req.fileOffset)
  }

  lemma Finish(s0: Space, s: Space, s1: Space, u: Space, req: Request, target: Option<MappedRange>)
    requires Resolving(s0, s, req) && req.Sound()
    requires NoOverlap(s.ranges, req.base, req.End())
    requires FilledIn(s, s1, req, target) && TargetOf(req, target)
    requires Reassigned(s1, u, PageNumber(req.base), PageNumber(req.End()), target)
    ensures AddedRange(s0, u, req)
  {
    hide WellFormed, Linked, MeaningKept, ResidentKept, PagesKept, EntriesReassigned, PagesReassigned, ResidentAfter,
      NoOverlap, Untouched;
    assert Owned(u) by {
      FinishOwned(s, s1, u, req, target);
    }
    assert forall a :: MeaningAt(s0, u, req, a) by {
      FinishMeanings(s0, s, s1, u, req, target);
    }
    assert ResidentAfter(s0, u, req) by {
      NoOverlapView(s.ranges, req.base, req.End());
      ReassignedEntries(s1, u, req.base, req.End(), target);
      FinishResident(s0, s, u, req, target);
    }
    PagesKeptReassigned(s.id, s0.pages, s1, u, PageNumber(req.base), PageNumber(req.End()), target);
  }

  lemma FinishOwned(s: Space, s1: Space, u: Space, req: Request, target: Option<MappedRange>)
    requires WeaklyOwned(s, req.base, req.End()) && req.Sound() && NoOverlap(s.ranges, req.base, req.End())
    requires FilledIn(s, s1, req, target) && TargetOf(req, target)
    requires Reassigned(s1, u, PageNumber(req.base), PageNumber(req.End()), target)
    ensures Owned(u)
  {
    hide WellFormed, PagesReassigned;
    NoOverlapView(s.ranges, req.base, req.End());
    LinkedIgnoresRanges(s, s1);
    ReassignedLinked(s1, u, PageNumber(req.base), PageNumber(req.End()), target);
    forall v | v in u.ptes ensures LinkedEntry(u, v) && OwnedEntry(u, v) {
      assert LinkedEntry(s, v) && (OwnedEntry(s, v) || Dangling(s, v, req.base, req.End()));
      assert FilledAt(s, s1, req, target, PageAddr(v));
      FinishEntry(s, s1, u, req, target, v);
    }
  }

  lemma FinishMeanings(s0: Space, s: Space, s1: Space, u: Space, req: Request, target: Option<MappedRange>)
    requires WellFormed(s.ranges, s.nextId) && MeaningKept(s0, s, req)
    requires NoOverlap(s.ranges, req.base, req.End())
    requires FilledIn(s, s1, req, target) && TargetOf(req, target) && u.ranges == s1.ranges
    ensures forall a :: MeaningAt(s0, u, req, a)
  {
    hide WellFormed;
    NoOverlapView(s.ranges, req.base, req.End());
    forall a ensures MeaningAt(s0, u, req, a) {
      assert KeptAt(s0, s, req, a);
      assert FilledAt(s, s1, req, target, a);
      FinishMeaning(s0, s, u, req, target, a);
    }
  }

  lemma FinishEntry(s: Space, s1: Space, u: Space, req: Request, target: Option<MappedRange>, v: nat)
    requires req.Sound() && v in s.ptes && LinkedEntry(s, v) && v in u.ptes && LinkedEntry(u, v)
    requires OwnedEntry(s, v) || Dangling(s, v, req.base, req.End())
    requires req.Contains(PageAddr(v)) ==> View(s.ranges, PageAddr(v)) == None
    requires s1.id == s.id && s1.ptes == s.ptes && s1.pages == s.pages
    requires FilledAt(s, s1, req, target, PageAddr(v)) && TargetOf(req, target)
    requires Reassigned(s1, u, PageNumber(req.base), PageNumber(req.End()), target)
    ensures OwnedEntry(u, v)
  {
    SpanCovers(req.base, req.End(), v);
  }

  lemma FinishMeaning(s0: Space, s: Space, u: Space, req: Request, target: Option<MappedRange>, a: nat)
    requires WellFormed(s.ranges, s.nextId) && NoOverlap(s.ranges, req.base, req.End())
    requires KeptAt(s0, s, req, a)
    requires FilledAt(s, u, req, target, a) && TargetOf(req, target)
    requires req.Contains(a) ==> View(s.ranges, a) == None
    ensures MeaningAt(s0, u, req, a)
  {
    var x := View(s.ranges, a);
    if !req.Contains(a) && x.Some? {
      // a range that the request splits would still overlap it
      var k := IndexOf(s.ranges, a);
      assert !req.Splits(s.ranges[k]);
    }
  }

  lemma ReassignedEntries(s: Space, t: Space, base: nat, end: nat, target: Option<MappedRange>)
    requires Aligned(base) && Aligned(end)
    requires Reassigned(s, t, PageNumber(base), PageNumber(end), target)
    ensures forall v :: v in t.ptes <==> v in s.ptes && !(base <= PageAddr(v) < end && target.None?)
    ensures forall v :: v in t.ptes ==> t.ptes[v].pfn == s.ptes[v].pfn
  {
    forall v ensures v in t.ptes <==> v in s.ptes && !(base <= PageAddr(v) < end && target.None?) {
      SpanCovers(base, end, v);
    }
  }

  lemma FinishResident(s0: Space, s: Space, u: Space, req: Request, target: Option<MappedRange>)
    requires Owned(s0) && ResidentKept(s0, s, req) && TargetOf(req, target)
    requires forall a :: req.Contains(a) ==> View(s.ranges, a) == None
    requires forall v :: v in u.ptes <==> v in s.ptes && !(req.Contains(PageAddr(v)) && target.None?)
    requires forall v :: v in u.ptes ==> u.ptes[v].pfn == s.ptes[v].pfn
    ensures ResidentAfter(s0, u, req)
  {
    forall v | v in s0.ptes ensures v in u.ptes <==> !Lost(s0, req, v) {
      assert OwnedEntry(s0, v);
    }
  }

  // Without an overlap there is no page to move.
  lemma NothingToMove(s: Space, s1: Space, req: Request, target: Option<MappedRange>)
    requires Owned(s) && NoOverlap(s.ranges, req.base, req.End()) && req.Sound()
    requires s1.id == s.id && s1.ptes == s.ptes && s1.pages == s.pages
    ensures Reassigned(s1, s1, PageNumber(req.base), PageNumber(req.End()), target)
  {
    forall v | v in s.ptes ensures !(PageNumber(req.base) <= v < PageNumber(req.End())) {
      SpanCovers(req.base, req.End(), v);
      assert OwnedEntry(s, v);
      NoOverlapView(s.ranges, req.base, req.End());
    }
    forall f | f in s.pages
      ensures !InSpan(s.id, PageNumber(req.base), PageNumber(req.End()), s.pages[f])
    {
      assert OwnLink(s.id, s.pages[f].link) ==> LinkedPage(s, f);
    }
  }

  // A new range in the gap.
  lemma FillByInsertion(s: Space, req: Request, k: nat, r: MappedRange)
    requires WellFormed(s.ranges, s.nextId) && NoOverlap(s.ranges, req.base, req.End())
    requires k <= |s.ranges| && Sound(r) && r.id == s.nextId && r.base == req.base && r.length == req.length
    ensures FilledIn(s, s.(ranges := InsertAt(s.ranges, k, r), nextId := s.nextId + 1), req, Some(r))
  {
    InsertView(s.ranges, s.nextId, k, r);
    var s1 := s.(ranges := InsertAt(s.ranges, k, r), nextId := s.nextId + 1);
    assert forall a :: FilledAt(s, s1, req, Some(r), a);
  }

  // r is x enlarged by the addresses of an adjacent request.
  ghost predicate Enlarges(req: Request, x: MappedRange, r: MappedRange) {
    if req.base == x.End() then r == x.(length := x.length + req.length)
    else req.End() == x.base && r == x.(base := req.base, length := x.length + req.length)
  }

  // An adjacent range that grows into the gap.
  lemma FillByMerging(s: Space, req: Request, i: nat, r: MappedRange)
    requires WellFormed(s.ranges, s.nextId) && NoOverlap(s.ranges, req.base, req.End()) && req.Sound()
    requires i < |s.ranges| && 0 < req.length && Enlarges(req, s.ranges[i], r)
    requires s.ranges[i].kind == ANONYMOUS
    ensures FilledIn(s, s.(ranges := s.ranges[i := r]), req, Some(r))
  {
    var x := s.ranges[i];
    forall j | 0 <= j < |s.ranges| && j != i ensures Apart(s.ranges[j], r) {
      assert !Overlaps(s.ranges[j], req.base, req.End());
      assert Apart(s.ranges[j], x) || Apart(x, s.ranges[j]);
    }
    ReplaceView(s.ranges, s.nextId, i, r);
    NoOverlapView(s.ranges, req.base, req.End());
    var s1 := s.(ranges := s.ranges[i := r]);
    forall a ensures FilledAt(s, s1, req, Some(r), a) {
      if x.Covers(a) {
        ViewIsUnique(s.ranges, s.nextId, i, a);
      }
    }
  }

  // No range at all.
  lemma FillByNothing(s: Space, req: Request)
    requires WellFormed(s.ranges, s.nextId) && NoOverlap(s.ranges, req.base, req.End())
    ensures FilledIn(s, s, req, None)
  {
    NoOverlapView(s.ranges, req.base, req.End());
    forall a ensures FilledAt(s, s, req, None, a) {
    }
  }

  // ----- a request that matches an existing range -----

  lemma FinishExact(s0: Space, s: Space, u: Space, req: Request, i: nat)
    requires Resolving(s0, s, req) && req.Sound() && req.kind != NONE
    requires i < |s.ranges| && req.Exact(s.ranges[i])
    requires var r := s.ranges[i].(flags := req.flags);
      Reassigned(s.(ranges := s.ranges[i := r]), u, PageNumber(req.base), PageNumber(req.End()), Some(r))
    ensures AddedRange(s0, u, req)
  {
    hide WellFormed, Linked, MeaningKept, ResidentKept, PagesKept, EntriesReassigned, PagesReassigned, ResidentAfter;
    var e := s.ranges[i];
    var r := e.(flags := req.flags);
    var s1 := s.(ranges := s.ranges[i := r]);
    RangeIsSound(s.ranges, s.nextId, i);
    assert Overlaps(e, req.base, req.End());
    ExactView(s.ranges, s.nextId, req, i);
    assert Owned(u) by {
      LinkedIgnoresRanges(s, s1);
      ReassignedLinked(s1, u, PageNumber(req.base), PageNumber(req.End()), Some(r));
      assert r.base == req.base && r.End() == req.End();
      assert PageNumber(r.base) == PageNumber(req.base) && PageNumber(r.End()) == PageNumber(req.End());
      EntriesMoved(s, s1, u, r);
      ExactOwned(s, u, req, i);
    }
    assert forall a :: MeaningAt(s0, u, req, a) by {
      ExactMeanings(s0, s, u, req, i);
    }
    assert ResidentAfter(s0, u, req) by {
      ReassignedEntries(s1, u, req.base, req.End(), Some(r));
      ExactResident(s0, s, u, req, i);
    }
    assert PagesKept(u.id, s0.pages, u.pages) by {
      PagesKeptReassigned(s.id, s0.pages, s1, u, PageNumber(req.base), PageNumber(req.End()), Some(r));
    }
  }

  lemma ExactView(rs: seq<MappedRange>, nextId: nat, req: Request, i: nat)
    requires WellFormed(rs, nextId) && req.Sound() && req.kind != NONE
    requires i < |rs| && req.Exact(rs[i])
    ensures var r := rs[i].(flags := req.flags);
      && WellFormed(rs[i := r], nextId)
      && (forall a :: View(rs[i := r], a) == (if req.Contains(a) then Some(r) else View(rs, a)))
  {
    var r := rs[i].(flags := req.flags);
    forall j | 0 <= j < |rs| && j != i ensures Apart(rs[j], r) {
      assert Apart(rs[j], rs[i]) || Apart(rs[i], rs[j]);
    }
    ReplaceView(rs, nextId, i, r);
    assert forall a :: r.Covers(a) <==> req.Contains(a);
    assert forall a :: rs[i].Covers(a) <==> req.Contains(a);
  }

  lemma EntriesMoved(s: Space, s1: Space, u: Space, r: MappedRange)
    requires Linked(s) && Sound(r) && s1.id == s.id && s1.ptes == s.ptes && s1.pages == s.pages
    requires Reassigned(s1, u, PageNumber(r.base), PageNumber(r.End()), Some(r))
    ensures forall v :: v in u.ptes ==> EntryMoved(s, u, r, v)
  {
    forall v | v in u.ptes ensures EntryMoved(s, u, r, v) {
      assert LinkedEntry(s, v);
      ReassignedEntry(s1, u, r, v);
    }
  }

  lemma ExactOwned(s: Space, u: Space, req: Request, i: nat)
    requires WeaklyOwned(s, req.base, req.End()) && Linked(u)
    requires i < |s.ranges| && req.Exact(s.ranges[i])
    requires forall v :: v in u.ptes ==> EntryMoved(s, u, s.ranges[i].(flags := req.flags), v)
    requires forall a ::
      View(u.ranges, a) == (if req.Contains(a) then Some(s.ranges[i].(flags := req.flags)) else View(s.ranges, a))
    ensures Owned(u)
  {
    forall v | v in u.ptes ensures LinkedEntry(u, v) && OwnedEntry(u, v) {
      assert EntryMoved(s, u, s.ranges[i].(flags := req.flags), v);
      assert LinkedEntry(s, v) && (OwnedEntry(s, v) || Dangling(s, v, req.base, req.End()));
      ExactEntry(s, u, req, i, v);
    }
  }

  lemma ExactEntry(s: Space, u: Space, req: Request, i: nat, v: nat)
    requires i < |s.ranges| && req.Exact(s.ranges[i])
    requires v in s.ptes && LinkedEntry(s, v) && v in u.ptes && LinkedEntry(u, v)
    requires OwnedEntry(s, v) || Dangling(s, v, req.base, req.End())
    requires if req.Contains(PageAddr(v)) then Holder(u, v) == s.ranges[i].id && u.ptes[v].flags == req.flags
      else Holder(u, v) == Holder(s, v) && u.ptes[v].flags == s.ptes[v].flags
    requires View(u.ranges, PageAddr(v)) ==
      if req.Contains(PageAddr(v)) then Some(s.ranges[i].(flags := req.flags)) else View(s.ranges, PageAddr(v))
    ensures OwnedEntry(u, v)
  {
    if !req.Contains(PageAddr(v)) {
      assert OwnedEntry(s, v);
    } else {
      assert View(u.ranges, PageAddr(v)) == Some(s.ranges[i].(flags := req.flags));
    }
  }

  lemma ExactMeanings(s0: Space, s: Space, u: Space, req: Request, i: nat)
    requires WellFormed(s0.ranges, s0.nextId) && WellFormed(s.ranges, s.nextId) && MeaningKept(s0, s, req)
    requires i < |s.ranges| && req.Exact(s.ranges[i]) && s.ranges[i] in s0.ranges && req.kind != NONE
    requires forall a ::
      View(u.ranges, a) == (if req.Contains(a) then Some(s.ranges[i].(flags := req.flags)) else View(s.ranges, a))
    ensures forall a :: MeaningAt(s0, u, req, a)
  {
    forall a ensures MeaningAt(s0, u, req, a) {
      assert KeptAt(s0, s, req, a);
      ExactMeaning(s0, s, u, req, i, a);
    }
  }

  lemma ExactMeaning(s0: Space, s: Space, u: Space, req: Request, i: nat, a: nat)
    requires WellFormed(s0.ranges, s0.nextId) && WellFormed(s.ranges, s.nextId)
    requires i < |s.ranges| && req.Exact(s.ranges[i]) && s.ranges[i] in s0.ranges && req.kind != NONE
    requires View(u.ranges, a) ==
      if req.Contains(a) then Some(s.ranges[i].(flags := req.flags)) else View(s.ranges, a)
    requires KeptAt(s0, s, req, a)
    ensures MeaningAt(s0, u, req, a)
  {
    if req.Contains(a) {
      MemberView(s0.ranges, s0.nextId, s.ranges[i], a);
    } else if View(s.ranges, a).Some? {
      var k := IndexOf(s.ranges, a);
      assert k != i;
      assert Apart(s.ranges[k], s.ranges[i]) || Apart(s.ranges[i], s.ranges[k]);
      assert !req.Splits(s.ranges[k]);
    }
  }

  lemma ExactResident(s0: Space, s: Space, u: Space, req: Request, i: nat)
    requires WellFormed(s0.ranges, s0.nextId) && WellFormed(s.ranges, s.nextId) && ResidentKept(s0, s, req)
    requires i < |s.ranges| && req.Exact(s.ranges[i]) && s.ranges[i] in s0.ranges && req.kind != NONE
    requires forall v :: v in u.ptes <==> v in s.ptes
    requires forall v :: v in u.ptes ==> u.ptes[v].pfn == s.ptes[v].pfn
    ensures ResidentAfter(s0, u, req)
  {
    forall v | v in s0.ptes ensures v in u.ptes <==> !Lost(s0, req, v) {
      if req.Contains(PageAddr(v)) {
        MemberView(s0.ranges, s0.nextId, s.ranges[i], PageAddr(v));
        ViewIsUnique(s.ranges, s.nextId, i, PageAddr(v));
      }
    }
  }

  // When the protection stays the same, so do the entries.
  lemma ExactWithoutChange(s0: Space, s: Space, req: Request, i: nat)
    requires Resolving(s0, s, req) && req.Sound()
    requires i < |s.ranges| && req.Exact(s.ranges[i])
    ensures Reassigned(s, s, PageNumber(req.base), PageNumber(req.End()), Some(s.ranges[i]))
  {
    var e := s.ranges[i];
    forall v | v in s.ptes && PageNumber(req.base) <= v < PageNumber(req.End())
      ensures s.ptes[v].flags == e.flags
    {
      assert LinkedEntry(s, v);
      ExactEntryHeld(s, req, i, v);
    }
    forall f | f in s.pages
      ensures s.pages[f] == MovedPage(s.id, PageNumber(req.base), PageNumber(req.End()), Some(e), s.pages[f])
    {
      if InSpan(s.id, PageNumber(req.base), PageNumber(req.End()), s.pages[f]) {
        assert LinkedPage(s, f);
        assert LinkedEntry(s, PageNumber(s.pages[f].mappedAddr));
        ExactEntryHeld(s, req, i, PageNumber(s.pages[f].mappedAddr));
      }
    }
  }

  lemma ExactEntryHeld(s: Space, req: Request, i: nat, v: nat)
    requires WellFormed(s.ranges, s.nextId) && req.Sound()
    requires i < |s.ranges| && req.Exact(s.ranges[i])
    requires v in s.ptes && PageNumber(req.base) <= v < PageNumber(req.End())
    requires LinkedEntry(s, v) && (OwnedEntry(s, v) || Dangling(s, v, req.base, req.End()))
    ensures s.ptes[v].flags == s.ranges[i].flags && Holder(s, v) == s.ranges[i].id
  {
    SpanCovers(req.base, req.End(), v);
    ViewIsUnique(s.ranges, s.nextId, i, PageAddr(v));
  }
}
