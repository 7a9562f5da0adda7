/**
 What a process sees in its address space, and what one address space can do to another.
 */
module MemoryMeaning {

  import opened Lists
  import opened PhysicalMemory
  import opened RangeList
  import opened FrameOwnership

  // The contents of files: the byte of a file at an offset.
  type Files = (nat, int) -> bv8

  // What a load from address a returns: the resident page if there is one, else what a page fault
  // would bring in; None is a fault that cannot be handled.
  ghost function ByteAt(s: Space, files: Files, a: nat): Option<bv8> {
    var r := View(s.ranges, a);
    var v := PageNumber(a);
    if r.None? then None
    else if v in s.ptes && s.ptes[v].pfn in s.pages then Some(s.pages[s.ptes[v].pfn].data[a % 4096])
    else if r.value.kind == FILE && r.value.file.Some? then Some(files(r.value.file.value, r.value.BackingOffset(a)))
    else Some(0)
  }

  // Pages that do not belong to the space with this id: in use elsewhere, or allocated but on no list.
  predicate Foreign(id: nat, link: Link) {
    match link
    case Detached => true
    case OnFreelist => false
    case OnRange(space, _) => space != id
    case OnTables(space) => space != id
  }

  // What every operation of a space keeps: foreign pages stay as they are, and pages that are free or
  // belong to the space stay free or in the space, so that none is lost.
  ghost predicate ForeignKept(id: nat, p: map<Pfn, Page>, q: map<Pfn, Page>) {
    && q.Keys == p.Keys
    && (forall f :: f in p ==> ForeignPageKept(id, p[f], q[f]))
  }

  predicate ForeignPageKept(id: nat, p: Page, q: Page) {
    if Foreign(id, p.link) then q == p else !Foreign(id, q.link)
  }

  lemma ForeignKeptTransitive(id: nat, p: map<Pfn, Page>, q: map<Pfn, Page>, r: map<Pfn, Page>)
    requires ForeignKept(id, p, q) && ForeignKept(id, q, r)
    ensures ForeignKept(id, p, r)
  {
    forall f | f in p ensures ForeignPageKept(id, p[f], r[f]) {
      assert ForeignPageKept(id, p[f], q[f]) && ForeignPageKept(id, q[f], r[f]);
    }
  }

  lemma PagesKeptIsForeignKept(id: nat, p: map<Pfn, Page>, q: map<Pfn, Page>)
    requires PagesKept(id, p, q)
    ensures ForeignKept(id, p, q)
  {
    forall f | f in p ensures ForeignPageKept(id, p[f], q[f]) {
      assert PageKept(id, p[f], q[f]);
    }
  }

  /** An operation of one address space leaves every other one alone: it still owns its pages and
      reads the same bytes. */
  lemma OtherSpaceUnaffected(id: nat, s: Space, q: map<Pfn, Page>, files: Files)
    requires s.id != id && Owned(s) && ForeignKept(id, s.pages, q)
    ensures Owned(s.(pages := q))
    ensures forall a: nat :: ByteAt(s.(pages := q), files, a) == ByteAt(s, files, a)
  {
    var t := s.(pages := q);
    forall v | v in s.ptes
      ensures LinkedEntry(t, v) && OwnedEntry(t, v) && q[s.ptes[v].pfn] == s.pages[s.ptes[v].pfn]
    {
      assert LinkedEntry(s, v) && OwnedEntry(s, v);
      assert ForeignPageKept(id, s.pages[s.ptes[v].pfn], q[s.ptes[v].pfn]);
    }
    forall f | f in q && OwnLink(s.id, q[f].link) ensures LinkedPage(t, f) {
      assert ForeignPageKept(id, s.pages[f], q[f]);
      assert LinkedPage(s, f);
    }
    forall a: nat ensures ByteAt(t, files, a) == ByteAt(s, files, a) {
      if PageNumber(a) in s.ptes {
        assert LinkedEntry(s, PageNumber(a)) && LinkedEntry(t, PageNumber(a));
      }
    }
  }

  /** Two address spaces never share a page. */
  lemma SpacesAreDisjoint(s: Space, t: Space, v: nat, w: nat)
    requires s.pages == t.pages && s.id != t.id && Linked(s) && Linked(t)
    requires v in s.ptes && w in t.ptes
    ensures s.ptes[v].pfn != t.ptes[w].pfn
  {
    assert LinkedEntry(s, v) && LinkedEntry(t, w);
  }

  /** Nor do two addresses of one space. */
  lemma PagesAreNotAliased(s: Space, v: nat, w: nat)
    requires Linked(s) && v in s.ptes && w in s.ptes && s.ptes[v].pfn == s.ptes[w].pfn
    ensures v == w
  {
    assert LinkedEntry(s, v) && LinkedEntry(s, w);
  }

  // Address a reads from the backing file at the same place before and after.
  ghost predicate BackingKept(e: Option<MappedRange>, r: Option<MappedRange>, a: nat) {
    e.Some? && r.Some? && r.value.file == e.value.file && r.value.BackingOffset(a) == e.value.BackingOffset(a)
  }

  /** An address outside the request keeps its place in the backing file if and only if its range is
      not cut in two to the left of it, or was never trimmed at the front. */
  lemma BackingKeptIff(s0: Space, u: Space, req: Request, a: nat)
    requires AddedRange(s0, u, req) && !req.Contains(a) && View(s0.ranges, a).Some?
    ensures var e := View(s0.ranges, a).value;
      BackingKept(View(s0.ranges, a), View(u.ranges, a), a) <==>
        (req.Splits(e) && a >= req.End() ==> e.base == e.originalBase)
  {
    assert MeaningAt(s0, u, req, a);
  }

  /** A fault at page v brings in what ByteAt promised: demand paging cannot be observed. */
  lemma FaultIsTransparent(s: Space, t: Space, files: Files, v: nat, f: Pfn, r: MappedRange)
    requires Linked(s) && v !in s.ptes && f in t.pages
    requires r.base <= PageAddr(v) && PageAddr(v) + 4096 <= r.End()
    requires View(s.ranges, PageAddr(v)) == Some(r)
    requires forall a: nat :: PageNumber(a) == v ==> View(s.ranges, a) == Some(r)
    requires t.ranges == s.ranges && t.ptes == s.ptes[v := Pte(f, r.flags)]
    requires forall g :: g in s.pages && OwnLink(s.id, s.pages[g].link) ==> g in t.pages && t.pages[g] == s.pages[g]
    requires t.pages[f].data == FaultData(r, files, PageAddr(v))
    ensures forall a: nat :: ByteAt(t, files, a) == ByteAt(s, files, a)
  {
    forall a: nat ensures ByteAt(t, files, a) == ByteAt(s, files, a) {
      if PageNumber(a) in s.ptes {
        assert LinkedEntry(s, PageNumber(a));
      } else if PageNumber(a) == v {
        assert a == PageAddr(v) + a % 4096;
        assert r.kind == FILE && r.file.Some? ==> r.BackingOffset(a) == r.BackingOffset(PageAddr(v)) + a % 4096;
      }
    }
  }

  // What a page fault puts into the new page.
  function FaultData(r: MappedRange, files: Files, pageVirt: nat): PageData {
    if r.kind == FILE && r.file.Some? then
      seq(4096, i => files(r.file.value, r.BackingOffset(pageVirt) + i))
    else
      ZeroPage()
  }

  // ----- taking pages off the freelist -----

  // Putting a free page to use.
  ghost predicate TookPage(p: map<Pfn, Page>, q: map<Pfn, Page>, f: Pfn, page: Page) {
    f in p && p[f].link == OnFreelist && !page.free && page.link != OnFreelist && q == p[f := page]
  }

  lemma TookPageForeignKept(id: nat, p: map<Pfn, Page>, q: map<Pfn, Page>, f: Pfn, page: Page)
    requires TookPage(p, q, f, page) && !Foreign(id, page.link)
    ensures ForeignKept(id, p, q)
  {
  }

  // A page for a page table.
  lemma TookTableOwned(s: Space, q: map<Pfn, Page>, f: Pfn, page: Page)
    requires Owned(s) && TookPage(s.pages, q, f, page) && !OwnLink(s.id, page.link)
    ensures Owned(s.(pages := q))
  {
    var t := s.(pages := q);
    forall v | v in t.ptes ensures LinkedEntry(t, v) && OwnedEntry(t, v) {
      assert LinkedEntry(s, v) && OwnedEntry(s, v);
    }
    forall g | g in t.pages && OwnLink(t.id, t.pages[g].link) ensures LinkedPage(t, g) {
      assert LinkedPage(s, g);
    }
  }

  // A page that becomes resident in the range that contains its address.
  lemma TookPageOwned(s: Space, t: Space, v: nat, r: MappedRange, f: Pfn, page: Page)
    requires Owned(s) && TookPage(s.pages, t.pages, f, page)
    requires v !in s.ptes && View(s.ranges, PageAddr(v)) == Some(r)
    requires page.link == OnRange(s.id, r.id) && page.mappedAddr == PageAddr(v)
    requires t == s.(ptes := s.ptes[v := Pte(f, r.flags)], pages := t.pages)
    ensures Owned(t)
  {
    forall w | w in t.ptes ensures LinkedEntry(t, w) && OwnedEntry(t, w) {
      if w != v {
        assert LinkedEntry(s, w) && OwnedEntry(s, w);
      }
    }
    forall g | g in t.pages && OwnLink(t.id, t.pages[g].link) ensures LinkedPage(t, g) {
      if g != f {
        assert LinkedPage(s, g);
      }
    }
  }

  // ----- page tables -----

  // A page table: its level (1 maps pages, 4 is the root) and the part of the page number above it.
  datatype TableKey = TableKey(level: nat, prefix: nat)

  // The number of pages that one table of a level covers, as a divisor of page numbers.
  function Coverage(level: nat): nat
    ensures 1 <= Coverage(level)
  {
    if level == 1 then 512 else if level == 2 then 262144 else if level == 3 then 134217728 else 68719476736
  }

  function KeyOf(level: nat, v: nat): TableKey {
    TableKey(level, v / Coverage(level))
  }

  predicate HasPath(tables: map<TableKey, Pfn>, v: nat) {
    KeyOf(3, v) in tables && KeyOf(2, v) in tables && KeyOf(1, v) in tables
  }

  // The pages whose link is on a list.
  function PageList(pages: map<Pfn, Page>, list: Link): set<Pfn> {
    set f | f in pages && pages[f].link == list
  }

  // The pages on the page table list are exactly those of the tables, each for one table, and every
  // present entry lies in a table that can be reached.
  ghost predicate TablesOwned(id: nat, tables: map<TableKey, Pfn>, ptes: map<nat, Pte>, pages: map<Pfn, Page>) {
    && PageList(pages, OnTables(id)) == tables.Values
    && (forall k, l :: k in tables && l in tables && tables[k] == tables[l] ==> k == l)
    && (forall v :: v in ptes ==> HasPath(tables, v))
  }

  lemma TookTable(id: nat, tables: map<TableKey, Pfn>, ptes: map<nat, Pte>, p: map<Pfn, Page>, q: map<Pfn, Page>,
                  k: TableKey, f: Pfn, page: Page)
    requires TablesOwned(id, tables, ptes, p) && TookPage(p, q, f, page)
    requires k !in tables && page.link == OnTables(id)
    ensures TablesOwned(id, tables[k := f], ptes, q)
  {
    var ts := tables[k := f];
    assert forall l :: l in tables ==> tables[l] in PageList(p, OnTables(id));
    assert f !in PageList(p, OnTables(id));
    forall g ensures g in ts.Values <==> g in PageList(q, OnTables(id)) {
      if g in PageList(q, OnTables(id)) && g != f {
        assert g in PageList(p, OnTables(id));
        var l :| l in tables && tables[l] == g;
        assert ts[l] == g;
      }
      if g == f {
        assert ts[k] == f;
      }
      if g in ts.Values && g != f {
        var l :| l in ts && ts[l] == g;
        assert l in tables && tables[l] == g;
        assert g in PageList(p, OnTables(id));
      }
    }
  }

  // Operations that do not touch table pages.
  lemma TablesKept(id: nat, tables: map<TableKey, Pfn>, ptes: map<nat, Pte>, p: map<Pfn, Page>,
                   ptes': map<nat, Pte>, q: map<Pfn, Page>)
    requires TablesOwned(id, tables, ptes, p)
    requires q.Keys == p.Keys
    requires forall f :: f in p ==> (q[f].link == OnTables(id) <==> p[f].link == OnTables(id))
    requires forall v :: v in ptes' ==> v in ptes || HasPath(tables, v)
    ensures TablesOwned(id, tables, ptes', q)
  {
    assert PageList(q, OnTables(id)) == PageList(p, OnTables(id));
  }

  /** No page is lost: the pages that are free, on a page list of the space or used for its tables are
      the same pages before and after. */
  lemma NoPageIsLost(id: nat, p: map<Pfn, Page>, q: map<Pfn, Page>)
    requires ForeignKept(id, p, q)
    ensures (set f | f in p && !Foreign(id, p[f].link)) == (set f | f in q && !Foreign(id, q[f].link))
  {
    forall f | f in p ensures Foreign(id, p[f].link) <==> Foreign(id, q[f].link) {
      assert ForeignPageKept(id, p[f], q[f]);
    }
  }
}
