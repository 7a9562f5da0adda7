/**
 The physical page allocator (kernel/kernel/src/mem/pmm.cpp, pmm.hpp).

 A page struct carries one intrusive list link.  The model keeps, for every page, the list
 that its link is on; a page is therefore on at most one list, as in the source, and
 putting a page on a list is only legal when its link is detached.
 */
module PhysicalMemory {

  import opened Lists

  const PAGE_SIZE: nat := 4096
  const SIZEOF_PAGE: nat := 32
  const SIZEOF_REGION: nat := 32

  // Addresses and page numbers; the page size is written out to keep the arithmetic linear.
  function PageAddr(v: nat): nat {
    v * 4096
  }

  function PageNumber(a: nat): nat {
    a / 4096
  }

  predicate Aligned(a: nat) {
    a % 4096 == 0
  }

  // Page frame number: the physical address divided by the page size.
  type Pfn = nat

  // The list that the intrusive link of a page struct is on.
  datatype Link =
    | Detached
    | OnFreelist
    | OnRange(space: nat, range: nat)
    | OnTables(space: nat)

  // The bytes of a page frame.
  type PageData = data: seq<bv8> | |data| == 4096 witness ZeroPage()

  function ZeroPage(): seq<bv8> {
    seq(4096, _ => 0)
  }

  // A page struct, together with the contents of the page frame that it describes.
  datatype Page = Page(free: bool, mappedAddr: nat, link: Link, data: PageData)

  // A span of physical memory.  Its first pages hold the region header and the page structs.
  datatype Region = Region(basePfn: Pfn, numPages: nat) {
    function NumPagesReserved(): nat {
      (SIZEOF_REGION + numPages * SIZEOF_PAGE + PAGE_SIZE - 1) / PAGE_SIZE
    }

    function NumPagesUsable(): int {
      numPages - NumPagesReserved()
    }

    function FirstUsable(): Pfn {
      basePfn + NumPagesReserved()
    }

    function EndPfn(): Pfn {
      basePfn + numPages
    }
  }

  /** For every region of at least one page, the header and the page structs of all usable
      pages fit in the reserved pages, and the reserved pages lie inside the region. */
  lemma PageStructsFitInReservedPages(r: Region)
    requires 1 <= r.numPages
    ensures 1 <= r.NumPagesReserved() <= r.numPages
    ensures SIZEOF_REGION + r.NumPagesUsable() * SIZEOF_PAGE <= r.NumPagesReserved() * PAGE_SIZE
    ensures r.FirstUsable() + r.NumPagesUsable() == r.EndPfn()
  {
  }

  ghost predicate ValidRegions(regions: seq<Region>) {
    && (forall i :: 0 <= i < |regions| ==> 1 <= regions[i].numPages)
    && (forall i, j :: 0 <= i < j < |regions| ==>
          regions[i].EndPfn() <= regions[j].basePfn || regions[j].EndPfn() <= regions[i].basePfn)
  }

  predicate UsableIn(r: Region, f: Pfn) {
    r.FirstUsable() <= f < r.EndPfn()
  }

  // The pages that have a page struct.
  function ManagedPages(regions: seq<Region>): set<Pfn> {
    if regions == [] then {}
    else
      var r := regions[|regions| - 1];
      ManagedPages(regions[..|regions| - 1]) + set f: Pfn | r.FirstUsable() <= f < r.EndPfn() && UsableIn(r, f)
  }

  lemma {:induction false} ManagedPagesAreUsable(regions: seq<Region>)
    ensures forall f :: f in ManagedPages(regions) <==>
      exists i :: 0 <= i < |regions| && UsableIn(regions[i], f)
  {
    if regions != [] {
      var n := |regions| - 1;
      ManagedPagesAreUsable(regions[..n]);
      forall f ensures f in ManagedPages(regions) <==> exists i :: 0 <= i < |regions| && UsableIn(regions[i], f) {
        if f in ManagedPages(regions[..n]) {
          var i :| 0 <= i < n && UsableIn(regions[..n][i], f);
          assert UsableIn(regions[i], f);
        }
        if i :| 0 <= i < |regions| && UsableIn(regions[i], f) {
          if i < n {
            assert UsableIn(regions[..n][i], f);
          }
        }
        if UsableIn(regions[n], f) {
          assert f in ManagedPages(regions);
        }
      }
    }
  }

  // A page is on the freelist exactly when its free bit is set, and it is there once.
  ghost predicate FreelistMatches(freelist: seq<Pfn>, pages: map<Pfn, Page>) {
    && NoDuplicates(freelist)
    && (forall f :: f in freelist <==> f in pages && pages[f].free)
    && (forall f :: f in pages ==> (pages[f].free <==> pages[f].link == OnFreelist))
  }

  // All n pages starting at frame f are free.
  ghost predicate FreeRun(pages: map<Pfn, Page>, f: Pfn, n: nat) {
    forall k :: f <= k < f + n ==> k in pages && pages[k].free
  }

  // The candidates for a run of n pages in a region, in the order of a naive search.
  ghost predicate RunStart(r: Region, n: nat, f: Pfn) {
    r.FirstUsable() <= f && f + n <= r.EndPfn()
  }

  // f is the first run that a naive search over all regions and all start pages finds.
  ghost predicate FirstRun(regions: seq<Region>, pages: map<Pfn, Page>, n: nat, f: Pfn) {
    exists i :: 0 <= i < |regions| && FirstRunIn(regions, pages, n, f, i)
  }

  ghost predicate FirstRunIn(regions: seq<Region>, pages: map<Pfn, Page>, n: nat, f: Pfn, i: nat)
    requires i < |regions|
  {
    && RunStart(regions[i], n, f)
    && FreeRun(pages, f, n)
    && (forall g: Pfn :: RunStart(regions[i], n, g) && g < f ==> !FreeRun(pages, g, n))
    && NoRunBefore(regions, pages, n, i) && LongEnough(regions, n, i)
  }

  ghost predicate NoRunBefore(regions: seq<Region>, pages: map<Pfn, Page>, n: nat, i: nat)
    requires i <= |regions|
  {
    forall j, g: Pfn :: 0 <= j < i && RunStart(regions[j], n, g) ==> !FreeRun(pages, g, n)
  }

  // What the search for a run of n pages ends in: no run, its first page, or the first region with fewer
  // than n usable pages.  The bound of the loop over a region is an unsigned difference, so there the
  // search reads on behind the page structs of the region.
  datatype RunResult = NoRun | Run(first: Pfn) | Overrun(region: nat)

  ghost predicate LongEnough(regions: seq<Region>, n: nat, i: nat)
    requires i <= |regions|
  {
    forall j :: 0 <= j < i ==> n <= regions[j].NumPagesUsable()
  }

  ghost predicate SearchedFor(regions: seq<Region>, pages: map<Pfn, Page>, n: nat, run: RunResult) {
    match run
    case NoRun => NoRunBefore(regions, pages, n, |regions|) && LongEnough(regions, n, |regions|)
    case Run(f) => FirstRun(regions, pages, n, f)
    case Overrun(i) =>
      i < |regions| && regions[i].NumPagesUsable() < n
      && NoRunBefore(regions, pages, n, i) && LongEnough(regions, n, i)
  }

  // What taking the pages f .. f+n off the freelist does to the page structs.
  ghost function Taken(pages: map<Pfn, Page>, f: Pfn, n: nat): map<Pfn, Page> {
    map k | k in pages :: if f <= k < f + n then pages[k].(free := false, link := Detached) else pages[k]
  }

  lemma TakenNone(pages: map<Pfn, Page>, f: Pfn)
    ensures Taken(pages, f, 0) == pages
  {
  }

  lemma TakenStep(pages: map<Pfn, Page>, f: Pfn, j: nat)
    requires f + j in pages
    ensures f + j in Taken(pages, f, j) && Taken(pages, f, j)[f + j] == pages[f + j]
    ensures Taken(pages, f, j + 1) == Taken(pages, f, j)[f + j := pages[f + j].(free := false, link := Detached)]
  {
  }

  lemma TakeOne(freelist: seq<Pfn>, pages: map<Pfn, Page>, f: Pfn)
    requires FreelistMatches(freelist, pages)
    requires f in pages && pages[f].free
    ensures FreelistMatches(Without(freelist, f), pages[f := pages[f].(free := false, link := Detached)])
    ensures |Without(freelist, f)| == |freelist| - 1
    ensures forall k :: k in Without(freelist, f) <==> k in freelist && k != f
  {
    WithoutMembers(freelist, f);
  }

  // What freeing the pages f .. f+n does to the page structs.
  ghost function Freed(pages: map<Pfn, Page>, f: Pfn, n: nat): map<Pfn, Page> {
    map k | k in pages ::
      if f <= k < f + n then pages[k].(free := true, mappedAddr := 0, link := OnFreelist) else pages[k]
  }

  lemma FreedStep(pages: map<Pfn, Page>, f: Pfn, j: nat)
    requires f + j in pages
    ensures Freed(pages, f, 0) == pages
    ensures f + j in Freed(pages, f, j) && Freed(pages, f, j)[f + j] == pages[f + j]
    ensures Freed(pages, f, j + 1) ==
      Freed(pages, f, j)[f + j := pages[f + j].(free := true, mappedAddr := 0, link := OnFreelist)]
  {
  }

  lemma FreedNothing(pages: map<Pfn, Page>, f: Pfn)
    ensures Freed(pages, f, 0) == pages
  {
  }

  lemma FreedSkip(pages: map<Pfn, Page>, f: Pfn, j: nat)
    requires f + j !in pages
    ensures Freed(pages, f, j + 1) == Freed(pages, f, j)
  {
  }

  lemma FreedMembers(l: seq<Pfn>, pages: map<Pfn, Page>, l': seq<Pfn>, f: Pfn, n: nat)
    requires FreelistMatches(l, pages) && FreelistMatches(l', Freed(pages, f, n))
    ensures forall k :: k in l' <==> k in l || (f <= k < f + n && k in pages)
  {
  }

  lemma FreeOne(freelist: seq<Pfn>, pages: map<Pfn, Page>, f: Pfn)
    requires FreelistMatches(freelist, pages)
    requires f in pages && !pages[f].free
    ensures FreelistMatches([f] + freelist,
                            pages[f := pages[f].(free := true, mappedAddr := 0, link := OnFreelist)])
  {
    assert f !in freelist;
  }

  lemma TakeFirst(freelist: seq<Pfn>, pages: map<Pfn, Page>)
    requires FreelistMatches(freelist, pages) && freelist != []
    ensures var f := freelist[0];
      f in pages && pages[f].free
      && FreelistMatches(freelist[1..], pages[f := pages[f].(free := false, link := Detached)])
  {
    var f := freelist[0];
    assert f in freelist;
    assert freelist == [f] + freelist[1..];
  }

  lemma FreelistKept(freelist: seq<Pfn>, pages: map<Pfn, Page>, f: Pfn, page: Page)
    requires FreelistMatches(freelist, pages)
    requires f in pages && page.free == pages[f].free
    requires page.free <==> page.link == OnFreelist
    ensures FreelistMatches(freelist, pages[f := page])
  {
  }

  // What find_page returns: no page struct, that of a frame, or the memory behind the page structs of a region.
  datatype FoundPage = NoPage | PageStruct(pfn: Pfn) | BehindStructs(region: Region)

  // pages_array()[i]
  function StructAt(region: Region, i: nat): FoundPage {
    if i < region.NumPagesUsable() then PageStruct(region.FirstUsable() + i) else BehindStructs(region)
  }

  // The first region that find_page takes a frame to be in; the comparison with its end is inclusive.
  function Holding(regions: seq<Region>, f: Pfn): nat {
    if regions == [] || regions[0].basePfn <= f <= regions[0].EndPfn() then 0 else 1 + Holding(regions[1..], f)
  }

  function FindResult(regions: seq<Region>, f: Pfn): FoundPage {
    var i := Holding(regions, f);
    if i >= |regions| || f < regions[i].FirstUsable() then NoPage
    else StructAt(regions[i], f - regions[i].FirstUsable())
  }

  lemma {:induction false} HoldingIsFirst(regions: seq<Region>, f: Pfn)
    ensures Holding(regions, f) <= |regions|
    ensures Holding(regions, f) < |regions| ==>
      regions[Holding(regions, f)].basePfn <= f <= regions[Holding(regions, f)].EndPfn()
    ensures forall j :: 0 <= j < Holding(regions, f) ==> !(regions[j].basePfn <= f <= regions[j].EndPfn())
  {
    if regions != [] && !(regions[0].basePfn <= f <= regions[0].EndPfn()) {
      HoldingIsFirst(regions[1..], f);
    }
  }

  /** find_page returns the page struct of a frame that has one and nothing for any other frame, if and only
      if the first region that does not start behind the frame or end in front of it does not end exactly
      there. */
  lemma FindPageRightIff(regions: seq<Region>, f: Pfn)
    requires ValidRegions(regions)
    ensures FindResult(regions, f) == (if f in ManagedPages(regions) then PageStruct(f) else NoPage) <==>
      !(Holding(regions, f) < |regions| && regions[Holding(regions, f)].EndPfn() == f)
  {
    var i := Holding(regions, f);
    HoldingIsFirst(regions, f);
    ManagedPagesAreUsable(regions);
    if i < |regions| {
      PageStructsFitInReservedPages(regions[i]);
      forall j | 0 <= j < |regions| && j != i ensures !UsableIn(regions[j], f) {
        PageStructsFitInReservedPages(regions[j]);
      }
    }
  }

  // A frame with a page struct is found.
  lemma ManagedIsFound(regions: seq<Region>, f: Pfn)
    requires ValidRegions(regions) && f in ManagedPages(regions)
    ensures FindResult(regions, f) == PageStruct(f)
  {
    var i := Holding(regions, f);
    HoldingIsFirst(regions, f);
    ManagedPagesAreUsable(regions);
    var j :| 0 <= j < |regions| && UsableIn(regions[j], f);
    PageStructsFitInReservedPages(regions[j]);
    assert i == j;
  }

  lemma FoundIsManaged(regions: seq<Region>, f: Pfn)
    requires ValidRegions(regions) && !FindResult(regions, f).BehindStructs?
    ensures FindResult(regions, f) == if f in ManagedPages(regions) then PageStruct(f) else NoPage
  {
    HoldingIsFirst(regions, f);
    FindPageRightIff(regions, f);
  }

  /** It goes wrong for the frame behind a region of 16 pages. */
  lemma FindsFrameBehindRegion()
    ensures ValidRegions([Region(16, 16)]) && 32 !in ManagedPages([Region(16, 16)])
    ensures FindResult([Region(16, 16)], 32) == BehindStructs(Region(16, 16))
  {
    ManagedPagesAreUsable([Region(16, 16)]);
  }

  class PageAllocator {
    var regions: seq<Region>
    var pages: map<Pfn, Page>
    var freelist: seq<Pfn>
    var totalFreePages: nat

    ghost predicate Valid()
      reads this
    {
      && ValidRegions(regions)
      && pages.Keys == ManagedPages(regions)
      && FreelistMatches(freelist, pages)
      && totalFreePages == |freelist|
    }

    constructor ()
      ensures Valid()
      ensures regions == [] && freelist == []
    {
      regions, pages, freelist, totalFreePages := [], map[], [], 0;
    }

    /** Adds a usable span of memory.  The pages of the new region join the tail of the freelist in ascending
        order.  false stands for an entry that is rounded down to no page at all: the number of its page structs
        is an unsigned difference, and the original runs off building them. */
    method AbsorbMemmapEntry(base: nat, length: nat, contents: map<Pfn, PageData>) returns (ok: bool)
      requires Valid()
      requires forall r :: r in regions ==>
        r.EndPfn() <= AbsorbedStart(base) || AbsorbedStart(base) + AbsorbedPages(base, length) <= r.basePfn
      requires forall f :: AbsorbedStart(base) <= f < AbsorbedStart(base) + AbsorbedPages(base, length) ==> f in contents
      modifies this
      ensures Valid()
      ensures ok <==> 1 <= AbsorbedPages(base, length)
      ensures !ok ==> regions == old(regions) && pages == old(pages) && freelist == old(freelist)
      ensures ok ==> regions == old(regions) + [Region(AbsorbedStart(base), AbsorbedPages(base, length))]
      ensures ok ==> old(freelist) <= freelist
      ensures ok ==> var r := regions[|regions| - 1];
        && |freelist| == |old(freelist)| + r.NumPagesUsable()
        && forall i :: |old(freelist)| <= i < |freelist| ==> freelist[i] == r.FirstUsable() + i - |old(freelist)|
      ensures forall f :: f in old(pages) ==> f in pages && pages[f] == old(pages)[f]
    {
      if AbsorbedPages(base, length) < 1 {
        return false;
      }
      hide FreelistMatches, ManagedPages, ValidRegions;
      var region := Region(AbsorbedStart(base), AbsorbedPages(base, length));
      PageStructsFitInReservedPages(region);
      ghost var regions0, pages0, freelist0 := regions, pages, freelist;
      NewRegionIsNotManaged(regions0, region);
      regions := regions + [region];
      AppendPageStructs(region, contents);
      AbsorbedFreelist(freelist0, freelist, region.FirstUsable(), region.NumPagesUsable(), pages0, pages);
      AbsorbedKeys(regions0, region, freelist0, freelist, pages0, pages);
      RegionsStayApart(regions0, region);
      return true;
    }

    // Builds the page structs of a region in its reserved pages.
    method AppendPageStructs(region: Region, contents: map<Pfn, PageData>)
      requires 0 <= region.NumPagesUsable()
      requires totalFreePages == |freelist|
      requires forall f :: region.FirstUsable() <= f < region.EndPfn() ==> f !in pages && f in contents
      modifies this`pages, this`freelist, this`totalFreePages
      ensures Absorbed(old(freelist), freelist, region.FirstUsable(), region.NumPagesUsable(), old(pages), pages)
      ensures totalFreePages == |freelist|
    {
      hide Absorbed;
      AbsorbedNothing(freelist, region.FirstUsable(), pages);
      var i := 0;
      while i < region.NumPagesUsable()
        invariant 0 <= i <= region.NumPagesUsable()
        invariant Absorbed(old(freelist), freelist, region.FirstUsable(), i, old(pages), pages)
        invariant totalFreePages == |freelist|
      {
        var f := region.FirstUsable() + i;
        AbsorbStep(old(freelist), freelist, region.FirstUsable(), i, old(pages), pages, contents[f]);
        pages := pages[f := Page(true, 0, OnFreelist, contents[f])];
        freelist := freelist + [f];
        totalFreePages := totalFreePages + 1;
        i := i + 1;
      }
    }

    method AllocPage() returns (page: Option<Pfn>)
      requires Valid()
      modifies this`pages, this`freelist, this`totalFreePages
      ensures Valid()
      ensures page.None? <==> old(freelist) == []
      ensures page.None? ==> pages == old(pages) && freelist == old(freelist)
      ensures page.Some? ==>
        && page.value == old(freelist)[0]
        && page.value in old(pages) && old(pages)[page.value].free
        && pages == old(pages)[page.value := old(pages)[page.value].(free := false, link := Detached)]
        && freelist == old(freelist)[1..]
    {
      if freelist == [] {
        return None; // panic("Out of physical memory")
      }
      var f := freelist[0];
      TakeFirst(freelist, pages);
      pages := pages[f := pages[f].(free := false, link := Detached)];
      freelist := freelist[1..];
      totalFreePages := totalFreePages - 1;
      assert pages.Keys == old(pages).Keys;
      return Some(f);
    }

    method FreePage(f: Pfn)
      requires Valid()
      requires f in pages && !pages[f].free && pages[f].link == Detached
      modifies this`pages, this`freelist, this`totalFreePages
      ensures Valid()
      ensures pages == old(pages)[f := old(pages)[f].(free := true, mappedAddr := 0, link := OnFreelist)]
      ensures freelist == [f] + old(freelist)
    {
      FreeOne(freelist, pages, f);
      pages := pages[f := pages[f].(free := true, mappedAddr := 0, link := OnFreelist)];
      freelist := [f] + freelist;
      totalFreePages := totalFreePages + 1;
      assert pages.Keys == old(pages).Keys;
    }

    // page->link.remove()
    method Unlink(f: Pfn)
      requires Valid()
      requires f in pages && !pages[f].free
      modifies this`pages
      ensures Valid()
      ensures pages == old(pages)[f := old(pages)[f].(link := Detached)]
    {
      FreelistKept(freelist, pages, f, pages[f].(link := Detached));
      pages := pages[f := pages[f].(link := Detached)];
      assert pages.Keys == old(pages).Keys;
    }

    // list.add_before(&page->link), which would corrupt the list if the page were still on another one
    method AddToList(f: Pfn, list: Link)
      requires Valid()
      requires f in pages && pages[f].link == Detached
      requires list != OnFreelist && list != Detached
      modifies this`pages
      ensures Valid()
      ensures pages == old(pages)[f := old(pages)[f].(link := list)]
    {
      FreelistKept(freelist, pages, f, pages[f].(link := list));
      pages := pages[f := pages[f].(link := list)];
      assert pages.Keys == old(pages).Keys;
    }

    method SetMappedAddr(f: Pfn, addr: nat)
      requires Valid() && f in pages
      modifies this`pages
      ensures Valid()
      ensures pages == old(pages)[f := old(pages)[f].(mappedAddr := addr)]
    {
      FreelistKept(freelist, pages, f, pages[f].(mappedAddr := addr));
      pages := pages[f := pages[f].(mappedAddr := addr)];
      assert pages.Keys == old(pages).Keys;
    }

    method SetData(f: Pfn, data: PageData)
      requires Valid() && f in pages
      modifies this`pages
      ensures Valid()
      ensures pages == old(pages)[f := old(pages)[f].(data := data)]
    {
      FreelistKept(freelist, pages, f, pages[f].(data := data));
      pages := pages[f := pages[f].(data := data)];
      assert pages.Keys == old(pages).Keys;
    }

    /** find_page: address to page struct. */
    method FindPage(f: Pfn) returns (page: FoundPage)
      requires Valid()
      ensures page == FindResult(regions, f)
    {
      var i := 0;
      while i < |regions|
        invariant 0 <= i <= |regions|
        invariant Holding(regions, f) == i + Holding(regions[i..], f)
      {
        var region := regions[i];
        if region.basePfn <= f <= region.EndPfn() {
          var offsetPages := f - region.basePfn;
          if offsetPages < region.NumPagesReserved() {
            return NoPage;
          }
          return StructAt(region, offsetPages - region.NumPagesReserved());
        }
        i := i + 1;
      }
      return NoPage;
    }

    // The inner loop of the search: how many of the n pages from f on are free before the first that is not.
    method FirstNotFree(f: Pfn, n: nat) returns (j: nat)
      requires forall k :: f <= k < f + n ==> k in pages
      ensures j <= n && FreeRun(pages, f, j)
      ensures j < n ==> !pages[f + j].free
    {
      j := 0;
      while j < n
        invariant 0 <= j <= n
        invariant FreeRun(pages, f, j)
      {
        if !pages[f + j].free {
          return;
        }
        j := j + 1;
      }
    }

    // The search of AllocContiguousPages, with its skip past the first page that is not free.
    method FindRun(n: nat) returns (run: RunResult)
      requires Valid()
      ensures SearchedFor(regions, pages, n, run)
    {
      var r := 0;
      while r < |regions|
        invariant 0 <= r <= |regions|
        invariant NoRunBefore(regions, pages, n, r) && LongEnough(regions, n, r)
      {
        var region := regions[r];
        PageStructsFitInReservedPages(region);
        assert region in regions;
        if region.NumPagesUsable() < n {
          return Overrun(r);
        }
        var first := region.FirstUsable();
        var i := 0;
        while i <= region.NumPagesUsable() - n
          invariant 0 <= i
          invariant forall g: Pfn :: RunStart(region, n, g) && g < first + i ==> !FreeRun(pages, g, n)
        {
          forall k | first + i <= k < first + i + n ensures k in pages {
            ManagedPagesAreUsable(regions);
            assert UsableIn(region, k);
          }
          var j := FirstNotFree(first + i, n);
          if j == n {
            assert FirstRunIn(regions, pages, n, first + i, r);
            return Run(first + i);
          }
          // every start up to the page that is not free has that page in its run
          forall g: Pfn | RunStart(region, n, g) && first + i <= g <= first + i + j
            ensures !FreeRun(pages, g, n)
          {
            assert g <= first + i + j < g + n;
          }
          i := i + j;
          i := i + 1;
        }
        assert forall g: Pfn :: RunStart(region, n, g) ==> !FreeRun(pages, g, n);
        r := r + 1;
      }
      return NoRun;
    }

    method AllocContiguousPages(n: nat) returns (run: RunResult)
      requires Valid()
      modifies this`pages, this`freelist, this`totalFreePages
      ensures Valid()
      ensures SearchedFor(regions, old(pages), n, run)
      ensures !run.Run? ==> pages == old(pages) && freelist == old(freelist)
      ensures run.Run? ==>
        && pages == Taken(old(pages), run.first, n)
        && (forall f :: f in freelist <==> f in old(freelist) && !(run.first <= f < run.first + n))
    {
      run := FindRun(n);
      if run.Run? {
        TakeRun(run.first, n);
      }
    }

    // Clears the free bits of a run and takes its pages off the freelist.
    method TakeRun(f: Pfn, n: nat)
      requires Valid()
      requires FreeRun(pages, f, n)
      modifies this`pages, this`freelist, this`totalFreePages
      ensures Valid()
      ensures pages == Taken(old(pages), f, n)
      ensures forall k :: k in freelist <==> k in old(freelist) && !(f <= k < f + n)
    {
      var j := 0;
      TakenNone(pages, f);
      while j < n
        invariant 0 <= j <= n
        invariant FreelistMatches(freelist, pages) && totalFreePages == |freelist|
        invariant pages == Taken(old(pages), f, j)
      {
        TakePage(f + j, old(pages), f, j);
        j := j + 1;
      }
      assert pages.Keys == old(pages).Keys;
    }

    // One step of TakeRun.
    method TakePage(k: Pfn, ghost p0: map<Pfn, Page>, ghost f: Pfn, ghost j: nat)
      requires FreelistMatches(freelist, pages) && totalFreePages == |freelist|
      requires k == f + j && pages == Taken(p0, f, j) && k in p0 && p0[k].free
      modifies this`pages, this`freelist, this`totalFreePages
      ensures FreelistMatches(freelist, pages) && totalFreePages == |freelist|
      ensures pages == Taken(p0, f, j + 1)
    {
      TakenStep(p0, f, j);
      TakeOne(freelist, pages, k);
      pages := pages[k := pages[k].(free := false, link := Detached)];
      freelist := Without(freelist, k);
      totalFreePages := totalFreePages - 1;
    }

    /** free_contiguous_pages: frees the pages of a run that are allocated and on no list, passing over
        frames without a page struct.  The result is the first frame for which find_page goes wrong, if any,
        and the run is freed up to there. */
    method FreeContiguousPages(f: Pfn, n: nat) returns (wrong: Option<Pfn>)
      requires Valid()
      requires forall k :: f <= k < f + n && k in pages ==> !pages[k].free && pages[k].link == Detached
      modifies this`pages, this`freelist, this`totalFreePages
      ensures Valid()
      ensures match wrong
        case None =>
          && (forall k :: f <= k < f + n ==> !FindResult(regions, k).BehindStructs?)
          && pages == Freed(old(pages), f, n)
          && (forall k :: k in freelist <==> k in old(freelist) || (f <= k < f + n && k in pages))
        case Some(w) =>
          && f <= w < f + n && FindResult(regions, w).BehindStructs?
          && (forall k :: f <= k < w ==> !FindResult(regions, k).BehindStructs?)
          && pages == Freed(old(pages), f, w - f)
    {
      hide FindResult, ManagedPages, ValidRegions, FreelistMatches;
      var i := 0;
      FreedNothing(pages, f);
      while i < n
        invariant 0 <= i <= n
        invariant Valid()
        invariant pages == Freed(old(pages), f, i)
        invariant forall k :: f <= k < f + i ==> !FindResult(regions, k).BehindStructs?
      {
        var page := FindPage(f + i);
        if page.BehindStructs? {
          return Some(f + i);
        }
        FoundIsManaged(regions, f + i);
        if page.PageStruct? {
          FreedStep(old(pages), f, i);
          FreePage(page.pfn);
        } else {
          FreedSkip(old(pages), f, i);
        }
        i := i + 1;
      }
      FreedMembers(old(freelist), old(pages), freelist, f, n);
      return None;
    }

    /** Freeing a run directly after allocating it restores the set of free pages. */
    method AllocThenFreeContiguous(n: nat) returns (run: RunResult)
      requires Valid()
      modifies this`pages, this`freelist, this`totalFreePages
      ensures Valid()
      ensures forall f :: f in freelist <==> f in old(freelist)
      ensures totalFreePages == old(totalFreePages)
      ensures SearchedFor(regions, old(pages), n, run)
    {
      run := AllocContiguousPages(n);
      if run.Run? {
        assert FreeRun(old(pages), run.first, n);
        assert forall k :: run.first <= k < run.first + n ==> k in old(pages) && k in old(freelist);
        forall k | run.first <= k < run.first + n ensures !FindResult(regions, k).BehindStructs? {
          ManagedIsFound(regions, k);
        }
        var _ := FreeContiguousPages(run.first, n);
        SameMembersSameLength(freelist, old(freelist));
      }
    }
  }

  function AbsorbedStart(base: nat): Pfn {
    base / PAGE_SIZE + if base % PAGE_SIZE != 0 then 1 else 0
  }

  function AbsorbedPages(base: nat, length: nat): int {
    base / PAGE_SIZE + length / PAGE_SIZE - (if length % PAGE_SIZE != 0 then 1 else 0) - AbsorbedStart(base)
  }

  /** The pages taken from a memory map entry lie inside the entry. */
  lemma AbsorbedInsideEntry(base: nat, length: nat)
    requires AbsorbedPages(base, length) >= 1
    ensures base <= AbsorbedStart(base) * PAGE_SIZE
    ensures (AbsorbedStart(base) + AbsorbedPages(base, length)) * PAGE_SIZE <= base + length
  {
  }

  /** This happens to an entry that holds a whole page and more. */
  lemma WholePageRoundedAway()
    ensures AbsorbedPages(0, 6000) == 0 && PAGE_SIZE <= 6000
  {
  }

  lemma NewRegionIsNotManaged(regions: seq<Region>, region: Region)
    requires forall r :: r in regions ==> r.EndPfn() <= region.basePfn || region.EndPfn() <= r.basePfn
    ensures forall f :: region.FirstUsable() <= f < region.EndPfn() ==> f !in ManagedPages(regions)
  {
    ManagedPagesAreUsable(regions);
    forall f, i | region.FirstUsable() <= f < region.EndPfn() && 0 <= i < |regions|
      ensures !UsableIn(regions[i], f)
    {
      assert regions[i] in regions;
    }
  }

  // n free pages from number first on were appended to the freelist and given page structs.
  ghost predicate Absorbed(l0: seq<Pfn>, l: seq<Pfn>, first: Pfn, n: nat, p0: map<Pfn, Page>, p: map<Pfn, Page>) {
    && l0 <= l && |l| == |l0| + n
    && (forall k :: |l0| <= k < |l| ==> l[k] == first + k - |l0|)
    && (forall f :: f in p0 ==> f in p && p[f] == p0[f])
    && (forall f :: first <= f < first + n ==> f in p && p[f].free && p[f].link == OnFreelist)
    && (forall f :: f in p ==> f in p0 || first <= f < first + n)
  }

  lemma AbsorbedKeys(regions: seq<Region>, region: Region, l0: seq<Pfn>, l: seq<Pfn>, p0: map<Pfn, Page>, p: map<Pfn, Page>)
    requires 0 <= region.NumPagesUsable()
    requires Absorbed(l0, l, region.FirstUsable(), region.NumPagesUsable(), p0, p)
    requires p0.Keys == ManagedPages(regions)
    ensures p.Keys == ManagedPages(regions + [region])
  {
    var all := regions + [region];
    assert all[..|all| - 1] == regions && all[|all| - 1] == region;
    forall f ensures f in p.Keys <==> f in ManagedPages(all) {
      assert f in ManagedPages(all) <==> f in ManagedPages(regions) || UsableIn(region, f);
    }
  }

  lemma RegionsStayApart(regions: seq<Region>, region: Region)
    requires ValidRegions(regions) && 1 <= region.numPages
    requires forall r :: r in regions ==> r.EndPfn() <= region.basePfn || region.EndPfn() <= r.basePfn
    ensures ValidRegions(regions + [region])
  {
  }

  lemma AbsorbedNothing(l: seq<Pfn>, first: Pfn, p: map<Pfn, Page>)
    ensures Absorbed(l, l, first, 0, p, p)
  {
  }

  lemma AbsorbStep(l0: seq<Pfn>, l: seq<Pfn>, first: Pfn, n: nat, p0: map<Pfn, Page>, p: map<Pfn, Page>,
                   data: PageData)
    requires Absorbed(l0, l, first, n, p0, p)
    requires first + n !in p0
    ensures Absorbed(l0, l + [first + n], first, n + 1, p0, p[first + n := Page(true, 0, OnFreelist, data)])
  {
  }

  lemma AbsorbedFreelist(l0: seq<Pfn>, l: seq<Pfn>, first: Pfn, n: nat, p0: map<Pfn, Page>, p: map<Pfn, Page>)
    requires Absorbed(l0, l, first, n, p0, p)
    requires FreelistMatches(l0, p0)
    requires forall f :: first <= f < first + n ==> f !in p0
    ensures FreelistMatches(l, p)
  {
    forall i, j | 0 <= i < j < |l| ensures l[i] != l[j] {
      if i < |l0| {
        assert l[i] == l0[i] && l0[i] in l0;
      }
    }
    forall f ensures f in l <==> f in p && p[f].free {
      if f in l {
        var i :| 0 <= i < |l| && l[i] == f;
        if i < |l0| {
          assert l0[i] in l0;
        }
      }
      if f in p && p[f].free {
        if f in p0 {
          var i :| 0 <= i < |l0| && l0[i] == f;
          assert l[i] == f;
        } else {
          assert l[|l0| + (f - first)] == f;
        }
      }
    }
  }
}
