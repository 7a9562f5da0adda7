/**
 Four-level page tables as a flat map (Pagemap::find_page_table_entry, create_next_page_table and
 map_page in kernel/kernel/src/mem/vmm.cpp; 4-level paging, section 4.5 of Intel SDM volume 3A).
 */
module PageTables {

  import opened Lists

  // Shifts and masks of 64-bit words are written as divisions and remainders: x >> n is x / 2^n, the
  // low n bits of x are x % 2^n, and | of words without a common bit is +.

  // A table, given by its physical address, or no table (nullptr in the source).
  datatype Walk = Missing | Table(phy: nat)

  // entry & 0x000FFFFFFFFFF000
  function PageAligned(word: nat): nat {
    word / 4096 % 0x100_0000_0000 * 4096
  }

  // What an entry of an inner table leads to; bit 0 is PAGE_PRESENT.
  function Next(entry: nat): Walk {
    if entry % 2 == 1 then Table(PageAligned(entry)) else Missing
  }

  // (phy & 0x000FFFFFFFFFF000) | flags
  function LeafEntry(phy: nat, flags: nat): nat {
    PageAligned(phy) + flags
  }

  // What invalidate_page writes.
  function NewEntryOf(phy: nat, flags: Option<nat>): nat {
    if flags.Some? then LeafEntry(phy, flags.value) else 0
  }

  /** Frame and flags can be read back from a leaf entry when the flags have no bit in the address field. */
  lemma LeafEntryFields(phy: nat, flags: nat)
    requires PageAligned(phy) == phy && PageAligned(flags) == 0
    ensures PageAligned(LeafEntry(phy, flags)) == phy
    ensures LeafEntry(phy, flags) - PageAligned(LeafEntry(phy, flags)) == flags
  {
    hide PageAligned;
    var p, k := phy / 4096, flags / 0x10_0000_0000_0000;
    AddressBitsZero(flags);
    AddressBitsOnly(phy);
    AddressOfSum(p, k, flags % 4096);
    assert phy + flags == p * 4096 + k * 0x10_0000_0000_0000 + flags % 4096;
  }

  lemma AddressBitsZero(flags: nat)
    requires PageAligned(flags) == 0
    ensures flags == flags / 0x10_0000_0000_0000 * 0x10_0000_0000_0000 + flags % 4096
  {
  }

  lemma AddressBitsOnly(phy: nat)
    requires PageAligned(phy) == phy
    ensures phy == phy / 4096 * 4096 && phy / 4096 < 0x100_0000_0000
  {
  }

  lemma AddressOfSum(p: nat, k: nat, low: nat)
    requires p < 0x100_0000_0000 && low < 4096
    ensures PageAligned(p * 4096 + k * 0x10_0000_0000_0000 + low) == p * 4096
  {
    var word := p * 4096 + k * 0x10_0000_0000_0000 + low;
    assert word / 4096 == p + k * 0x100_0000_0000;
  }

  // The position that a virtual address selects in the table of depth 0 (the PML4) to 3.
  function Index(virt: nat, depth: nat): nat
    requires depth < 4
  {
    if depth == 0 then virt / 0x80_0000_0000 % 512
    else if depth == 1 then virt / 0x4000_0000 % 512
    else if depth == 2 then virt / 0x20_0000 % 512
    else virt / 0x1000 % 512
  }

  // The 36-bit virtual page number.
  function PageOf(virt: nat): nat {
    virt / 0x1000 % 0x10_0000_0000
  }

  lemma IndicesOfPageNumber(v: nat)
    ensures v / 0x80_0000_0000 == v / 0x1000 / 0x800_0000
    ensures v / 0x4000_0000 == v / 0x1000 / 0x4_0000
    ensures v / 0x20_0000 == v / 0x1000 / 0x200
  {
  }

  lemma TopDigit(p: nat)
    ensures p % 0x10_0000_0000 == p / 0x800_0000 % 512 * 0x800_0000 + p % 0x800_0000
  {
  }

  lemma SecondDigit(p: nat)
    ensures p % 0x800_0000 == p / 0x4_0000 % 512 * 0x4_0000 + p % 0x4_0000
  {
  }

  lemma ThirdDigit(p: nat)
    ensures p % 0x4_0000 == p / 0x200 % 512 * 0x200 + p % 0x200
  {
  }

  // The page number is made of the four positions.
  lemma PageFromIndices(v: nat)
    ensures PageOf(v) == Index(v, 0) * 0x800_0000 + Index(v, 1) * 0x4_0000 + Index(v, 2) * 0x200 + Index(v, 3)
    ensures Index(v, 0) < 512 && Index(v, 1) < 512 && Index(v, 2) < 512 && Index(v, 3) < 512
  {
    var p := v / 0x1000;
    IndicesOfPageNumber(v);
    TopDigit(p);
    SecondDigit(p);
    ThirdDigit(p);
  }

  lemma DigitsAreUnique(a: nat, b: nat, c: nat, d: nat, e: nat, f: nat, g: nat, h: nat)
    requires b < 512 && c < 512 && d < 512 && f < 512 && g < 512 && h < 512
    requires a * 0x800_0000 + b * 0x4_0000 + c * 0x200 + d == e * 0x800_0000 + f * 0x4_0000 + g * 0x200 + h
    ensures a == e && b == f && c == g && d == h
  {
    assert (a * 0x4_0000 + b * 0x200 + c) == (e * 0x4_0000 + f * 0x200 + g);
    assert (a * 0x200 + b) == (e * 0x200 + f);
  }

  /** Two addresses select the same positions on all four levels exactly when they lie in the same page. */
  lemma SamePageIffSameIndices(v: nat, w: nat)
    ensures PageOf(v) == PageOf(w) <==> forall d :: 0 <= d < 4 ==> Index(v, d) == Index(w, d)
  {
    hide Index, PageOf;
    PageFromIndices(v);
    PageFromIndices(w);
    if forall d :: 0 <= d < 4 ==> Index(v, d) == Index(w, d) {
      assert Index(v, 0) == Index(w, 0) && Index(v, 1) == Index(w, 1) && Index(v, 2) == Index(w, 2)
             && Index(v, 3) == Index(w, 3);
    }
    if PageOf(v) == PageOf(w) {
      DigitsAreUnique(Index(v, 0), Index(v, 1), Index(v, 2), Index(v, 3),
                      Index(w, 0), Index(w, 1), Index(w, 2), Index(w, 3));
      forall d | 0 <= d < 4 ensures Index(v, d) == Index(w, d) {
        assert d == 0 || d == 1 || d == 2 || d == 3;
      }
    }
  }

  // The entries of all table pages: the page's physical address and the position in it.
  type Memory = (nat, nat) -> nat

  // The table of a depth that the walk for an address reaches.
  function WalkTo(mem: Memory, root: nat, virt: nat, depth: nat): Walk
    requires depth < 4
  {
    if depth == 0 then Table(root)
    else
      var t := WalkTo(mem, root, virt, depth - 1);
      if t.Missing? then Missing
      else Next(mem(t.phy, Index(virt, depth - 1)))
  }

  /** The flat map that the tables implement: the leaf entry of an address, or 0 when a table is missing. */
  function Flat(mem: Memory, root: nat, virt: nat): nat {
    var t := WalkTo(mem, root, virt, 3);
    if t.Missing? then 0 else mem(t.phy, Index(virt, 3))
  }

  // The positions that lead from the root to a table of the given depth.
  function Route(virt: nat, depth: nat): seq<nat>
    requires depth <= 4
  {
    if depth == 0 then [] else Route(virt, depth - 1) + [Index(virt, depth - 1)]
  }

  // The table that a route leads to.
  function WalkBy(mem: Memory, root: nat, r: seq<nat>): Walk {
    if r == [] then Table(root)
    else
      var t := WalkBy(mem, root, r[..|r| - 1]);
      if t.Missing? then Missing
      else Next(mem(t.phy, r[|r| - 1]))
  }

  // The tables form a tree: every table has one route, which leads to it, and a present entry of an
  // inner table leads to a table one step further on.
  ghost predicate Tree(mem: Memory, root: nat, route: map<nat, seq<nat>>) {
    && root in route && route[root] == []
    && (forall t, i :: t in route && |route[t]| < 3 && Next(mem(t, i)).Table? ==> ChildRoute(mem, route, t, i))
    && (forall t :: t in route ==> |route[t]| <= 3 && WalkBy(mem, root, route[t]) == Table(t))
  }

  ghost predicate ChildRoute(mem: Memory, route: map<nat, seq<nat>>, t: nat, i: nat)
    requires t in route
  {
    && Next(mem(t, i)).Table?
    && Next(mem(t, i)).phy in route
    && route[Next(mem(t, i)).phy] == route[t] + [i]
  }

  lemma {:induction false} WalkRoute(mem: Memory, root: nat, route: map<nat, seq<nat>>, virt: nat, depth: nat)
    requires Tree(mem, root, route) && depth < 4
    ensures |Route(virt, depth)| == depth
    ensures var t := WalkTo(mem, root, virt, depth);
      t.Table? ==> t.phy in route && route[t.phy] == Route(virt, depth)
  {
    hide Next, Index, PageAligned;
    if depth > 0 {
      WalkRoute(mem, root, route, virt, depth - 1);
      var t := WalkTo(mem, root, virt, depth - 1);
      if t.Table? && Next(mem(t.phy, Index(virt, depth - 1))).Table? {
        assert ChildRoute(mem, route, t.phy, Index(virt, depth - 1));
      }
    }
  }

  lemma {:induction false} SameRoute(v: nat, w: nat, depth: nat)
    requires depth <= 4 && Route(v, depth) == Route(w, depth)
    ensures |Route(v, depth)| == depth == |Route(w, depth)|
    ensures forall d :: 0 <= d < depth ==> Index(v, d) == Index(w, d)
  {
    hide Next, Index, PageAligned;
    RouteLength(v, depth);
    RouteLength(w, depth);
    if depth > 0 {
      RouteLength(v, depth - 1);
      RouteLength(w, depth - 1);
      assert Route(v, depth)[..depth - 1] == Route(v, depth - 1);
      assert Route(w, depth)[..depth - 1] == Route(w, depth - 1);
      assert Route(v, depth)[depth - 1] == Index(v, depth - 1) && Route(w, depth)[depth - 1] == Index(w, depth - 1);
      SameRoute(v, w, depth - 1);
    }
  }

  lemma {:induction false} RouteLength(v: nat, depth: nat)
    requires depth <= 4
    ensures |Route(v, depth)| == depth
  {
    hide Next, Index, PageAligned;
    if depth > 0 {
      RouteLength(v, depth - 1);
    }
  }

  function Store(mem: Memory, t: nat, i: nat, entry: nat): Memory {
    (u, j) => if u == t && j == i then entry else mem(u, j)
  }

  function Zero(mem: Memory, t: nat): Memory {
    (u, j) => if u == t then 0 else mem(u, j)
  }

  // Routes of the same walk.
  lemma {:induction false} WalkByRoute(mem: Memory, root: nat, virt: nat, depth: nat)
    requires depth < 4
    ensures WalkBy(mem, root, Route(virt, depth)) == WalkTo(mem, root, virt, depth)
  {
    hide Next, Index, PageAligned;
    if depth > 0 {
      RouteLength(virt, depth);
      assert Route(virt, depth)[..depth - 1] == Route(virt, depth - 1) by { RouteLength(virt, depth - 1); }
      WalkByRoute(mem, root, virt, depth - 1);
    }
  }

  // Tables on the way to a table are tables of the tree.
  lemma {:induction false} WalkByInTree(mem: Memory, root: nat, route: map<nat, seq<nat>>, r: seq<nat>)
    requires Tree(mem, root, route) && |r| <= 3
    ensures var t := WalkBy(mem, root, r);
      t.Table? ==> t.phy in route && route[t.phy] == r
  {
    hide Next, Index, PageAligned;
    if r != [] {
      var q := r[..|r| - 1];
      WalkByInTree(mem, root, route, q);
      var t := WalkBy(mem, root, q);
      if t.Table? && Next(mem(t.phy, r[|r| - 1])).Table? {
        assert ChildRoute(mem, route, t.phy, r[|r| - 1]);
        assert q + [r[|r| - 1]] == r;
      }
    }
  }

  // ----- writing a leaf entry -----

  lemma {:induction false} LeafStoreWalkBy(mem: Memory, root: nat, route: map<nat, seq<nat>>, t: nat, i: nat,
                                           entry: nat, r: seq<nat>)
    requires Tree(mem, root, route) && t in route && |route[t]| == 3 && |r| <= 3
    ensures WalkBy(Store(mem, t, i, entry), root, r) == WalkBy(mem, root, r)
  {
    hide Next, Index, PageAligned;
    if r != [] {
      LeafStoreWalkBy(mem, root, route, t, i, entry, r[..|r| - 1]);
      WalkByInTree(mem, root, route, r[..|r| - 1]);
    }
  }

  lemma LeafStoreTree(mem: Memory, root: nat, route: map<nat, seq<nat>>, t: nat, i: nat, entry: nat)
    requires Tree(mem, root, route) && t in route && |route[t]| == 3
    ensures Tree(Store(mem, t, i, entry), root, route)
  {
    hide Next, Index, PageAligned;
    var mem' := Store(mem, t, i, entry);
    forall u, j | u in route && |route[u]| < 3 && Next(mem'(u, j)).Table? ensures ChildRoute(mem', route, u, j) {
      assert ChildRoute(mem, route, u, j);
    }
    forall u | u in route ensures WalkBy(mem', root, route[u]) == Table(u) {
      LeafStoreWalkBy(mem, root, route, t, i, entry, route[u]);
    }
  }

  /** Writing the leaf entry of one address changes the flat map at the addresses of its page only. */
  lemma LeafStoreFlat(mem: Memory, root: nat, route: map<nat, seq<nat>>, virt: nat, entry: nat, w: nat)
    requires Tree(mem, root, route) && WalkTo(mem, root, virt, 3).Table?
    ensures Flat(Store(mem, WalkTo(mem, root, virt, 3).phy, Index(virt, 3), entry), root, w) ==
      if PageOf(w) == PageOf(virt) then entry else Flat(mem, root, w)
  {
    hide Next, Index, PageAligned, PageOf;
    var t := WalkTo(mem, root, virt, 3).phy;
    var mem' := Store(mem, t, Index(virt, 3), entry);
    WalkRoute(mem, root, route, virt, 3);
    WalkRoute(mem, root, route, w, 3);
    WalkByRoute(mem, root, w, 3);
    WalkByRoute(mem', root, w, 3);
    LeafStoreWalkBy(mem, root, route, t, Index(virt, 3), entry, Route(w, 3));
    SamePageIffSameIndices(virt, w);
    if WalkTo(mem, root, w, 3) == Table(t) {
      SameRoute(virt, w, 3);
    } else if PageOf(w) == PageOf(virt) {
      SameWalk(mem, root, virt, w, 3);
    }
  }

  lemma {:induction false} SameWalk(mem: Memory, root: nat, v: nat, w: nat, depth: nat)
    requires depth < 4 && forall d :: 0 <= d < depth ==> Index(v, d) == Index(w, d)
    ensures WalkTo(mem, root, v, depth) == WalkTo(mem, root, w, depth)
  {
    hide Next, Index, PageAligned;
    if depth > 0 {
      SameWalk(mem, root, v, w, depth - 1);
    }
  }

  // ----- a new, zeroed table -----

  // A new table page under position i of the inner table t.
  function NewTableEntry(page: nat): nat {
    page + 7 // PAGE_PRESENT | PAGE_WRITABLE | PAGE_USER
  }

  function WithTable(mem: Memory, t: nat, i: nat, page: nat): Memory {
    Store(Zero(mem, page), t, i, NewTableEntry(page))
  }

  lemma NewEntry(page: nat)
    requires PageAligned(page) == page
    ensures Next(NewTableEntry(page)) == Table(page)
  {
  }

  lemma ZeroEntry()
    ensures Next(0) == Missing
  {
  }

  lemma WithTableAt(mem: Memory, t: nat, i: nat, page: nat)
    requires t != page
    ensures forall u, j ::
      WithTable(mem, t, i, page)(u, j) ==
      (if u == t && j == i then NewTableEntry(page) else if u == page then 0 else mem(u, j))
  {
  }

  // The inner table t has room for a new table at position i.
  ghost predicate CanExtend(mem: Memory, root: nat, route: map<nat, seq<nat>>, t: nat, i: nat, page: nat) {
    && Tree(mem, root, route) && t in route && |route[t]| < 3 && Next(mem(t, i)).Missing?
    && page !in route && PageAligned(page) == page
  }

  // Walks that were complete stay the same; a walk that ended at the missing table gets as far as it.
  lemma {:induction false} WithTableWalkBy(mem: Memory, root: nat, route: map<nat, seq<nat>>, t: nat, i: nat,
                                           page: nat, r: seq<nat>)
    requires CanExtend(mem, root, route, t, i, page) && |r| <= 3
    ensures WalkBy(mem, root, r).Table? ==> WalkBy(WithTable(mem, t, i, page), root, r) == WalkBy(mem, root, r)
    ensures WalkBy(mem, root, r).Missing? ==>
      WalkBy(WithTable(mem, t, i, page), root, r) == if r == route[t] + [i] then Table(page) else Missing
  {
    hide Next, Index, PageAligned, WithTable;
    if r != [] {
      var q := r[..|r| - 1];
      var last := r[|r| - 1];
      assert r == q + [last];
      WithTableWalkBy(mem, root, route, t, i, page, q);
      WalkByInTree(mem, root, route, q);
      NewEntry(page);
      ZeroEntry();
      WithTableAt(mem, t, i, page);
      if WalkBy(mem, root, q).Table? {
        WalkByInTree(mem, root, route, route[t]);
        assert q == route[t] <==> WalkBy(mem, root, q) == Table(t);
      }
    }
  }

  lemma WithTableWalks(mem: Memory, root: nat, route: map<nat, seq<nat>>, t: nat, i: nat, page: nat)
    requires CanExtend(mem, root, route, t, i, page)
    ensures forall r: seq<nat> :: |r| <= 3 ==>
      WalkBy(WithTable(mem, t, i, page), root, r) == if r == route[t] + [i] then Table(page) else WalkBy(mem, root, r)
  {
    hide Next, Index, PageAligned, WithTable, WalkBy;
    MissingBelow(mem, root, route, t, i);
    forall r: seq<nat> | |r| <= 3
      ensures WalkBy(WithTable(mem, t, i, page), root, r) == if r == route[t] + [i] then Table(page) else WalkBy(mem, root, r)
    {
      WithTableWalkBy(mem, root, route, t, i, page, r);
    }
  }

  lemma MissingBelow(mem: Memory, root: nat, route: map<nat, seq<nat>>, t: nat, i: nat)
    requires Tree(mem, root, route) && t in route && |route[t]| < 3 && Next(mem(t, i)).Missing?
    ensures WalkBy(mem, root, route[t] + [i]) == Missing
  {
    hide Next, Index, PageAligned;
    var r := route[t] + [i];
    assert r[..|r| - 1] == route[t];
  }

  lemma WithTableTree(mem: Memory, root: nat, route: map<nat, seq<nat>>, t: nat, i: nat, page: nat)
    requires CanExtend(mem, root, route, t, i, page)
    ensures Tree(WithTable(mem, t, i, page), root, route[page := route[t] + [i]])
  {
    hide Next, Index, PageAligned, WithTable;
    NewEntry(page);
    ZeroEntry();
    WithTableAt(mem, t, i, page);
    var mem' := WithTable(mem, t, i, page);
    var route' := route[page := route[t] + [i]];
    forall u, j | u in route' && |route'[u]| < 3 && Next(mem'(u, j)).Table? ensures ChildRoute(mem', route', u, j) {
      if u != page {
        assert route'[u] == route[u];
        if !(u == t && j == i) {
          assert ChildRoute(mem, route, u, j);
        }
      }
    }
    forall u | u in route' ensures |route'[u]| <= 3 && WalkBy(mem', root, route'[u]) == Table(u) {
      if u == page {
        var r := route[t] + [i];
        assert |route[t]| < 3 && r[..|r| - 1] == route[t];
        assert WalkBy(mem, root, route[t]) == Table(t);
        assert WalkBy(mem, root, r) == Missing;
        WithTableWalkBy(mem, root, route, t, i, page, r);
      } else {
        assert route'[u] == route[u] && |route[u]| <= 3;
        WithTableWalkBy(mem, root, route, t, i, page, route[u]);
      }
    }
  }

  /** Creating a zeroed table changes the flat map nowhere. */
  lemma WithTableFlat(mem: Memory, root: nat, route: map<nat, seq<nat>>, t: nat, i: nat, page: nat, w: nat)
    requires CanExtend(mem, root, route, t, i, page)
    ensures Flat(WithTable(mem, t, i, page), root, w) == Flat(mem, root, w)
  {
    hide Next, Index, PageAligned, WithTable;
    RouteLength(w, 3);
    WithTableAt(mem, t, i, page);
    WithTableWalkBy(mem, root, route, t, i, page, Route(w, 3));
    WalkByRoute(mem, root, w, 3);
    WalkByRoute(WithTable(mem, t, i, page), root, w, 3);
    WalkByInTree(mem, root, route, Route(w, 3));
    RouteLength(w, 3);
  }

  lemma WithTableFlatAll(mem: Memory, root: nat, route: map<nat, seq<nat>>, t: nat, i: nat, page: nat)
    requires CanExtend(mem, root, route, t, i, page)
    ensures forall w :: Flat(WithTable(mem, t, i, page), root, w) == Flat(mem, root, w)
  {
    forall w: nat ensures Flat(WithTable(mem, t, i, page), root, w) == Flat(mem, root, w) {
      WithTableFlat(mem, root, route, t, i, page, w);
    }
  }

  // From m0 to m exactly the tables on the way to the address, down to a depth, were made, as far as they
  // were missing.
  ghost predicate PathMade(m0: Memory, m: Memory, root: nat, virt: nat, depth: nat)
    requires depth <= 4
  {
    forall r: seq<nat> :: |r| <= 3 ==>
      if r <= Route(virt, depth) then WalkBy(m, root, r).Table? else WalkBy(m, root, r) == WalkBy(m0, root, r)
  }

  lemma PathMadeStart(m: Memory, root: nat, virt: nat)
    ensures PathMade(m, m, root, virt, 0)
  {
  }

  lemma RouteStep(virt: nat, depth: nat)
    requires depth < 4
    ensures Route(virt, depth + 1) == Route(virt, depth) + [Index(virt, depth)]
  {
  }

  // The prefixes of a route.
  lemma PrefixOfRoute(virt: nat, depth: nat, r: seq<nat>)
    requires depth < 4
    ensures r <= Route(virt, depth + 1) <==> r <= Route(virt, depth) || r == Route(virt, depth + 1)
  {
    hide Index;
    RouteLength(virt, depth);
    if r <= Route(virt, depth + 1) && |r| <= depth {
      assert Route(virt, depth + 1)[..|r|] == Route(virt, depth)[..|r|];
    }
  }

  lemma PathMadeKept(m0: Memory, m: Memory, root: nat, virt: nat, depth: nat)
    requires depth < 3 && PathMade(m0, m, root, virt, depth) && WalkTo(m, root, virt, depth + 1).Table?
    ensures PathMade(m0, m, root, virt, depth + 1)
  {
    hide Index, Next, WalkBy, Route;
    WalkByRoute(m, root, virt, depth + 1);
    forall r: seq<nat> | |r| <= 3
      ensures if r <= Route(virt, depth + 1) then WalkBy(m, root, r).Table? else WalkBy(m, root, r) == WalkBy(m0, root, r)
    {
      PrefixOfRoute(virt, depth, r);
    }
  }

  lemma PathMadeMore(m0: Memory, m1: Memory, m: Memory, root: nat, virt: nat, depth: nat)
    requires depth < 3 && PathMade(m0, m1, root, virt, depth) && WalkTo(m, root, virt, depth + 1).Table?
    requires forall r: seq<nat> :: |r| <= 3 && r != Route(virt, depth + 1) ==> WalkBy(m, root, r) == WalkBy(m1, root, r)
    ensures PathMade(m0, m, root, virt, depth + 1)
  {
    hide Index, Next, WalkBy, Route;
    WalkByRoute(m, root, virt, depth + 1);
    forall r: seq<nat> | |r| <= 3
      ensures if r <= Route(virt, depth + 1) then WalkBy(m, root, r).Table? else WalkBy(m, root, r) == WalkBy(m0, root, r)
    {
      PrefixOfRoute(virt, depth, r);
    }
  }

  // Writing leaf entries makes no table.
  lemma PathMadeStore(m0: Memory, m: Memory, root: nat, route: map<nat, seq<nat>>, virt: nat, t: nat, i: nat, entry: nat)
    requires Tree(m, root, route) && t in route && |route[t]| == 3 && PathMade(m0, m, root, virt, 3)
    ensures PathMade(m0, Store(m, t, i, entry), root, virt, 3)
  {
    hide Index, Next, WalkBy, Route, Store;
    forall r: seq<nat> | |r| <= 3 ensures WalkBy(Store(m, t, i, entry), root, r) == WalkBy(m, root, r) {
      LeafStoreWalkBy(m, root, route, t, i, entry, r);
    }
  }

  class PageTable {
    const pml4: nat
    var mem: Memory
    // the physical addresses that the page allocator hands out, in order
    var freePages: seq<nat>
    // where each table page hangs in the tree
    ghost var route: map<nat, seq<nat>>

    ghost predicate Valid()
      reads this
    {
      && Tree(mem, pml4, route)
      && (forall i :: 0 <= i < |freePages| ==> freePages[i] !in route && PageAligned(freePages[i]) == freePages[i])
      && (forall i, j :: 0 <= i < j < |freePages| ==> freePages[i] != freePages[j])
    }

    // The entry that translates an address: what the tables are for.
    ghost function Lookup(virt: nat): nat
      reads this
    {
      Flat(mem, pml4, virt)
    }

    constructor (mem: Memory, pml4: nat, freePages: seq<nat>)
      requires forall i :: 0 <= i < |freePages| ==> freePages[i] != pml4 && PageAligned(freePages[i]) == freePages[i]
      requires forall i, j :: 0 <= i < j < |freePages| ==> freePages[i] != freePages[j]
      ensures Valid()
      ensures forall virt :: Lookup(virt) == 0
      ensures forall r: seq<nat> :: 0 < |r| <= 3 ==> WalkBy(this.mem, pml4, r).Missing?
    {
      hide Next, Index, PageAligned, LeafEntry, NewTableEntry;
      this.pml4 := pml4;
      this.mem := Zero(mem, pml4);
      this.freePages := freePages;
      this.route := map[pml4 := []];
      new;
      ZeroEntry();
      assert WalkBy(this.mem, pml4, []) == Table(pml4);
      forall virt: nat ensures Lookup(virt) == 0 {
        WalkOfEmpty(mem, pml4, virt);
        assert this.mem == Zero(mem, pml4);
      }
      forall r: seq<nat> | 0 < |r| <= 3 ensures WalkBy(this.mem, pml4, r).Missing? {
        EmptyWalk(mem, pml4, r);
      }
    }

    // create_next_page_table; false is the panic of an empty freelist
    method CreateNextPageTable(t: nat, i: nat) returns (ok: bool)
      requires Valid() && t in route && |route[t]| < 3 && Next(mem(t, i)).Missing?
      modifies this
      ensures Valid()
      ensures forall virt :: Lookup(virt) == old(Lookup(virt))
      ensures ok ==>
        && Next(mem(t, i)).Table? && Next(mem(t, i)).phy in route && route[Next(mem(t, i)).phy] == old(route)[t] + [i]
        && (forall u :: u in old(route) ==> u in route && route[u] == old(route)[u])
        && (forall u, j :: u in old(route) && !(u == t && j == i) ==> mem(u, j) == old(mem)(u, j))
      ensures ok ==> forall r: seq<nat> :: |r| <= 3 ==>
        WalkBy(mem, pml4, r) == if r == old(route)[t] + [i] then Next(mem(t, i)) else old(WalkBy(mem, pml4, r))
      ensures !ok ==> freePages == [] && mem == old(mem) && route == old(route)
    {
      hide Next, Index, PageAligned, LeafEntry, NewTableEntry;
      if freePages == [] {
        return false;
      }
      var page := freePages[0];
      ghost var mem0 := mem;
      WithTableTree(mem, pml4, route, t, i, page);
      WithTableFlatAll(mem, pml4, route, t, i, page);
      WithTableAt(mem, t, i, page);
      WithTableWalks(mem, pml4, route, t, i, page);
      NewEntry(page);
      mem := Zero(mem, page);
      mem := Store(mem, t, i, NewTableEntry(page));
      assert mem == WithTable(mem0, t, i, page);
      route := route[page := route[t] + [i]];
      freePages := freePages[1..];
      return true;
    }

    /** find_page_table_entry: the leaf table, created when asked for; nothing that is mapped changes. */
    method FindPageTableEntry(virt: nat, createMissing: bool) returns (t: Walk, panicked: bool)
      requires Valid()
      modifies this
      ensures Valid()
      ensures forall w :: Lookup(w) == old(Lookup(w))
      ensures !createMissing ==> mem == old(mem) && t == WalkTo(mem, pml4, virt, 3) && !panicked
      ensures createMissing && !panicked ==> t.Table? && t == WalkTo(mem, pml4, virt, 3)
      ensures createMissing && !panicked ==> PathMade(old(mem), mem, pml4, virt, 3)
      ensures panicked ==> freePages == [] && WalkTo(mem, pml4, virt, 3) == Missing
    {
      hide Next, Index, PageAligned, LeafEntry, NewTableEntry, Tree, Flat, WalkBy, PathMade, Route;
      PathMadeStart(mem, pml4, virt);
      var current := pml4;
      var depth := 0;
      panicked := false;
      while depth < 3
        invariant 0 <= depth <= 3
        invariant Valid() && !panicked
        invariant forall w :: Lookup(w) == old(Lookup(w))
        invariant !createMissing ==> mem == old(mem)
        invariant WalkTo(mem, pml4, virt, depth) == Table(current)
        invariant PathMade(old(mem), mem, pml4, virt, depth)
      {
        WalkRoute(mem, pml4, route, virt, depth);
        if Next(mem(current, Index(virt, depth))).Missing? {
          if !createMissing {
            MissingStays(mem, pml4, virt, depth);
            return Missing, false;
          }
          ghost var mem0 := mem;
          ghost var route0 := route;
          var ok := CreateNextPageTable(current, Index(virt, depth));
          if !ok {
            MissingStays(mem, pml4, virt, depth);
            return Missing, true;
          }
          SameTablesSameWalk(mem0, mem, pml4, route0, virt, depth, current, Index(virt, depth));
          RouteStep(virt, depth);
          PathMadeMore(old(mem), mem0, mem, pml4, virt, depth);
        } else {
          PathMadeKept(old(mem), mem, pml4, virt, depth);
        }
        current := Next(mem(current, Index(virt, depth))).phy;
        depth := depth + 1;
      }
      return Table(current), false;
    }

    /** map_page: the page has the new entry and no other page's entry changes. */
    method MapPage(phy: nat, virt: nat, flags: nat) returns (panicked: bool)
      requires Valid()
      modifies this
      ensures Valid()
      ensures forall w ::
        Lookup(w) == (if !panicked && PageOf(w) == PageOf(virt) then LeafEntry(phy, flags) else old(Lookup(w)))
      ensures !panicked ==> PathMade(old(mem), mem, pml4, virt, 3)
      ensures panicked ==> freePages == [] && WalkTo(mem, pml4, virt, 3) == Missing
    {
      hide Next, Index, PageAligned, LeafEntry, NewTableEntry, PathMade;
      var t;
      t, panicked := FindPageTableEntry(virt, true);
      if panicked {
        return;
      }
      var entry := LeafEntry(phy, flags);
      WalkRoute(mem, pml4, route, virt, 3);
      LeafStoreTree(mem, pml4, route, t.phy, Index(virt, 3), entry);
      PathMadeStore(old(mem), mem, pml4, route, virt, t.phy, Index(virt, 3), entry);
      forall w: nat
        ensures Flat(Store(mem, t.phy, Index(virt, 3), entry), pml4, w) ==
          if PageOf(w) == PageOf(virt) then entry else Lookup(w)
      {
        LeafStoreFlat(mem, pml4, route, virt, entry, w);
      }
      mem := Store(mem, t.phy, Index(virt, 3), entry);
    }

    /** What invalidate_page does to an entry: one that is present gets other flags or is cleared, and its frame
        is handed out; nothing happens to one that is not. */
    method InvalidateEntry(virt: nat, flags: Option<nat>) returns (phy: Option<nat>)
      requires Valid()
      modifies this
      ensures Valid()
      ensures phy == if old(Lookup(virt)) % 2 == 1 then Some(PageAligned(old(Lookup(virt)))) else None
      ensures forall w ::
        Lookup(w) == (if phy.Some? && PageOf(w) == PageOf(virt) then NewEntryOf(phy.value, flags) else old(Lookup(w)))
      ensures forall r: seq<nat> :: |r| <= 3 ==> WalkBy(mem, pml4, r) == old(WalkBy(mem, pml4, r))
    {
      hide Next, Index, PageAligned, LeafEntry, NewTableEntry, WalkBy, PageOf;
      var t, panicked := FindPageTableEntry(virt, false);
      if t.Missing? || mem(t.phy, Index(virt, 3)) % 2 == 0 {
        return None;
      }
      var frame := PageAligned(mem(t.phy, Index(virt, 3)));
      var entry := NewEntryOf(frame, flags);
      WalkRoute(mem, pml4, route, virt, 3);
      LeafStoreTree(mem, pml4, route, t.phy, Index(virt, 3), entry);
      forall r: seq<nat> | |r| <= 3
        ensures WalkBy(Store(mem, t.phy, Index(virt, 3), entry), pml4, r) == WalkBy(mem, pml4, r)
      {
        LeafStoreWalkBy(mem, pml4, route, t.phy, Index(virt, 3), entry, r);
      }
      forall w: nat
        ensures Flat(Store(mem, t.phy, Index(virt, 3), entry), pml4, w) ==
          if PageOf(w) == PageOf(virt) then entry else Lookup(w)
      {
        LeafStoreFlat(mem, pml4, route, virt, entry, w);
      }
      mem := Store(mem, t.phy, Index(virt, 3), entry);
      return Some(frame);
    }
  }

  lemma {:induction false} EmptyWalk(mem: Memory, root: nat, r: seq<nat>)
    requires r != []
    ensures WalkBy(Zero(mem, root), root, r) == Missing
    decreases |r|
  {
    hide Next, PageAligned;
    ZeroEntry();
    if |r| > 1 {
      EmptyWalk(mem, root, r[..|r| - 1]);
    } else {
      assert r[..|r| - 1] == [];
    }
  }

  lemma WalkOfEmpty(mem: Memory, root: nat, virt: nat)
    ensures Flat(Zero(mem, root), root, virt) == 0
  {
    hide Next, Index, PageAligned;
    ZeroEntry();
    assert WalkTo(Zero(mem, root), root, virt, 0) == Table(root);
    assert WalkTo(Zero(mem, root), root, virt, 1) == Missing;
    assert WalkTo(Zero(mem, root), root, virt, 2) == Missing;
  }

  // Once a table is missing, so are all below it.
  lemma {:induction false} MissingStays(mem: Memory, root: nat, virt: nat, depth: nat)
    requires depth < 3 && WalkTo(mem, root, virt, depth).Table?
    requires Next(mem(WalkTo(mem, root, virt, depth).phy, Index(virt, depth))).Missing?
    ensures WalkTo(mem, root, virt, 3) == Missing
  {
    hide Next, Index, PageAligned;
    assert WalkTo(mem, root, virt, depth + 1) == Missing;
    if depth + 1 < 3 {
      assert WalkTo(mem, root, virt, depth + 2) == Missing;
    }
  }

  // A change at depth d does not affect the walk up to there.
  lemma {:induction false} SameTablesSameWalk(mem: Memory, mem': Memory, root: nat, route: map<nat, seq<nat>>,
                                              virt: nat, depth: nat, t: nat, i: nat)
    requires Tree(mem, root, route) && depth <= 3 && t in route && depth <= |route[t]|
    requires forall u, j :: u in route && !(u == t && j == i) ==> mem'(u, j) == mem(u, j)
    ensures WalkTo(mem', root, virt, depth) == WalkTo(mem, root, virt, depth)
  {
    hide Next, Index, PageAligned, Tree;
    if depth > 0 {
      SameTablesSameWalk(mem, mem', root, route, virt, depth - 1, t, i);
      WalkRoute(mem, root, route, virt, depth - 1);
      var x := WalkTo(mem, root, virt, depth - 1);
      if x.Table? {
        assert |route[x.phy]| == depth - 1;
        assert mem'(x.phy, Index(virt, depth - 1)) == mem(x.phy, Index(virt, depth - 1));
      }
    }
  }
}
