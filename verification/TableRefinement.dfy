/**
 The four-level page tables implement the flat map of entries, and the set of tables, that the model of an
 address space uses (kernel/kernel/src/mem/vmm.cpp).
 */
module TableRefinement {

  import opened Lists
  import opened PhysicalMemory
  import opened RangeList
  import opened FrameOwnership
  import opened MemoryMeaning
  import opened PageTables

  // The bits of a leaf entry for the protection of a range.
  function FlagBits(flags: PageFlags): nat {
    (if flags.present then 1 else 0) + (if flags.writable then 2 else 0) + (if flags.user then 4 else 0)
    + (if flags.noExecute then 0x8000_0000_0000_0000 else 0)
  }

  lemma FlagBitsFacts(f: PageFlags)
    ensures PageAligned(FlagBits(f)) == 0 && (FlagBits(f) % 2 == 1 <==> f.present)
  {
  }

  /** The protection can be read back from the bits. */
  lemma FlagBitsDiffer(f: PageFlags, g: PageFlags)
    requires FlagBits(f) == FlagBits(g)
    ensures f == g
  {
  }

  // The word that stands for page v.
  function EntryOf(ptes: map<nat, Pte>, v: nat): nat {
    if v in ptes then LeafEntry(PageAddr(ptes[v].pfn), FlagBits(ptes[v].flags)) else 0
  }

  // 36-bit page numbers, 40-bit frame numbers, and only present entries.
  ghost predicate Representable(ptes: map<nat, Pte>) {
    forall v :: v in ptes ==> v < 0x10_0000_0000 && ptes[v].pfn < 0x100_0000_0000 && ptes[v].flags.present
  }

  ghost predicate EntriesMatch(t: PageTable, ptes: map<nat, Pte>)
    reads t
  {
    Representable(ptes) && forall virt: nat :: t.Lookup(virt) == EntryOf(ptes, PageOf(virt))
  }

  // A table of a level is there for an address if and only if its key is.
  ghost predicate TablesMatch(m: Memory, root: nat, keys: set<TableKey>) {
    forall virt: nat, level :: 1 <= level <= 3 ==> TableMatches(m, root, keys, virt, level)
  }

  ghost predicate TableMatches(m: Memory, root: nat, keys: set<TableKey>, virt: nat, level: nat)
    requires 1 <= level <= 3
  {
    KeyOf(level, PageOf(virt)) in keys <==> WalkBy(m, root, Route(virt, 4 - level)).Table?
  }

  // What it means that tables in memory implement a flat map and a set of tables.
  ghost predicate Implements(t: PageTable, keys: set<TableKey>, ptes: map<nat, Pte>)
    reads t
  {
    EntriesMatch(t, ptes) && TablesMatch(t.mem, t.pml4, keys)
  }

  function PathKeys(v: nat): set<TableKey> {
    {KeyOf(3, v), KeyOf(2, v), KeyOf(1, v)}
  }

  // An entry of the flat map, read from its word.
  lemma EntryFields(ptes: map<nat, Pte>, v: nat)
    requires Representable(ptes)
    ensures EntryOf(ptes, v) % 2 == 1 <==> v in ptes
    ensures v in ptes ==> PageAligned(EntryOf(ptes, v)) == PageAddr(ptes[v].pfn)
  {
    hide PageAligned, FlagBits;
    if v in ptes {
      var pfn, flags := ptes[v].pfn, ptes[v].flags;
      FrameAligned(pfn);
      FlagBitsFacts(flags);
      LeafEntryFields(PageAddr(pfn), FlagBits(flags));
    }
  }

  lemma FrameAligned(pfn: Pfn)
    requires pfn < 0x100_0000_0000
    ensures PageAligned(PageAddr(pfn)) == PageAddr(pfn) && PageAddr(pfn) % 2 == 0
  {
  }

  // Two addresses share their table of a level exactly when they take the same way to it.
  lemma SameKeyIffSameRoute(v: nat, w: nat, level: nat)
    requires 1 <= level <= 3
    ensures KeyOf(level, PageOf(v)) == KeyOf(level, PageOf(w)) <==> Route(v, 4 - level) == Route(w, 4 - level)
  {
    hide PageOf, Index;
    PageFromIndices(v);
    PageFromIndices(w);
    RouteDigits(v);
    RouteDigits(w);
    var a, b, c, d := Index(v, 0), Index(v, 1), Index(v, 2), Index(v, 3);
    var e, f, g, h := Index(w, 0), Index(w, 1), Index(w, 2), Index(w, 3);
    Quotients(a, b, c, d);
    Quotients(e, f, g, h);
    if level == 3 {
      assert KeyOf(3, PageOf(v)).prefix == a && KeyOf(3, PageOf(w)).prefix == e;
    } else if level == 2 {
      assert KeyOf(2, PageOf(v)).prefix == a * 512 + b && KeyOf(2, PageOf(w)).prefix == e * 512 + f;
      if a * 512 + b == e * 512 + f {
        assert a == e && b == f;
      }
    } else {
      assert KeyOf(1, PageOf(v)).prefix == a * 0x4_0000 + b * 512 + c;
      assert KeyOf(1, PageOf(w)).prefix == e * 0x4_0000 + f * 512 + g;
      if a * 0x4_0000 + b * 512 + c == e * 0x4_0000 + f * 512 + g {
        assert a * 512 + b == e * 512 + f && c == g;
        assert a == e && b == f;
      }
    }
  }

  lemma Quotients(a: nat, b: nat, c: nat, d: nat)
    requires b < 512 && c < 512 && d < 512
    ensures var p := a * 0x800_0000 + b * 0x4_0000 + c * 0x200 + d;
      p / 0x800_0000 == a && p / 0x4_0000 == a * 512 + b && p / 0x200 == a * 0x4_0000 + b * 512 + c
  {
  }

  lemma RouteDigits(v: nat)
    ensures Route(v, 1) == [Index(v, 0)] && Route(v, 2) == [Index(v, 0), Index(v, 1)]
    ensures Route(v, 3) == [Index(v, 0), Index(v, 1), Index(v, 2)]
  {
    hide Index;
    RouteStep(v, 0);
    RouteStep(v, 1);
    RouteStep(v, 2);
  }

  // ----- the operations -----

  /** get_physical_addr without the fault: what the tables say is what the flat map says. */
  method TranslatePresent(t: PageTable, virt: nat, ghost keys: set<TableKey>, ghost ptes: map<nat, Pte>)
    returns (phy: Option<nat>)
    requires t.Valid() && Implements(t, keys, ptes)
    modifies t
    ensures t.Valid() && Implements(t, keys, ptes) && t.mem == old(t.mem)
    ensures phy == if PageOf(virt) in ptes then Some(PageAddr(ptes[PageOf(virt)].pfn)) else None
  {
    hide EntryOf, LeafEntry, Representable, KeyOf, Route, WalkBy, PageAligned, PageOf, Index, Tree;
    EntryFields(ptes, PageOf(virt));
    var table, panicked := t.FindPageTableEntry(virt, false);
    if table.Table? && t.mem(table.phy, Index(virt, 3)) % 2 == 1 {
      return Some(PageAligned(t.mem(table.phy, Index(virt, 3))));
    }
    return None;
  }

  /** map_page, and what a page fault does: the tables on the way are made, and the page is entered. */
  method EnterPage(t: PageTable, virt: nat, pfn: Pfn, flags: PageFlags, ghost keys: set<TableKey>, ghost ptes: map<nat, Pte>)
    returns (panicked: bool)
    requires t.Valid() && Implements(t, keys, ptes) && pfn < 0x100_0000_0000 && flags.present
    modifies t
    ensures t.Valid()
    ensures !panicked ==> Implements(t, keys + PathKeys(PageOf(virt)), ptes[PageOf(virt) := Pte(pfn, flags)])
    ensures panicked ==> t.freePages == [] && EntriesMatch(t, ptes) && !PathThere(t, virt)
  {
    hide LeafEntry, KeyOf, Route, WalkBy, PageAligned, PageOf, Index, Tree, PathMade, FlagBits;
    ghost var mem0 := t.mem;
    panicked := t.MapPage(PageAddr(pfn), virt, FlagBits(flags));
    PageNumberBound(virt);
    if !panicked {
      forall w: nat, level | 1 <= level <= 3 ensures TableMatches(t.mem, t.pml4, keys + PathKeys(PageOf(virt)), w, level) {
        assert TableMatches(mem0, t.pml4, keys, w, level);
        PathTables(mem0, t.mem, t.pml4, virt, w, level);
      }
    }
  }

  predicate PathThere(t: PageTable, virt: nat)
    reads t
  {
    WalkTo(t.mem, t.pml4, virt, 3).Table?
  }

  lemma PageNumberBound(virt: nat)
    ensures PageOf(virt) < 0x10_0000_0000
  {
  }

  // The tables that a path adds.
  lemma PathTables(m0: Memory, m: Memory, root: nat, virt: nat, w: nat, level: nat)
    requires 1 <= level <= 3 && PathMade(m0, m, root, virt, 3)
    ensures WalkBy(m, root, Route(w, 4 - level)).Table? <==>
      WalkBy(m0, root, Route(w, 4 - level)).Table? || KeyOf(level, PageOf(w)) in PathKeys(PageOf(virt))
  {
    hide PageOf, Index, WalkBy;
    var r := Route(w, 4 - level);
    RouteLength(w, 4 - level);
    RoutePrefix(virt, w, 4 - level);
    SameKeyIffSameRoute(virt, w, level);
    KeysOfLevels(PageOf(virt), PageOf(w), level);
    WalkStays(m0, m, root, virt, r);
  }

  lemma KeysOfLevels(v: nat, w: nat, level: nat)
    requires 1 <= level <= 3
    ensures KeyOf(level, w) in PathKeys(v) <==> KeyOf(level, v) == KeyOf(level, w)
  {
  }

  lemma RoutePrefix(v: nat, w: nat, depth: nat)
    requires depth <= 3
    ensures Route(w, depth) <= Route(v, 3) <==> Route(w, depth) == Route(v, depth)
  {
    hide Index;
    RouteDigits(v);
    RouteDigits(w);
    assert depth == 0 || depth == 1 || depth == 2 || depth == 3;
  }

  lemma WalkStays(m0: Memory, m: Memory, root: nat, virt: nat, r: seq<nat>)
    requires |r| <= 3 && PathMade(m0, m, root, virt, 3)
    ensures if r <= Route(virt, 3) then WalkBy(m, root, r).Table? else WalkBy(m, root, r) == WalkBy(m0, root, r)
  {
  }

  /** The entry part of invalidate_page, in the terms of the flat map. */
  method Invalidate(t: PageTable, virt: nat, target: Option<MappedRange>, ghost keys: set<TableKey>, ghost ptes: map<nat, Pte>)
    returns (ghost ptes': map<nat, Pte>)
    requires t.Valid() && Implements(t, keys, ptes) && (target.Some? ==> target.value.flags.present)
    modifies t
    ensures t.Valid() && Implements(t, keys, ptes')
    ensures EntriesReassigned(ptes, ptes', PageOf(virt), PageOf(virt) + 1, target)
  {
    hide LeafEntry, KeyOf, Route, WalkBy, PageAligned, PageOf, Index, Tree, FlagBits;
    ghost var v, mem0 := PageOf(virt), t.mem;
    EntryFields(ptes, v);
    var phy := t.InvalidateEntry(virt, if target.Some? then Some(FlagBits(target.value.flags)) else None);
    ptes' := if v !in ptes then ptes
             else if target.Some? then ptes[v := Pte(ptes[v].pfn, target.value.flags)]
             else ptes - {v};
    forall w: nat, level | 1 <= level <= 3 ensures TableMatches(t.mem, t.pml4, keys, w, level) {
      assert TableMatches(mem0, t.pml4, keys, w, level);
      RouteLength(w, 4 - level);
    }
  }

  /** In the model of an address space, a page has a path if and only if the walk for it gets to a leaf table. */
  lemma HasPathIffWalk(t: PageTable, tables: map<TableKey, Pfn>, ptes: map<nat, Pte>, virt: nat)
    requires t.Valid() && Implements(t, tables.Keys, ptes)
    ensures HasPath(tables, PageOf(virt)) <==> WalkTo(t.mem, t.pml4, virt, 3).Table?
  {
    hide KeyOf, PageOf, Index, Tree, Next, Representable;
    WalkByRoute(t.mem, t.pml4, virt, 3);
    WalkByRoute(t.mem, t.pml4, virt, 2);
    WalkByRoute(t.mem, t.pml4, virt, 1);
    assert TableMatches(t.mem, t.pml4, tables.Keys, virt, 1);
    assert TableMatches(t.mem, t.pml4, tables.Keys, virt, 2);
    assert TableMatches(t.mem, t.pml4, tables.Keys, virt, 3);
    assert WalkTo(t.mem, t.pml4, virt, 3).Table? ==> WalkTo(t.mem, t.pml4, virt, 2).Table?;
    assert WalkTo(t.mem, t.pml4, virt, 2).Table? ==> WalkTo(t.mem, t.pml4, virt, 1).Table?;
  }

  // ----- the copy of the tables in fork -----

  // The ways that go on from r with a position below the limit.
  predicate GoesOn(r: seq<nat>, q: seq<nat>, limit: nat) {
    && |r| < |q| <= 3 && r <= q && q[|r|] < limit
    && (forall d :: |r| < d < |q| ==> q[d] < 512)
  }

  // Where the ways go on like that, the child has a table exactly where the parent has one; nothing else of the
  // child is different from c0.
  ghost predicate CopiedBelow(pm: Memory, proot: nat, c0: Memory, cm: Memory, croot: nat, r: seq<nat>, limit: nat) {
    forall q: seq<nat> :: |q| <= 3 ==> CopiedWay(pm, proot, c0, cm, croot, r, limit, q)
  }

  ghost predicate CopiedWay(pm: Memory, proot: nat, c0: Memory, cm: Memory, croot: nat, r: seq<nat>, limit: nat, q: seq<nat>) {
    if GoesOn(r, q, limit) then WalkBy(cm, croot, q).Table? <==> WalkBy(pm, proot, q).Table?
    else WalkBy(cm, croot, q) == WalkBy(c0, croot, q)
  }

  ghost predicate NothingBelow(m: Memory, root: nat, r: seq<nat>) {
    forall q: seq<nat> :: |r| < |q| <= 3 && r <= q ==> WalkBy(m, root, q).Missing?
  }

  lemma {:induction false} MissingExtends(m: Memory, root: nat, p: seq<nat>, q: seq<nat>)
    requires p <= q && WalkBy(m, root, p).Missing?
    ensures WalkBy(m, root, q).Missing?
    decreases |q|
  {
    hide Next;
    if |p| < |q| {
      assert p <= q[..|q| - 1];
      MissingExtends(m, root, p, q[..|q| - 1]);
    } else {
      assert p == q;
    }
  }

  /** One of the nested loops over the entries of a table, with those inside it: every table of the parent gets
      an empty one of the child in its place. */
  method CopyLevel(parent: PageTable, child: PageTable, pt: nat, ct: nat, limit: nat, ghost r: seq<nat>, depth: nat)
    returns (ok: bool)
    requires parent != child && parent.Valid() && child.Valid() && depth == |r| < 3
    requires WalkBy(parent.mem, parent.pml4, r) == Table(pt) && WalkBy(child.mem, child.pml4, r) == Table(ct)
    requires NothingBelow(child.mem, child.pml4, r)
    modifies child
    ensures child.Valid()
    ensures forall w :: child.Lookup(w) == old(child.Lookup(w))
    ensures ok ==> CopiedBelow(parent.mem, parent.pml4, old(child.mem), child.mem, child.pml4, r, limit)
    ensures !ok ==> child.freePages == []
    decreases 3 - depth
  {
    hide Next, Index, PageAligned, Tree, Flat, WalkBy, CopiedBelow, NothingBelow;
    ghost var c0 := child.mem;
    CopiedNone(parent.mem, parent.pml4, c0, child.pml4, r);
    ok := true;
    for i := 0 to limit
      invariant child.Valid() && ok
      invariant forall w :: child.Lookup(w) == old(child.Lookup(w))
      invariant CopiedBelow(parent.mem, parent.pml4, c0, child.mem, child.pml4, r, i)
    {
      ghost var c1 := child.mem;
      NextWay(parent.mem, parent.pml4, r, pt, i);
      BeforeEntry(parent.mem, parent.pml4, c0, c1, child.pml4, r, ct, i);
      if Next(parent.mem(pt, i)).Table? {
        WalkByInTree(child.mem, child.pml4, child.route, r);
        ok := child.CreateNextPageTable(ct, i);
        if !ok {
          return;
        }
        ghost var c2 := child.mem;
        if depth < 2 {
          MadeBelow(c1, c2, child.pml4, r + [i]);
          ok := CopyLevel(parent, child, Next(parent.mem(pt, i)).phy, Next(child.mem(ct, i)).phy, 512, r + [i], depth + 1);
          if !ok {
            return;
          }
        } else {
          CopiedLeaf(parent.mem, parent.pml4, c2, child.pml4, r + [i]);
        }
        CopiedPresent(parent.mem, parent.pml4, c0, c1, c2, child.mem, child.pml4, r, i);
      } else {
        CopiedMissing(parent.mem, parent.pml4, c0, c1, child.pml4, r, i);
      }
    }
  }

  lemma CopiedNone(pm: Memory, proot: nat, c0: Memory, croot: nat, r: seq<nat>)
    ensures CopiedBelow(pm, proot, c0, c0, croot, r, 0)
  {
  }

  lemma NextWay(m: Memory, root: nat, r: seq<nat>, t: nat, i: nat)
    requires WalkBy(m, root, r) == Table(t)
    ensures WalkBy(m, root, r + [i]) == Next(m(t, i))
  {
    hide Next;
    assert (r + [i])[..|r|] == r;
  }

  // The next entry of the child is still empty, and nothing lies below it.
  lemma BeforeEntry(pm: Memory, proot: nat, c0: Memory, c1: Memory, croot: nat, r: seq<nat>, ct: nat, i: nat)
    requires CopiedBelow(pm, proot, c0, c1, croot, r, i) && |r| < 3
    requires WalkBy(c0, croot, r) == Table(ct) && NothingBelow(c0, croot, r)
    ensures WalkBy(c1, croot, r) == Table(ct) && Next(c1(ct, i)).Missing?
    ensures WalkBy(c1, croot, r + [i]).Missing? && NothingBelow(c1, croot, r + [i])
  {
    hide Next, WalkBy;
    assert CopiedWay(pm, proot, c0, c1, croot, r, i, r);
    assert CopiedWay(pm, proot, c0, c1, croot, r, i, r + [i]);
    NextWay(c1, croot, r, ct, i);
    forall q: seq<nat> | |r| + 1 < |q| <= 3 && r + [i] <= q ensures WalkBy(c1, croot, q).Missing? {
      MissingExtends(c1, croot, r + [i], q);
    }
  }

  lemma MadeBelow(c1: Memory, c2: Memory, croot: nat, p: seq<nat>)
    requires NothingBelow(c1, croot, p)
    requires forall q: seq<nat> :: |q| <= 3 && q != p ==> WalkBy(c2, croot, q) == WalkBy(c1, croot, q)
    ensures NothingBelow(c2, croot, p)
  {
    hide WalkBy;
  }

  lemma CopiedLeaf(pm: Memory, proot: nat, c2: Memory, croot: nat, p: seq<nat>)
    requires |p| == 3
    ensures CopiedBelow(pm, proot, c2, c2, croot, p, 512)
  {
  }

  // Once an entry has been copied with what lies below it.
  lemma CopiedPresent(pm: Memory, proot: nat, c0: Memory, c1: Memory, c2: Memory, c3: Memory, croot: nat, r: seq<nat>, i: nat)
    requires |r| < 3 && CopiedBelow(pm, proot, c0, c1, croot, r, i)
    requires WalkBy(pm, proot, r + [i]).Table? && WalkBy(c2, croot, r + [i]).Table?
    requires forall q: seq<nat> :: |q| <= 3 && q != r + [i] ==> WalkBy(c2, croot, q) == WalkBy(c1, croot, q)
    requires CopiedBelow(pm, proot, c2, c3, croot, r + [i], 512)
    ensures CopiedBelow(pm, proot, c0, c3, croot, r, i + 1)
  {
    hide WalkBy;
    forall q: seq<nat> | |q| <= 3 ensures CopiedWay(pm, proot, c0, c3, croot, r, i + 1, q) {
      assert CopiedWay(pm, proot, c0, c1, croot, r, i, q);
      assert CopiedWay(pm, proot, c2, c3, croot, r + [i], 512, q);
      OneMore(r, q, i);
    }
  }

  // A way that goes on from r below i + 1 goes on below i, or through i.
  lemma OneMore(r: seq<nat>, q: seq<nat>, i: nat)
    requires |r| < 3
    ensures GoesOn(r, q, i + 1) <==> GoesOn(r, q, i) || q == r + [i] || GoesOn(r + [i], q, 512)
    ensures GoesOn(r, q, i) ==> q != r + [i] && !GoesOn(r + [i], q, 512)
    ensures GoesOn(r + [i], q, 512) ==> q != r + [i]
  {
    if |q| > |r| && r <= q && q[|r|] == i {
      assert q[..|r| + 1] == r + [i];
    }
    if |r| + 1 <= |q| && r + [i] <= q {
      assert q[..|r| + 1] == r + [i] && q[|r|] == i && q[..|r|] == r;
    }
  }

  lemma CopiedMissing(pm: Memory, proot: nat, c0: Memory, c1: Memory, croot: nat, r: seq<nat>, i: nat)
    requires |r| < 3 && CopiedBelow(pm, proot, c0, c1, croot, r, i)
    requires WalkBy(pm, proot, r + [i]).Missing? && WalkBy(c1, croot, r + [i]).Missing?
    ensures CopiedBelow(pm, proot, c0, c1, croot, r, i + 1)
  {
    hide WalkBy;
    forall q: seq<nat> | |q| <= 3 ensures CopiedWay(pm, proot, c0, c1, croot, r, i + 1, q) {
      assert CopiedWay(pm, proot, c0, c1, croot, r, i, q);
      OneMore(r, q, i);
      if q == r + [i] || GoesOn(r + [i], q, 512) {
        MissingExtends(pm, proot, r + [i], q);
        MissingExtends(c1, croot, r + [i], q);
      }
    }
  }

  // Tables of the lower half only, which is the half of user space.
  ghost predicate LowerHalf(keys: set<TableKey>) {
    forall virt: nat, level :: 1 <= level <= 3 && Index(virt, 0) >= 256 ==> KeyOf(level, PageOf(virt)) !in keys
  }

  /** The copy of the tables in fork: a child without tables gets the same tables as the parent, all empty. */
  method CopyTree(parent: PageTable, child: PageTable, ghost keys: set<TableKey>, ghost ptes: map<nat, Pte>)
    returns (ok: bool)
    requires parent != child && parent.Valid() && child.Valid()
    requires Implements(parent, keys, ptes) && LowerHalf(keys)
    requires NothingBelow(child.mem, child.pml4, []) && forall w :: child.Lookup(w) == 0
    modifies child
    ensures child.Valid()
    ensures ok ==> Implements(child, keys, map[])
    ensures !ok ==> child.freePages == []
  {
    hide Next, Index, PageAligned, Tree, Flat, CopiedBelow, NothingBelow, LowerHalf, TablesMatch;
    ghost var c0 := child.mem;
    ok := CopyLevel(parent, child, parent.pml4, child.pml4, 256, [], 0);
    if ok {
      SameTables(parent.mem, parent.pml4, c0, child.mem, child.pml4, keys);
    }
  }

  lemma SameTables(pm: Memory, proot: nat, c0: Memory, cm: Memory, croot: nat, keys: set<TableKey>)
    requires CopiedBelow(pm, proot, c0, cm, croot, [], 256) && NothingBelow(c0, croot, [])
    requires TablesMatch(pm, proot, keys) && LowerHalf(keys)
    ensures TablesMatch(cm, croot, keys)
  {
    hide WalkBy, PageOf, Index, KeyOf;
    forall virt: nat, level | 1 <= level <= 3 ensures TableMatches(cm, croot, keys, virt, level) {
      assert TableMatches(pm, proot, keys, virt, level);
      var q := Route(virt, 4 - level);
      RouteDigits(virt);
      PageFromIndices(virt);
      assert q[0] == Index(virt, 0);
      assert forall d :: 0 < d < |q| ==> q[d] < 512;
      assert CopiedWay(pm, proot, c0, cm, croot, [], 256, q);
    }
  }
}
