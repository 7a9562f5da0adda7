/**
 What the operations of a VMem arena do to its boundary tags, with its power-of-two freelists and its
 hash table of allocated segments (kernel/kernel/src/mem/vmem.cpp).
 */
module BoundaryTags {

  import opened Lists
  import opened SegmentList

  const NUM_FREELISTS: nat := 64
  const NUM_HASH_BUCKETS: nat := 16
  const NUM_STATIC_TAGS: nat := 128

  function Pow2(k: nat): nat {
    if k == 0 then 1 else 2 * Pow2(k - 1)
  }

  // freelist_index_for_size: the position of the highest bit that is set.
  function Log2(n: nat): nat
    requires 0 < n
  {
    if n == 1 then 0 else 1 + Log2(n / 2)
  }

  lemma {:induction false} Log2Bounds(n: nat)
    requires 0 < n
    ensures Pow2(Log2(n)) <= n < 2 * Pow2(Log2(n))
  {
    if n > 1 {
      Log2Bounds(n / 2);
    }
  }

  lemma {:induction false} Pow2Monotone(j: nat, k: nat)
    requires j <= k
    ensures 1 <= Pow2(j) <= Pow2(k)
    decreases k
  {
    if j < k {
      Pow2Monotone(j, k - 1);
    } else if j > 0 {
      Pow2Monotone(j - 1, j - 1);
    }
  }

  /** A size is on freelist k or a later one exactly when it is at least 2^k. */
  lemma Log2AtLeast(n: nat, k: nat)
    requires 0 < n
    ensures k <= Log2(n) <==> Pow2(k) <= n
  {
    Log2Bounds(n);
    if k <= Log2(n) {
      Pow2Monotone(k, Log2(n));
    } else {
      Pow2Monotone(Log2(n) + 1, k);
    }
  }

  lemma Pow2Of64()
    ensures Pow2(64) == 0x1_0000_0000_0000_0000
  {
    assert Pow2(8) == 256;
    assert Pow2(16) == 65536;
    assert Pow2(24) == 0x100_0000;
    assert Pow2(32) == 0x1_0000_0000;
    assert Pow2(40) == 0x100_0000_0000;
    assert Pow2(48) == 0x1_0000_0000_0000;
    assert Pow2(56) == 0x100_0000_0000_0000;
  }

  // The first freelist on which every segment is large enough.
  function FitIndex(size: nat): nat
    requires 0 < size
  {
    if size == Pow2(Log2(size)) then Log2(size) else Log2(size) + 1
  }

  /** That freelist begins at the least power of two that is at least the size. */
  lemma FitIndexIsLeast(size: nat, k: nat)
    requires 0 < size
    ensures size <= Pow2(FitIndex(size))
    ensures size <= Pow2(k) ==> FitIndex(size) <= k && Pow2(FitIndex(size)) <= Pow2(k)
  {
    Log2Bounds(size);
    if size <= Pow2(k) {
      if k < Log2(size) {
        Pow2Monotone(k + 1, Log2(size));
      } else if k == Log2(size) {
      } else {
        Pow2Monotone(FitIndex(size), k);
      }
    }
  }

  // ----- freelists and hash buckets -----

  // Which of a family of lists an id belongs on; a number that is no index means none.
  type Place = nat -> int

  function Override(f: Place, id: nat, v: int): Place {
    (x: nat) => if x == id then v else f(x)
  }

  ghost predicate Placed(lists: seq<seq<nat>>, f: Place) {
    && (forall k, id :: 0 <= k < |lists| ==> (id in lists[k] <==> f(id) == k))
    && (forall k :: 0 <= k < |lists| ==> NoDuplicates(lists[k]))
  }

  lemma PlacedRemove(lists: seq<seq<nat>>, f: Place, k: nat, id: nat)
    requires Placed(lists, f) && k < |lists| && f(id) == k
    ensures Placed(lists[k := Without(lists[k], id)], Override(f, id, -1))
  {
    WithoutMembers(lists[k], id);
  }

  lemma PlacedInsert(lists: seq<seq<nat>>, f: Place, k: nat, id: nat, l: seq<nat>)
    requires Placed(lists, f) && k < |lists| && !(0 <= f(id) < |lists|)
    requires l == lists[k] + [id] || l == [id] + lists[k]
    ensures Placed(lists[k := l], Override(f, id, k))
  {
    assert id !in lists[k];
    assert NoDuplicates(l);
    assert forall x: nat :: x in l <==> x in lists[k] || x == id;
  }

  lemma PlacedSame(lists: seq<seq<nat>>, f: Place, g: Place)
    requires Placed(lists, f) && forall id: nat :: g(id) == f(id)
    ensures Placed(lists, g)
  {
  }

  // Moving a segment to the tail of another freelist when its size class changes.
  function Moved(lists: seq<seq<nat>>, id: nat, from: nat, to: nat): (r: seq<seq<nat>>)
    requires from < |lists| && to < |lists|
    ensures |r| == |lists|
  {
    if from == to then lists
    else
      var removed := lists[from := Without(lists[from], id)];
      removed[to := removed[to] + [id]]
  }

  lemma PlacedMoved(lists: seq<seq<nat>>, f: Place, id: nat, from: nat, to: nat)
    requires Placed(lists, f) && from < |lists| && to < |lists| && f(id) == from
    ensures Placed(Moved(lists, id, from, to), Override(f, id, to))
  {
    if from == to {
      PlacedSame(lists, f, Override(f, id, to));
    } else {
      PlacedRemove(lists, f, from, id);
      var removed := lists[from := Without(lists[from], id)];
      var g := Override(f, id, -1);
      PlacedInsert(removed, g, to, id, removed[to] + [id]);
      PlacedSame(Moved(lists, id, from, to), Override(g, id, to), Override(f, id, to));
    }
  }

  function FreePlaceOf(t: Lookup): int {
    if t.Found? && t.tag.kind == FREE && 0 < t.tag.size then Log2(t.tag.size) else -1
  }

  // A free segment belongs on the freelist of its size ...
  function FreePlace(tags: seq<Tag>): Place {
    (id: nat) => FreePlaceOf(TagOf(tags, id))
  }

  function BucketPlaceOf(t: Lookup, hash: nat -> nat): int {
    if t.Found? && t.tag.kind == ALLOCATED then hash(t.tag.base) % NUM_HASH_BUCKETS else -1
  }

  // ... and an allocated one in the hash bucket of its base.
  function BucketPlace(tags: seq<Tag>, hash: nat -> nat): Place {
    (id: nat) => BucketPlaceOf(TagOf(tags, id), hash)
  }

  // ----- the arena invariant on the tags -----

  ghost predicate SoundTags(tags: seq<Tag>) {
    && Tiled(tags) && UniqueIds(tags) && SpansApart(tags)
    && (forall i :: 0 <= i < |tags| ==> tags[i].size < 0x1_0000_0000_0000_0000)
  }

  // Every static tag is either in the arena or in the pool of free tags, and only once.
  ghost predicate TagsConserved(tags: seq<Tag>, freeTags: seq<nat>) {
    && NoDuplicates(freeTags)
    && (forall i :: 0 <= i < |tags| ==> tags[i].id !in freeTags && tags[i].id < NUM_STATIC_TAGS)
    && (forall x :: x in freeTags ==> x < NUM_STATIC_TAGS)
    && |tags| + |freeTags| == NUM_STATIC_TAGS
  }

  lemma FreeIndexInRange(size: nat)
    requires 0 < size < 0x1_0000_0000_0000_0000
    ensures Log2(size) < NUM_FREELISTS
  {
    Pow2Of64();
    Log2AtLeast(size, 64);
  }

  // ----- taking part of a free segment -----

  // The tags after size bytes have been taken from the front of the free segment at pos; newId is the
  // tag for the taken part when something is left over.
  function AllocAt(tags: seq<Tag>, pos: nat, size: nat, newId: nat): seq<Tag>
    requires pos < |tags| && 0 < size <= tags[pos].size
  {
    Splice(tags, pos, pos + 1, AllocPiece(tags[pos], size, newId))
  }

  function AllocPiece(t: Tag, size: nat, newId: nat): seq<Tag>
    requires size <= t.size
  {
    if t.size == size then [t.(kind := ALLOCATED)]
    else [Tag(newId, t.base, size, ALLOCATED), t.(base := t.base + size, size := t.size - size)]
  }

  ghost predicate Allocatable(tags: seq<Tag>, pos: nat, size: nat, newId: nat) {
    && pos < |tags| && tags[pos].kind == FREE && 0 < size <= tags[pos].size
    && (size < tags[pos].size ==> forall i :: 0 <= i < |tags| ==> tags[i].id != newId)
  }

  lemma AllocFresh(tags: seq<Tag>, pos: nat, size: nat, newId: nat)
    requires UniqueIds(tags) && Allocatable(tags, pos, size, newId)
    ensures FreshPiece(tags, pos, pos + 1, AllocPiece(tags[pos], size, newId))
  {
  }

  lemma AllocTagOf(tags: seq<Tag>, pos: nat, size: nat, newId: nat, id: nat)
    requires UniqueIds(tags) && Allocatable(tags, pos, size, newId)
    ensures var t := tags[pos];
      TagOf(AllocAt(tags, pos, size, newId), id) ==
      (if t.size == size && id == t.id then Found(t.(kind := ALLOCATED))
       else if t.size != size && id == newId then Found(Tag(newId, t.base, size, ALLOCATED))
       else if id == t.id then Found(t.(base := t.base + size, size := t.size - size))
       else TagOf(tags, id))
  {
    AllocFresh(tags, pos, size, newId);
    var piece := AllocPiece(tags[pos], size, newId);
    SpliceTagOf(tags, pos, pos + 1, piece, id);
    if id != tags[pos].id {
      TagOfAbsent(tags[pos..pos + 1], id);
    }
    if |piece| == 2 {
      assert piece[1..] == [piece[1]];
    }
  }

  lemma AllocSound(tags: seq<Tag>, pos: nat, size: nat, newId: nat)
    requires SoundTags(tags) && Allocatable(tags, pos, size, newId)
    ensures SoundTags(AllocAt(tags, pos, size, newId))
    ensures Coalesced(tags) ==> Coalesced(AllocAt(tags, pos, size, newId))
  {
    hide Coalesced;
    var t := tags[pos];
    var piece := AllocPiece(t, size, newId);
    AllocFresh(tags, pos, size, newId);
    SpliceUnique(tags, pos, pos + 1, piece);
    SpliceAt(tags, pos, pos + 1, piece);
    assert tags[pos..pos + 1] == [t];
    forall c ensures Scan(c, piece) == Scan(c, tags[pos..pos + 1]) {
      ScanTwo(c, t, t);
      if t.size == size {
        ScanTwo(c, piece[0], piece[0]);
      } else {
        ScanTwo(c, piece[0], piece[1]);
      }
    }
    SpliceTiled(tags, pos, pos + 1, piece);
    SpansKept(tags, pos, pos + 1, piece);
    if Coalesced(tags) {
      AllocCoalesced(tags, pos, size, newId);
    }
  }

  lemma AllocCoalesced(tags: seq<Tag>, pos: nat, size: nat, newId: nat)
    requires Coalesced(tags) && pos < |tags| && tags[pos].kind == FREE && 0 < size <= tags[pos].size
    ensures Coalesced(AllocAt(tags, pos, size, newId))
  {
    var piece := AllocPiece(tags[pos], size, newId);
    var t := AllocAt(tags, pos, size, newId);
    SpliceAt(tags, pos, pos + 1, piece);
    forall i | 0 <= i < |t| - 1 ensures !(t[i].kind == FREE && t[i + 1].kind == FREE) {
      assert i + 1 < pos ==> t[i] == tags[i] && t[i + 1] == tags[i + 1];
      assert pos + |piece| <= i ==> t[i] == tags[i + 1 - |piece|] && t[i + 1] == tags[i + 2 - |piece|];
      assert i == pos + |piece| - 1 ==> t[i].kind == tags[pos].kind || t[i].kind == ALLOCATED;
    }
  }

  // A splice that neither takes away nor brings in a span tag keeps the spans apart.
  lemma SpansKept(tags: seq<Tag>, i: nat, j: nat, piece: seq<Tag>)
    requires SpansApart(tags) && i <= j <= |tags|
    requires forall k :: 0 <= k < |piece| ==> piece[k].kind != SPAN
    ensures SpansApart(Splice(tags, i, j, piece))
  {
    var t := Splice(tags, i, j, piece);
    SpliceAt(tags, i, j, piece);
    forall k, l | 0 <= k < l < |t| && t[k].kind == SPAN && t[l].kind == SPAN
      ensures t[k].End() <= t[l].base || t[l].End() <= t[k].base
    {
      var k1 := if k < i then k else k - |piece| + (j - i);
      var l1 := if l < i then l else l - |piece| + (j - i);
      assert t[k] == tags[k1] && t[l] == tags[l1];
    }
  }

  // ----- giving an allocated segment back, with the merge that is meant -----

  function LeftFree(tags: seq<Tag>, pos: nat): bool
    requires 0 < pos < |tags|
  {
    tags[pos - 1].kind == FREE
  }

  function RightFree(tags: seq<Tag>, pos: nat): bool
    requires 0 < pos < |tags|
  {
    pos + 1 < |tags| && tags[pos + 1].kind == FREE
  }

  // The positions that are replaced by one free segment, from First up to but not including Last.
  function First(tags: seq<Tag>, pos: nat): nat
    requires 0 < pos < |tags|
  {
    if LeftFree(tags, pos) then pos - 1 else pos
  }

  function Last(tags: seq<Tag>, pos: nat): nat
    requires 0 < pos < |tags|
  {
    if RightFree(tags, pos) then pos + 2 else pos + 1
  }

  // The one free segment; the tag of the right neighbour survives, or else that of the left one.
  function Merged(tags: seq<Tag>, pos: nat): Tag
    requires 0 < pos < |tags|
  {
    var left := if LeftFree(tags, pos) then tags[pos - 1].size else 0;
    var right := if RightFree(tags, pos) then tags[pos + 1].size else 0;
    Tag(if RightFree(tags, pos) then tags[pos + 1].id else tags[First(tags, pos)].id,
        tags[First(tags, pos)].base, left + tags[pos].size + right, FREE)
  }

  function FreeAt(tags: seq<Tag>, pos: nat): seq<Tag>
    requires 0 < pos < |tags|
  {
    Splice(tags, First(tags, pos), Last(tags, pos), [Merged(tags, pos)])
  }

  // A segment follows the one before it without a gap; the first segment of a span follows the span tag.
  lemma Follows(tags: seq<Tag>, i: nat)
    requires Tiled(tags) && i < |tags| && tags[i].kind != SPAN
    ensures 0 < i
    ensures tags[i - 1].kind != SPAN ==> tags[i].base == tags[i - 1].End()
    ensures SpanIndex(tags, i) == SpanIndex(tags, i - 1)
  {
    CursorAt(tags, i);
    CursorAt(tags, i - 1);
    PrefixScan(tags, i + 1);
    PrefixStep(tags, i);
  }

  lemma MergedFits(tags: seq<Tag>, pos: nat)
    requires SoundTags(tags) && pos < |tags| && tags[pos].kind == ALLOCATED
    ensures 0 < pos
    ensures Merged(tags, pos).End() == tags[Last(tags, pos) - 1].End()
    ensures 0 < tags[pos].size <= Merged(tags, pos).size < 0x1_0000_0000_0000_0000
  {
    hide Tiled, Coalesced, UniqueIds, SpansApart;
    Follows(tags, pos);
    CursorAt(tags, pos);
    if RightFree(tags, pos) {
      Follows(tags, pos + 1);
      CursorAt(tags, pos + 1);
    }
    if LeftFree(tags, pos) {
      CursorAt(tags, pos - 1);
    }
  }

  // Two segments in a row take the cursor as far as one segment over both.
  lemma AdvanceMerge(c: Cursor, t: Tag, u: Tag, m: Tag)
    requires t.kind != SPAN && u.kind != SPAN && m.kind != SPAN && 0 < t.size && 0 < u.size
    requires u.base == t.End() && m.base == t.base && m.size == t.size + u.size
    ensures Advance(Advance(c, t), u) == Advance(c, m)
  {
  }

  lemma MergeScan(c: Cursor, tags: seq<Tag>, pos: nat)
    requires SoundTags(tags) && 0 < pos < |tags| && tags[pos].kind == ALLOCATED
    ensures Scan(c, [Merged(tags, pos)]) == Scan(c, tags[First(tags, pos)..Last(tags, pos)])
  {
    hide Tiled, Coalesced, UniqueIds, SpansApart, SpanIndex, Advance, Scan;
    var l, h, t := First(tags, pos), Last(tags, pos), tags[pos];
    Follows(tags, pos);
    CursorAt(tags, pos);
    var half := t;
    ScanTwo(c, Merged(tags, pos), t);
    ScanConcat(c, tags[l..pos + 1], tags[pos + 1..h]);
    assert tags[l..pos + 1] + tags[pos + 1..h] == tags[l..h];
    if LeftFree(tags, pos) {
      var left := tags[pos - 1];
      CursorAt(tags, pos - 1);
      assert tags[l..pos + 1] == [left, t];
      ScanTwo(c, left, t);
      half := Tag(0, left.base, left.size + t.size, FREE);
      AdvanceMerge(c, left, t, half);
    } else {
      assert tags[l..pos + 1] == [t];
      ScanTwo(c, t, t);
    }
    assert Scan(c, tags[l..pos + 1]) == Advance(c, half);
    if RightFree(tags, pos) {
      var right := tags[pos + 1];
      Follows(tags, pos + 1);
      CursorAt(tags, pos + 1);
      assert tags[pos + 1..h] == [right];
      ScanTwo(Advance(c, half), right, right);
      AdvanceMerge(c, half, right, Merged(tags, pos));
    } else {
      assert tags[pos + 1..h] == [];
      assert Scan(Advance(c, half), []) == Advance(c, half) by {
        ScanNothing(Advance(c, half));
      }
      SameAdvance(c, half, Merged(tags, pos));
    }
  }

  lemma ScanNothing(c: Cursor)
    ensures Scan(c, []) == c
  {
  }

  lemma SameAdvance(c: Cursor, t: Tag, u: Tag)
    requires t.kind != SPAN && u.kind != SPAN && t.base == u.base && t.size == u.size
    ensures Advance(c, t) == Advance(c, u)
  {
  }

  lemma FreeCoalesced(tags: seq<Tag>, pos: nat)
    requires Coalesced(tags) && 0 < pos < |tags|
    ensures Coalesced(FreeAt(tags, pos))
  {
    var l, h := First(tags, pos), Last(tags, pos);
    var t := FreeAt(tags, pos);
    SpliceAt(tags, l, h, [Merged(tags, pos)]);
    forall i | 0 <= i < |t| - 1 ensures !(t[i].kind == FREE && t[i + 1].kind == FREE) {
      assert i + 1 < l ==> t[i] == tags[i] && t[i + 1] == tags[i + 1];
      assert i == l ==> t[i + 1] == tags[h];
      assert i + 1 == l ==> t[i] == tags[l - 1];
      assert l < i ==> t[i] == tags[i - 1 + (h - l)] && t[i + 1] == tags[i + (h - l)];
    }
  }

  /** Merging with the neighbours in list order, as it is meant. */
  lemma FreeSound(tags: seq<Tag>, pos: nat)
    requires SoundTags(tags) && 0 < pos < |tags| && tags[pos].kind == ALLOCATED
    ensures SoundTags(FreeAt(tags, pos))
    ensures Coalesced(tags) ==> Coalesced(FreeAt(tags, pos))
  {
    hide Tiled, Coalesced, UniqueIds, SpansApart;
    var l, h, t := First(tags, pos), Last(tags, pos), Merged(tags, pos);
    MergedFits(tags, pos);
    forall c ensures Scan(c, [t]) == Scan(c, tags[l..h]) {
      MergeScan(c, tags, pos);
    }
    SpliceTiled(tags, l, h, [t]);
    assert UniqueIds(FreeAt(tags, pos)) by {
      MergedFresh(tags, pos);
      SpliceUnique(tags, l, h, [t]);
    }
    SpansKept(tags, l, h, [t]);
    if Coalesced(tags) {
      FreeCoalesced(tags, pos);
    }
    SpliceAt(tags, l, h, [t]);
  }

  lemma MergedFresh(tags: seq<Tag>, pos: nat)
    requires UniqueIds(tags) && 0 < pos < |tags|
    ensures FreshPiece(tags, First(tags, pos), Last(tags, pos), [Merged(tags, pos)])
  {
  }

  lemma FreeTagOf(tags: seq<Tag>, pos: nat, id: nat)
    requires UniqueIds(tags) && 0 < pos < |tags|
    ensures TagOf(FreeAt(tags, pos), id) ==
      (if id == Merged(tags, pos).id then Found(Merged(tags, pos))
       else if id == tags[pos].id then NoTag
       else if LeftFree(tags, pos) && id == tags[pos - 1].id then NoTag
       else TagOf(tags, id))
  {
    var l, h, t := First(tags, pos), Last(tags, pos), Merged(tags, pos);
    SpliceTagOf(tags, l, h, [t], id);
    if id != t.id {
      if LeftFree(tags, pos) && id == tags[pos - 1].id {
        assert tags[l..h][0].id == id;
      } else if id == tags[pos].id {
        assert tags[l..h][pos - l].id == id;
      } else {
        TagOfAbsent(tags[l..h], id);
      }
    }
  }

  /** With that merge, giving back what was just taken restores the tags, and with them the free intervals,
      exactly. */
  lemma FreeUndoesAlloc(tags: seq<Tag>, pos: nat, size: nat, newId: nat)
    requires SoundTags(tags) && Coalesced(tags) && Allocatable(tags, pos, size, newId)
    ensures 0 < pos && FreeAt(AllocAt(tags, pos, size, newId), pos) == tags
  {
    Follows(tags, pos);
    var t := AllocAt(tags, pos, size, newId);
    SpliceAt(tags, pos, pos + 1, AllocPiece(tags[pos], size, newId));
    assert !LeftFree(t, pos);
    assert RightFree(t, pos) <==> size < tags[pos].size;
    assert Merged(t, pos) == tags[pos];
    SpliceAt(t, First(t, pos), Last(t, pos), [Merged(t, pos)]);
  }

  // ----- giving an allocated segment back, as it is done -----

  // xfree takes the link of a neighbour in the tag list for one that lies 16 bytes further on in the tag, so that
  // what it reads as the type of the neighbour is the low half of the base, and FREE is 0.
  predicate ReadsAsFree(t: Tag) {
    t.base % 0x1_0000_0000 == 0
  }

  // Whether xfree sets out to merge; it then writes to memory in front of the tag of the neighbour.
  predicate Misread(tags: seq<Tag>, pos: nat)
    requires 0 < pos < |tags|
  {
    ReadsAsFree(tags[pos - 1]) || (pos + 1 < |tags| && ReadsAsFree(tags[pos + 1]))
  }

  // What it does otherwise: the segment becomes free and is merged with nothing.
  function FreedInPlace(tags: seq<Tag>, pos: nat): seq<Tag>
    requires pos < |tags|
  {
    tags[pos := tags[pos].(kind := FREE)]
  }

  lemma FreedInPlaceSound(tags: seq<Tag>, pos: nat)
    requires SoundTags(tags) && 0 < pos < |tags| && tags[pos].kind == ALLOCATED
    ensures SoundTags(FreedInPlace(tags, pos))
  {
    var t := tags[pos].(kind := FREE);
    InPlaceSplice(tags, pos);
    assert tags[pos..pos + 1] == [tags[pos]];
    forall c ensures Scan(c, [t]) == Scan(c, tags[pos..pos + 1]) {
      ScanTwo(c, t, t);
      ScanTwo(c, tags[pos], tags[pos]);
    }
    SpliceTiled(tags, pos, pos + 1, [t]);
    SpansKept(tags, pos, pos + 1, [t]);
  }

  lemma InPlaceSplice(tags: seq<Tag>, pos: nat)
    requires pos < |tags|
    ensures FreedInPlace(tags, pos) == Splice(tags, pos, pos + 1, [tags[pos].(kind := FREE)])
  {
  }

  /** That is the merge that is meant exactly if there is nothing to merge with, and exactly then it leaves no two
      neighbours free. */
  lemma FreedInPlaceIsMergeIff(tags: seq<Tag>, pos: nat)
    requires SoundTags(tags) && 0 < pos < |tags| && tags[pos].kind == ALLOCATED
    ensures FreedInPlace(tags, pos) == FreeAt(tags, pos) <==> !LeftFree(tags, pos) && !RightFree(tags, pos)
    ensures Coalesced(tags) ==>
      (Coalesced(FreedInPlace(tags, pos)) <==> !LeftFree(tags, pos) && !RightFree(tags, pos))
  {
    var t := FreedInPlace(tags, pos);
    SpliceAt(tags, First(tags, pos), Last(tags, pos), [Merged(tags, pos)]);
    if LeftFree(tags, pos) {
      assert t[pos - 1].kind == FREE && t[pos].kind == FREE;
    }
    if RightFree(tags, pos) {
      assert t[pos].kind == FREE && t[pos + 1].kind == FREE;
    }
    if Coalesced(tags) && !LeftFree(tags, pos) && !RightFree(tags, pos) {
      FreeCoalesced(tags, pos);
      InPlaceSplice(tags, pos);
    }
  }

  /** Giving back what was just taken restores the tags exactly if it was the whole segment. */
  lemma FreedInPlaceUndoesAllocIff(tags: seq<Tag>, pos: nat, size: nat, newId: nat)
    requires SoundTags(tags) && Allocatable(tags, pos, size, newId)
    ensures pos < |AllocAt(tags, pos, size, newId)|
    ensures FreedInPlace(AllocAt(tags, pos, size, newId), pos) == tags <==> size == tags[pos].size
  {
    SpliceAt(tags, pos, pos + 1, AllocPiece(tags[pos], size, newId));
    if size == tags[pos].size {
      assert FreedInPlace(AllocAt(tags, pos, size, newId), pos)[pos] == tags[pos];
    }
  }

  lemma FreedInPlaceTagOf(tags: seq<Tag>, pos: nat, id: nat)
    requires UniqueIds(tags) && pos < |tags|
    ensures TagOf(FreedInPlace(tags, pos), id)
      == if id == tags[pos].id then Found(tags[pos].(kind := FREE)) else TagOf(tags, id)
  {
    var t := FreedInPlace(tags, pos);
    var k := Position(tags, id);
    if k < |tags| {
      PositionUnique(t, k);
    } else {
      TagOfAbsent(t, id);
    }
  }

  // ----- the addresses of each kind -----

  ghost predicate Covers(s: seq<Tag>, kind: TagType, a: nat) {
    exists i :: 0 <= i < |s| && s[i].kind == kind && s[i].base <= a < s[i].End()
  }

  lemma CoversConcat(s: seq<Tag>, t: seq<Tag>, kind: TagType, a: nat)
    ensures Covers(s + t, kind, a) <==> Covers(s, kind, a) || Covers(t, kind, a)
  {
    var u := s + t;
    if i :| 0 <= i < |s| && s[i].kind == kind && s[i].base <= a < s[i].End() {
      assert u[i] == s[i];
    }
    if i :| 0 <= i < |t| && t[i].kind == kind && t[i].base <= a < t[i].End() {
      assert u[|s| + i] == t[i];
    }
    if i :| 0 <= i < |u| && u[i].kind == kind && u[i].base <= a < u[i].End() {
      assert if i < |s| then u[i] == s[i] else u[i] == t[i - |s|];
    }
  }

  lemma CoversSplice(s: seq<Tag>, i: nat, j: nat, piece: seq<Tag>, kind: TagType, a: nat)
    requires i <= j <= |s|
    ensures Covers(Splice(s, i, j, piece), kind, a)
      <==> Covers(s[..i], kind, a) || Covers(piece, kind, a) || Covers(s[j..], kind, a)
    ensures Covers(s, kind, a) <==> Covers(s[..i], kind, a) || Covers(s[i..j], kind, a) || Covers(s[j..], kind, a)
  {
    CoversConcat(s[..i] + piece, s[j..], kind, a);
    CoversConcat(s[..i], piece, kind, a);
    CoversConcat(s[..i] + s[i..j], s[j..], kind, a);
    CoversConcat(s[..i], s[i..j], kind, a);
    assert s[..i] + s[i..j] + s[j..] == s;
  }

  // An address in the segments from i to j is in no other segment.
  lemma CoveredOnce(s: seq<Tag>, i: nat, j: nat, k: nat, kind: TagType, a: nat)
    requires Tiled(s) && SpansApart(s) && i <= k < j <= |s| && kind != SPAN
    requires s[k].kind != SPAN && s[k].base <= a < s[k].End()
    ensures !Covers(s[..i], kind, a) && !Covers(s[j..], kind, a)
  {
    forall l | 0 <= l < i && s[l].kind == kind ensures !(s[l].base <= a < s[l].End()) {
      SegmentsDisjoint(s, l, k);
    }
    forall l | j <= l < |s| && s[l].kind == kind ensures !(s[l].base <= a < s[l].End()) {
      SegmentsDisjoint(s, k, l);
    }
    assert forall l :: 0 <= l < |s[j..]| ==> s[j..][l] == s[j + l];
  }

  lemma CoversOne(t: Tag, kind: TagType, a: nat)
    ensures Covers([t], kind, a) <==> t.kind == kind && t.base <= a < t.End()
  {
    assert [t][0] == t;
  }

  /** The addresses taken are exactly the first size ones of the segment; all of them were free. */
  lemma AllocMovesAddresses(tags: seq<Tag>, pos: nat, size: nat, newId: nat, a: nat)
    requires SoundTags(tags) && Allocatable(tags, pos, size, newId)
    ensures var t, taken := AllocAt(tags, pos, size, newId), tags[pos].base <= a < tags[pos].base + size;
      && (Covers(t, FREE, a) <==> Covers(tags, FREE, a) && !taken)
      && (Covers(t, ALLOCATED, a) <==> Covers(tags, ALLOCATED, a) || taken)
      && (taken ==> Covers(tags, FREE, a) && !Covers(tags, ALLOCATED, a))
  {
    var piece := AllocPiece(tags[pos], size, newId);
    forall kind ensures Covers(piece, kind, a) <==> Covers([piece[0]], kind, a) || Covers(piece[1..], kind, a) {
      assert piece == [piece[0]] + piece[1..];
      CoversConcat([piece[0]], piece[1..], kind, a);
    }
    CoversOne(piece[0], FREE, a);
    CoversOne(piece[0], ALLOCATED, a);
    if |piece| == 2 {
      assert piece[1..] == [piece[1]];
      CoversOne(piece[1], FREE, a);
      CoversOne(piece[1], ALLOCATED, a);
    }
    assert tags[pos..pos + 1] == [tags[pos]];
    CoversOne(tags[pos], FREE, a);
    CoversOne(tags[pos], ALLOCATED, a);
    CoversSplice(tags, pos, pos + 1, piece, FREE, a);
    CoversSplice(tags, pos, pos + 1, piece, ALLOCATED, a);
    if tags[pos].base <= a < tags[pos].base + size {
      CoveredOnce(tags, pos, pos + 1, pos, FREE, a);
      CoveredOnce(tags, pos, pos + 1, pos, ALLOCATED, a);
    }
  }

  // The addresses of the segments that are merged.
  lemma MergedAddresses(tags: seq<Tag>, pos: nat, a: nat)
    requires SoundTags(tags) && 0 < pos < |tags| && tags[pos].kind == ALLOCATED
    ensures var l, h, m, given := First(tags, pos), Last(tags, pos), Merged(tags, pos), tags[pos].base <= a < tags[pos].End();
      && (m.base <= a < m.End() <==> given || Covers(tags[l..h], FREE, a))
      && (Covers(tags[l..h], ALLOCATED, a) <==> given)
  {
    hide Tiled, Coalesced, UniqueIds, SpansApart, SpanIndex, Covers;
    var l, h := First(tags, pos), Last(tags, pos);
    MergedFits(tags, pos);
    Follows(tags, pos);
    if RightFree(tags, pos) {
      Follows(tags, pos + 1);
    }
    forall kind ensures Covers(tags[l..h], kind, a)
      <==> Covers([tags[l]], kind, a) || Covers([tags[pos]], kind, a) || Covers([tags[h - 1]], kind, a)
    {
      CoversThree(tags[l..h], kind, a);
      assert tags[l..h][pos - l] == tags[pos];
      assert h - l == 2 ==> pos == l || pos == h - 1;
      assert h - l == 3 ==> pos == l + 1;
    }
    CoversOne(tags[l], FREE, a);
    CoversOne(tags[pos], FREE, a);
    CoversOne(tags[h - 1], FREE, a);
    CoversOne(tags[l], ALLOCATED, a);
    CoversOne(tags[pos], ALLOCATED, a);
    CoversOne(tags[h - 1], ALLOCATED, a);
  }

  lemma CoversThree(s: seq<Tag>, kind: TagType, a: nat)
    requires 1 <= |s| <= 3
    ensures Covers(s, kind, a) <==>
      Covers([s[0]], kind, a) || Covers([s[|s| / 2]], kind, a) || Covers([s[|s| - 1]], kind, a)
  {
    CoversOne(s[0], kind, a);
    CoversOne(s[|s| / 2], kind, a);
    CoversOne(s[|s| - 1], kind, a);
  }

  /** What xfree does frees exactly the addresses of the block, too. */
  lemma FreedInPlaceMovesAddresses(tags: seq<Tag>, pos: nat, a: nat)
    requires SoundTags(tags) && 0 < pos < |tags| && tags[pos].kind == ALLOCATED
    ensures var t, given := FreedInPlace(tags, pos), tags[pos].base <= a < tags[pos].End();
      && (Covers(t, FREE, a) <==> Covers(tags, FREE, a) || given)
      && (Covers(t, ALLOCATED, a) <==> Covers(tags, ALLOCATED, a) && !given)
  {
    hide Tiled, UniqueIds, SpansApart, Covers, Splice;
    var m := tags[pos].(kind := FREE);
    InPlaceSplice(tags, pos);
    CoversOne(m, FREE, a);
    CoversOne(m, ALLOCATED, a);
    assert tags[pos..pos + 1] == [tags[pos]];
    CoversOne(tags[pos], FREE, a);
    CoversOne(tags[pos], ALLOCATED, a);
    CoversSplice(tags, pos, pos + 1, [m], FREE, a);
    CoversSplice(tags, pos, pos + 1, [m], ALLOCATED, a);
    if tags[pos].base <= a < tags[pos].End() {
      CoveredOnce(tags, pos, pos + 1, pos, ALLOCATED, a);
    }
  }

  /** With the merge that is meant, giving a block back frees exactly its addresses, whichever neighbours it is
      merged with. */
  lemma FreeMovesAddresses(tags: seq<Tag>, pos: nat, a: nat)
    requires SoundTags(tags) && 0 < pos < |tags| && tags[pos].kind == ALLOCATED
    ensures var t, given := FreeAt(tags, pos), tags[pos].base <= a < tags[pos].End();
      && (Covers(t, FREE, a) <==> Covers(tags, FREE, a) || given)
      && (Covers(t, ALLOCATED, a) <==> Covers(tags, ALLOCATED, a) && !given)
  {
    hide Tiled, Coalesced, UniqueIds, SpansApart, Covers, Splice;
    var l, h, m := First(tags, pos), Last(tags, pos), Merged(tags, pos);
    MergedAddresses(tags, pos, a);
    CoversOne(m, FREE, a);
    CoversOne(m, ALLOCATED, a);
    CoversSplice(tags, l, h, [m], FREE, a);
    CoversSplice(tags, l, h, [m], ALLOCATED, a);
    if tags[pos].base <= a < tags[pos].End() {
      CoveredOnce(tags, l, h, pos, ALLOCATED, a);
    }
  }
}
