/** The VMem arena as an object (kernel/kernel/src/mem/vmem.cpp). */
module VmemArena {

  import opened Lists
  import opened SegmentList
  import opened BoundaryTags

  // NoTags is an assertion; UndefinedIndex is __builtin_clzl(0), for which there is no freelist.
  datatype AddResult = Added | NoTags | UndefinedIndex
  datatype AllocResult = Block(addr: nat) | Failed | AllocPanic
  // WrongMerge: a word of the wrong neighbour was read as FREE, and memory in front of its tag is written.
  datatype FreeResult = Freed | NoSegmentPanic | MismatchPanic | WrongMerge

  // ----- where the lists must have changed -----

  lemma AllocFreePlace(tags: seq<Tag>, pos: nat, size: nat, newId: nat)
    requires UniqueIds(tags) && Allocatable(tags, pos, size, newId)
    ensures var t, g := tags[pos], Override(FreePlace(tags), tags[pos].id, -1);
      forall id: nat :: FreePlace(AllocAt(tags, pos, size, newId))(id)
        == (if t.size == size then g else Override(g, t.id, Log2(t.size - size)))(id)
  {
    forall id: nat ensures FreePlace(AllocAt(tags, pos, size, newId))(id)
      == (var t, g := tags[pos], Override(FreePlace(tags), tags[pos].id, -1);
          (if t.size == size then g else Override(g, t.id, Log2(t.size - size)))(id))
    {
      AllocTagOf(tags, pos, size, newId, id);
      if size < tags[pos].size {
        TagOfAbsent(tags, newId);
      }
    }
  }

  lemma AllocBucketPlace(tags: seq<Tag>, pos: nat, size: nat, newId: nat, hash: nat -> nat)
    requires UniqueIds(tags) && Allocatable(tags, pos, size, newId)
    ensures var owner := if tags[pos].size == size then tags[pos].id else newId;
      var g := Override(BucketPlace(tags, hash), owner, hash(tags[pos].base) % NUM_HASH_BUCKETS);
      forall id: nat :: BucketPlace(AllocAt(tags, pos, size, newId), hash)(id) == g(id)
  {
    forall id: nat ensures BucketPlace(AllocAt(tags, pos, size, newId), hash)(id)
      == Override(BucketPlace(tags, hash), if tags[pos].size == size then tags[pos].id else newId,
                  hash(tags[pos].base) % NUM_HASH_BUCKETS)(id)
    {
      AllocTagOf(tags, pos, size, newId, id);
      TagOfMember(tags, pos);
    }
  }

  // The freelists' places after a segment has been given back: the surviving tag is on the list of the
  // merged size and the absorbed neighbour on none.
  function FreedPlace(tags: seq<Tag>, pos: nat): Place
    requires 0 < pos < |tags| && 0 < Merged(tags, pos).size
  {
    var f := FreePlace(tags);
    var g := if LeftFree(tags, pos) then Override(f, tags[pos - 1].id, -1) else f;
    Override(g, Merged(tags, pos).id, Log2(Merged(tags, pos).size))
  }

  lemma FreeFreePlace(tags: seq<Tag>, pos: nat)
    requires UniqueIds(tags) && 0 < pos < |tags| && tags[pos].kind == ALLOCATED && 0 < Merged(tags, pos).size
    ensures forall id: nat :: FreePlace(FreeAt(tags, pos))(id) == FreedPlace(tags, pos)(id)
  {
    forall id: nat ensures FreePlace(FreeAt(tags, pos))(id) == FreedPlace(tags, pos)(id) {
      FreeTagOf(tags, pos, id);
      TagOfMember(tags, pos);
    }
  }

  lemma FreeBucketPlace(tags: seq<Tag>, pos: nat, hash: nat -> nat)
    requires UniqueIds(tags) && 0 < pos < |tags| && tags[pos].kind == ALLOCATED
    ensures var g := Override(BucketPlace(tags, hash), tags[pos].id, -1);
      forall id: nat :: BucketPlace(FreeAt(tags, pos), hash)(id) == g(id)
  {
    forall id: nat ensures BucketPlace(FreeAt(tags, pos), hash)(id)
      == Override(BucketPlace(tags, hash), tags[pos].id, -1)(id)
    {
      FreeTagOf(tags, pos, id);
      TagOfMember(tags, pos);
      TagOfMember(tags, pos - 1);
      if pos + 1 < |tags| {
        TagOfMember(tags, pos + 1);
      }
    }
  }

  // The lists' places after a segment has become free where it is.
  lemma FreedInPlacePlaces(tags: seq<Tag>, pos: nat, hash: nat -> nat)
    requires UniqueIds(tags) && pos < |tags| && tags[pos].kind == ALLOCATED && 0 < tags[pos].size
    ensures var t, id := FreedInPlace(tags, pos), tags[pos].id;
      && (forall x: nat :: FreePlace(t)(x) == Override(FreePlace(tags), id, Log2(tags[pos].size))(x))
      && (forall x: nat :: BucketPlace(t, hash)(x) == Override(BucketPlace(tags, hash), id, -1)(x))
  {
    forall x: nat ensures var t, id := FreedInPlace(tags, pos), tags[pos].id;
      && FreePlace(t)(x) == Override(FreePlace(tags), id, Log2(tags[pos].size))(x)
      && BucketPlace(t, hash)(x) == Override(BucketPlace(tags, hash), id, -1)(x)
    {
      FreedInPlaceTagOf(tags, pos, x);
    }
  }

  lemma FreedInPlaceConserves(tags: seq<Tag>, pos: nat, freeTags: seq<nat>)
    requires TagsConserved(tags, freeTags) && pos < |tags|
    ensures TagsConserved(FreedInPlace(tags, pos), freeTags)
  {
  }

  // A tag on a freelist is a free segment of that list's size class.
  lemma OnFreelist(tags: seq<Tag>, lists: seq<seq<nat>>, k: nat, id: nat)
    requires UniqueIds(tags) && Placed(lists, FreePlace(tags)) && k < |lists| && id in lists[k]
    ensures var pos := Position(tags, id);
      pos < |tags| && tags[pos].id == id && tags[pos].kind == FREE && 0 < tags[pos].size && Log2(tags[pos].size) == k
  {
    assert FreePlace(tags)(id) == k;
  }

  lemma FreeOnFreelist(tags: seq<Tag>, lists: seq<seq<nat>>, pos: nat)
    requires UniqueIds(tags) && Placed(lists, FreePlace(tags)) && pos < |tags|
    requires tags[pos].kind == FREE && 0 < tags[pos].size && Log2(tags[pos].size) < |lists|
    ensures tags[pos].id in lists[Log2(tags[pos].size)]
    ensures FreePlace(tags)(tags[pos].id) == Log2(tags[pos].size)
  {
    TagOfMember(tags, pos);
    assert FreePlace(tags)(tags[pos].id) == Log2(tags[pos].size);
  }

  lemma InBucket(tags: seq<Tag>, table: seq<seq<nat>>, hash: nat -> nat, b: nat, id: nat)
    requires UniqueIds(tags) && Placed(table, BucketPlace(tags, hash)) && b < |table| && id in table[b]
    ensures var pos := Position(tags, id);
      pos < |tags| && tags[pos].id == id && tags[pos].kind == ALLOCATED && b == hash(tags[pos].base) % NUM_HASH_BUCKETS
  {
    assert BucketPlace(tags, hash)(id) == b;
  }

  lemma AllocatedInBucket(tags: seq<Tag>, table: seq<seq<nat>>, hash: nat -> nat, pos: nat)
    requires UniqueIds(tags) && Placed(table, BucketPlace(tags, hash)) && |table| == NUM_HASH_BUCKETS
    requires pos < |tags| && tags[pos].kind == ALLOCATED
    ensures tags[pos].id in table[hash(tags[pos].base) % NUM_HASH_BUCKETS]
    ensures BucketPlace(tags, hash)(tags[pos].id) == hash(tags[pos].base) % NUM_HASH_BUCKETS
  {
    TagOfMember(tags, pos);
    assert BucketPlace(tags, hash)(tags[pos].id) == hash(tags[pos].base) % NUM_HASH_BUCKETS;
  }

  /** Live blocks have different bases. */
  lemma BlockBasesDiffer(tags: seq<Tag>, i: nat, j: nat)
    requires SoundTags(tags) && i < j < |tags| && tags[i].kind == ALLOCATED && tags[j].kind == ALLOCATED
    ensures tags[i].base != tags[j].base
  {
    SegmentsDisjoint(tags, i, j);
    CursorAt(tags, i);
    CursorAt(tags, j);
  }

  ghost predicate Live(tags: seq<Tag>, addr: nat) {
    exists i :: 0 <= i < |tags| && tags[i].kind == ALLOCATED && tags[i].base == addr
  }

  // ----- where a new span goes -----

  function FirstSpanFrom(tags: seq<Tag>, i: nat, base: nat): (k: nat)
    requires i <= |tags|
    ensures i <= k <= |tags|
    ensures k < |tags| ==> tags[k].kind == SPAN && tags[k].base >= base
    decreases |tags| - i
  {
    if i == |tags| || (tags[i].kind == SPAN && tags[i].base >= base) then i else FirstSpanFrom(tags, i + 1, base)
  }

  // Behind the first span whose base is not below the new one, or at the front when there is none.
  function SpanPosition(tags: seq<Tag>, base: nat): (k: nat)
    ensures k <= |tags|
  {
    var p := FirstSpanFrom(tags, 0, base);
    if p == |tags| then 0 else FirstSpanFrom(tags, p + 1, 0)
  }

  lemma SpanPositionIsBoundary(tags: seq<Tag>, base: nat)
    ensures var k := SpanPosition(tags, base); k == 0 || k == |tags| || tags[k].kind == SPAN
  {
  }

  ghost predicate ApartFromSpans(tags: seq<Tag>, base: nat, size: nat) {
    forall i :: 0 <= i < |tags| && tags[i].kind == SPAN ==> tags[i].End() <= base || base + size <= tags[i].base
  }

  function WithSpan(tags: seq<Tag>, base: nat, size: nat, span: nat, segment: nat): seq<Tag> {
    var k := SpanPosition(tags, base);
    Splice(tags, k, k, [Tag(span, base, size, SPAN), Tag(segment, base, size, FREE)])
  }

  ghost predicate NewIds(tags: seq<Tag>, span: nat, segment: nat) {
    span != segment && forall i :: 0 <= i < |tags| ==> tags[i].id != span && tags[i].id != segment
  }

  // Where the new span goes, the spans before are complete and the next tag starts a span.
  lemma SpanPositionComplete(tags: seq<Tag>, base: nat)
    requires Tiled(tags)
    ensures var k := SpanPosition(tags, base);
      && var c := Scan(At(0, 0), tags[..k]);
      && c.At? && c.cur == c.end && (tags[k..] != [] ==> tags[k..][0].kind == SPAN)
  {
    hide FirstSpanFrom, Scan;
    var k := SpanPosition(tags, base);
    SpanPositionIsBoundary(tags, base);
    PrefixScan(tags, k);
    if k == |tags| {
      assert tags[..k] == tags;
    } else {
      CursorAt(tags, k);
      if k == 0 {
        assert tags[..k] == [];
        ScanNothing(At(0, 0));
      } else {
        PrefixScan(tags, k + 1);
        PrefixStep(tags, k);
      }
    }
  }

  lemma WithSpanTiled(tags: seq<Tag>, base: nat, size: nat, span: nat, segment: nat)
    requires Tiled(tags) && 0 < size
    ensures Tiled(WithSpan(tags, base, size, span, segment))
  {
    hide SpanPosition, FirstSpanFrom, Scan;
    var k := SpanPosition(tags, base);
    var a, b := Tag(span, base, size, SPAN), Tag(segment, base, size, FREE);
    var c := Scan(At(0, 0), tags[..k]);
    SpanPositionComplete(tags, base);
    ScanTwo(c, a, b);
    ScanConcat(At(0, 0), tags[..k], [a, b]);
    ScanConcat(At(0, 0), tags[..k] + [a, b], tags[k..]);
    ScanConcat(At(0, 0), tags[..k], tags[k..]);
    assert tags[..k] + tags[k..] == tags;
    AtBoundary(c, At(base + size, base + size), tags[k..]);
  }

  // What comes next does not depend on which span has just been completed.
  lemma AtBoundary(c: Cursor, d: Cursor, s: seq<Tag>)
    requires c.At? && c.cur == c.end && d.At? && d.cur == d.end
    requires s != [] ==> s[0].kind == SPAN
    requires Scan(c, s).At? && Scan(c, s).cur == Scan(c, s).end
    ensures Scan(d, s).At? && Scan(d, s).cur == Scan(d, s).end
  {
  }

  lemma WithSpanApart(tags: seq<Tag>, base: nat, size: nat, span: nat, segment: nat)
    requires SpansApart(tags)
    ensures SpansApart(WithSpan(tags, base, size, span, segment)) <==> ApartFromSpans(tags, base, size)
  {
    hide SpanPosition, FirstSpanFrom;
    if ApartFromSpans(tags, base, size) {
      WithSpanStaysApart(tags, base, size, span, segment);
    }
    var k := SpanPosition(tags, base);
    var t := WithSpan(tags, base, size, span, segment);
    SpliceAt(tags, k, k, [Tag(span, base, size, SPAN), Tag(segment, base, size, FREE)]);
    if SpansApart(t) {
      forall i | 0 <= i < |tags| && tags[i].kind == SPAN
        ensures tags[i].End() <= base || base + size <= tags[i].base
      {
        var j := if i < k then i else i + 2;
        assert t[j] == tags[i] && t[k] == Tag(span, base, size, SPAN);
      }
    }
  }

  lemma WithSpanStaysApart(tags: seq<Tag>, base: nat, size: nat, span: nat, segment: nat)
    requires SpansApart(tags) && ApartFromSpans(tags, base, size)
    ensures SpansApart(WithSpan(tags, base, size, span, segment))
  {
    hide SpanPosition, FirstSpanFrom;
    var k := SpanPosition(tags, base);
    var t := WithSpan(tags, base, size, span, segment);
    SpliceAt(tags, k, k, [Tag(span, base, size, SPAN), Tag(segment, base, size, FREE)]);
    forall i, j | 0 <= i < j < |t| && t[i].kind == SPAN && t[j].kind == SPAN
      ensures t[i].End() <= t[j].base || t[j].End() <= t[i].base
    {
      if i != k && j != k {
        var i1, j1 := if i < k then i else i - 2, if j < k then j else j - 2;
        assert t[i] == tags[i1] && t[j] == tags[j1];
      } else {
        var l := if i == k then j - 2 else i;
        assert (if i == k then t[j] else t[i]) == tags[l];
      }
    }
  }

  lemma WithSpanCoalesced(tags: seq<Tag>, base: nat, size: nat, span: nat, segment: nat)
    requires Coalesced(tags) && (tags != [] ==> tags[0].kind == SPAN)
    ensures Coalesced(WithSpan(tags, base, size, span, segment))
  {
    hide FirstSpanFrom;
    var k := SpanPosition(tags, base);
    var t := WithSpan(tags, base, size, span, segment);
    SpliceAt(tags, k, k, [Tag(span, base, size, SPAN), Tag(segment, base, size, FREE)]);
    SpanPositionIsBoundary(tags, base);
    forall i | 0 <= i < |t| - 1 ensures !(t[i].kind == FREE && t[i + 1].kind == FREE) {
      assert i + 1 < k ==> t[i] == tags[i] && t[i + 1] == tags[i + 1];
      assert k + 1 < i ==> t[i] == tags[i - 2] && t[i + 1] == tags[i - 1];
      assert i == k + 1 ==> t[i + 1] == tags[k];
    }
  }

  // Sound but for spans that overlap.
  ghost predicate OrderedTags(tags: seq<Tag>) {
    && Tiled(tags) && UniqueIds(tags)
    && (forall i :: 0 <= i < |tags| ==> tags[i].size < 0x1_0000_0000_0000_0000)
  }

  /** A new span keeps the tags sound exactly if it overlaps no other. */
  lemma WithSpanSound(tags: seq<Tag>, base: nat, size: nat, span: nat, segment: nat)
    requires SoundTags(tags) && 0 < size < 0x1_0000_0000_0000_0000
    requires NewIds(tags, span, segment)
    ensures OrderedTags(WithSpan(tags, base, size, span, segment))
    ensures SoundTags(WithSpan(tags, base, size, span, segment)) <==> ApartFromSpans(tags, base, size)
    ensures Coalesced(tags) ==> Coalesced(WithSpan(tags, base, size, span, segment))
  {
    hide Tiled, SpansApart, Coalesced, ApartFromSpans, UniqueIds, SpanPosition, FirstSpanFrom;
    var k := SpanPosition(tags, base);
    var piece := [Tag(span, base, size, SPAN), Tag(segment, base, size, FREE)];
    WithSpanTiled(tags, base, size, span, segment);
    WithSpanApart(tags, base, size, span, segment);
    if tags != [] {
      CursorAt(tags, 0);
    }
    if Coalesced(tags) {
      WithSpanCoalesced(tags, base, size, span, segment);
    }
    PairFresh(tags, k, piece);
    SpliceUnique(tags, k, k, piece);
    SpliceAt(tags, k, k, piece);
  }

  lemma PairFresh(tags: seq<Tag>, k: nat, piece: seq<Tag>)
    requires k <= |tags| && |piece| == 2 && NewIds(tags, piece[0].id, piece[1].id)
    ensures FreshPiece(tags, k, k, piece)
  {
  }

  lemma WithSpanConserves(tags: seq<Tag>, base: nat, size: nat, freeTags: seq<nat>)
    requires TagsConserved(tags, freeTags) && 2 <= |freeTags|
    ensures NewIds(tags, freeTags[0], freeTags[1])
    ensures TagsConserved(WithSpan(tags, base, size, freeTags[0], freeTags[1]), freeTags[2..])
  {
    var k := SpanPosition(tags, base);
    SpliceAt(tags, k, k, [Tag(freeTags[0], base, size, SPAN), Tag(freeTags[1], base, size, FREE)]);
    assert freeTags[0] in freeTags && freeTags[1] in freeTags;
    assert forall x :: x in freeTags[2..] ==> x in freeTags;
  }

  lemma WithSpanTagOf(tags: seq<Tag>, base: nat, size: nat, span: nat, segment: nat, id: nat)
    requires UniqueIds(tags) && NewIds(tags, span, segment)
    ensures TagOf(WithSpan(tags, base, size, span, segment), id) ==
      (if id == span then Found(Tag(span, base, size, SPAN))
       else if id == segment then Found(Tag(segment, base, size, FREE))
       else TagOf(tags, id))
  {
    var k := SpanPosition(tags, base);
    var piece := [Tag(span, base, size, SPAN), Tag(segment, base, size, FREE)];
    SpliceTagOf(tags, k, k, piece, id);
    TagOfAbsent(tags[k..k], id);
    assert piece[1..] == [piece[1]];
  }

  lemma WithSpanPlaces(tags: seq<Tag>, base: nat, size: nat, span: nat, segment: nat, hash: nat -> nat)
    requires UniqueIds(tags) && NewIds(tags, span, segment) && 0 < size
    ensures var t, g := WithSpan(tags, base, size, span, segment), Override(FreePlace(tags), segment, Log2(size));
      && (forall id: nat :: FreePlace(t)(id) == g(id))
      && (forall id: nat :: BucketPlace(tags, hash)(id) == BucketPlace(t, hash)(id))
  {
    TagOfAbsent(tags, span);
    TagOfAbsent(tags, segment);
    forall id: nat ensures var t := WithSpan(tags, base, size, span, segment);
      && FreePlace(t)(id) == Override(FreePlace(tags), segment, Log2(size))(id)
      && BucketPlace(tags, hash)(id) == BucketPlace(t, hash)(id)
    {
      WithSpanTagOf(tags, base, size, span, segment, id);
    }
  }

  // The head of freelist k is what instant fit takes for a size: no list from the first that fits up to k
  // has a segment.
  ghost predicate FitsAt(tags: seq<Tag>, lists: seq<seq<nat>>, size: nat, k: nat)
    requires 0 < size
  {
    && FitIndex(size) <= k < |lists| && lists[k] != []
    && (forall j :: FitIndex(size) <= j < k ==> lists[j] == [])
    && Position(tags, lists[k][0]) < |tags|
    && var t := tags[Position(tags, lists[k][0])];
    t.kind == FREE && Pow2(FitIndex(size)) <= t.size
  }

  // How an allocation ends.
  ghost predicate AllocOutcome(tags: seq<Tag>, lists: seq<seq<nat>>, pool: seq<nat>, quantum: nat, size: nat,
                               r: AllocResult, k: nat)
    requires 0 < quantum
  {
    if size == 0 || size % quantum != 0 then r == AllocPanic
    else match r
      case Failed => forall i :: 0 <= i < |tags| && tags[i].kind == FREE ==> tags[i].size < Pow2(FitIndex(size))
      case AllocPanic => FitsAt(tags, lists, size, k) && size < tags[Position(tags, lists[k][0])].size && pool == []
      case Block(addr) =>
        && FitsAt(tags, lists, size, k) && addr == tags[Position(tags, lists[k][0])].base
        && (size < tags[Position(tags, lists[k][0])].size ==> pool != [])
  }

  class Arena {
    const quantum: nat
    // The hash of an address.
    const hash: nat -> nat
    // Every tag of the arena in list order. A tag is named by its id on the other lists; the span list is
    // the span tags in this order.
    var tags: seq<Tag>
    var freeTags: seq<nat>
    var freelists: seq<seq<nat>>
    var hashTable: seq<seq<nat>>

    ghost predicate Valid()
      reads this
    {
      && 0 < quantum
      && SoundTags(tags) && TagsConserved(tags, freeTags)
      && |freelists| == NUM_FREELISTS && Placed(freelists, FreePlace(tags))
      && |hashTable| == NUM_HASH_BUCKETS && Placed(hashTable, BucketPlace(tags, hash))
    }

    // Valid but for spans that overlap.
    ghost predicate Arranged()
      reads this
    {
      && 0 < quantum
      && OrderedTags(tags) && TagsConserved(tags, freeTags)
      && |freelists| == NUM_FREELISTS && Placed(freelists, FreePlace(tags))
      && |hashTable| == NUM_HASH_BUCKETS && Placed(hashTable, BucketPlace(tags, hash))
    }

    constructor (quantum: nat, hash: nat -> nat)
      requires 0 < quantum
      ensures Valid() && Coalesced(tags) && tags == [] && this.quantum == quantum && this.hash == hash
    {
      this.quantum := quantum;
      this.hash := hash;
      tags := [];
      freeTags := seq(NUM_STATIC_TAGS, i => i);
      freelists := seq(NUM_FREELISTS, i => []);
      hashTable := seq(NUM_HASH_BUCKETS, i => []);
      new;
      assert forall id: nat :: TagOf([], id) == NoTag;
    }

    method AllocateTag() returns (id: nat)
      requires freeTags != []
      modifies `freeTags
      ensures old(freeTags) == [id] + freeTags
    {
      id := freeTags[0];
      freeTags := freeTags[1..];
    }

    method FreeTag(id: nat)
      modifies `freeTags
      ensures freeTags == old(freeTags) + [id]
    {
      freeTags := freeTags + [id];
    }

    method FreelistInsert(id: nat, size: nat, ghost f: Place)
      requires 0 < size && Log2(size) < |freelists|
      requires Placed(freelists, f) && !(0 <= f(id) < |freelists|)
      modifies `freelists
      ensures freelists == old(freelists)[Log2(size) := old(freelists)[Log2(size)] + [id]]
      ensures Placed(freelists, Override(f, id, Log2(size)))
    {
      var k := Log2(size);
      PlacedInsert(freelists, f, k, id, freelists[k] + [id]);
      freelists := freelists[k := freelists[k] + [id]];
    }

    method HashTableInsert(id: nat, base: nat, ghost f: Place)
      requires |hashTable| == NUM_HASH_BUCKETS
      requires Placed(hashTable, f) && !(0 <= f(id) < |hashTable|)
      modifies `hashTable
      ensures var b := hash(base) % NUM_HASH_BUCKETS;
        hashTable == old(hashTable)[b := [id] + old(hashTable)[b]] && Placed(hashTable, Override(f, id, b))
    {
      var b := hash(base) % NUM_HASH_BUCKETS;
      PlacedInsert(hashTable, f, b, id, [id] + hashTable[b]);
      hashTable := hashTable[b := [id] + hashTable[b]];
    }

    /** A free segment is given new bounds and moves to the freelist of its new size. */
    method ExpandFreeSegment(pos: nat, newBase: nat, newSize: nat, ghost f: Place)
      requires pos < |tags| && 0 < tags[pos].size && 0 < newSize
      requires Log2(tags[pos].size) < |freelists| && Log2(newSize) < |freelists|
      requires Placed(freelists, f) && f(tags[pos].id) == Log2(tags[pos].size)
      modifies `tags, `freelists
      ensures tags == old(tags)[pos := old(tags)[pos].(base := newBase, size := newSize)]
      ensures Placed(freelists, Override(f, old(tags)[pos].id, Log2(newSize)))
      ensures freelists == Moved(old(freelists), old(tags)[pos].id, Log2(old(tags)[pos].size), Log2(newSize))
    {
      var t := tags[pos];
      var oldIndex, newIndex := Log2(t.size), Log2(newSize);
      PlacedMoved(freelists, f, t.id, oldIndex, newIndex);
      tags := tags[pos := t.(base := newBase, size := newSize)];
      if newIndex != oldIndex {
        freelists := freelists[oldIndex := Without(freelists[oldIndex], t.id)];
        freelists := freelists[newIndex := freelists[newIndex] + [t.id]];
      }
    }

    // The first span from position i on whose base is not below the given one.
    method FindSpan(i: nat, base: nat) returns (k: nat)
      requires i <= |tags|
      ensures k == FirstSpanFrom(tags, i, base)
    {
      k := i;
      while k < |tags| && !(tags[k].kind == SPAN && tags[k].base >= base)
        invariant i <= k <= |tags|
        invariant FirstSpanFrom(tags, k, base) == FirstSpanFrom(tags, i, base)
      {
        k := k + 1;
      }
    }

    /** A new span starts as one free segment; the arena is valid afterwards exactly if no other span overlaps it. */
    method Add(base: nat, size: nat) returns (r: AddResult)
      requires Valid() && size < 0x1_0000_0000_0000_0000
      modifies this
      ensures r == (if |old(freeTags)| < 2 then NoTags else if size == 0 then UndefinedIndex else Added)
      ensures r == Added ==>
        && Arranged() && (Valid() <==> ApartFromSpans(old(tags), base, size))
        && tags == WithSpan(old(tags), base, size, old(freeTags)[0], old(freeTags)[1])
        && hashTable == old(hashTable) && freeTags == old(freeTags)[2..]
        && (old(Coalesced(tags)) ==> Coalesced(tags))
    {
      hide Tiled, Coalesced, UniqueIds, SpansApart, TagOf, Splice, Placed, TagsConserved;
      ghost var before, pool := tags, freeTags;
      var position := FindSpan(0, base);
      if position == |tags| {
        position := 0;
      } else {
        position := FindSpan(position + 1, 0);
      }
      if |freeTags| < 2 {
        return NoTags;
      }
      var span := AllocateTag();
      var segment := AllocateTag();
      if size == 0 {
        return UndefinedIndex;
      }
      WithSpanConserves(before, base, size, pool);
      assert freeTags == pool[2..];
      WithSpanSound(before, base, size, span, segment);
      WithSpanPlaces(before, base, size, span, segment, hash);
      FreeIndexInRange(size);
      assert FreePlace(before)(segment) == -1 by {
        TagOfAbsent(before, segment);
      }
      tags := Splice(tags, position, position, [Tag(span, base, size, SPAN), Tag(segment, base, size, FREE)]);
      FreelistInsert(segment, size, FreePlace(before));
      PlacedSame(freelists, Override(FreePlace(before), segment, Log2(size)), FreePlace(tags));
      PlacedSame(hashTable, BucketPlace(before, hash), BucketPlace(tags, hash));
      r := Added;
    }

    /** Taking size bytes from the head of freelist k; only a split needs a tag from the pool. */
    method TakeFrom(k: nat, size: nat) returns (r: AllocResult)
      requires Valid() && 0 < size && FitIndex(size) <= k < NUM_FREELISTS && freelists[k] != []
      modifies this
      ensures var pos := Position(old(tags), old(freelists)[k][0]);
        && pos < |old(tags)| && old(tags)[pos].kind == FREE && size <= Pow2(FitIndex(size)) <= old(tags)[pos].size
        && (r.AllocPanic? <==> old(freeTags) == [] && size < old(tags)[pos].size)
        && (!r.AllocPanic? ==>
              var newId := if size < old(tags)[pos].size then old(freeTags)[0] else 0;
              && Valid() && (old(Coalesced(tags)) ==> Coalesced(tags)) && r == Block(old(tags)[pos].base)
              && Allocatable(old(tags), pos, size, newId) && tags == AllocAt(old(tags), pos, size, newId))
    {
      hide Tiled, Coalesced, UniqueIds, SpansApart, TagOf, Splice, Placed, TagsConserved, AllocAt;
      ghost var before, pool, f := tags, freeTags, FreePlace(tags);
      var id := freelists[k][0];
      OnFreelist(tags, freelists, k, id);
      var pos := Position(tags, id);
      var t := tags[pos];
      FitIndexIsLeast(size, 0);
      Log2AtLeast(t.size, FitIndex(size));
      FreeOnFreelist(tags, freelists, pos);
      PlacedRemove(freelists, f, k, id);
      assert freelists[k][1..] == Without(freelists[k], id);
      freelists := freelists[k := freelists[k][1..]];
      ghost var g := Override(f, id, -1);
      BucketPlaceOfFree(before, pos, hash);
      if t.size == size {
        tags := tags[pos := t.(kind := ALLOCATED)];
        WholeTaken(before, pos, size);
        AllocSound(before, pos, size, 0);
        HashTableInsert(id, t.base, BucketPlace(before, hash));
        AllocFreePlace(before, pos, size, 0);
        AllocBucketPlace(before, pos, size, 0, hash);
        PlacedSame(freelists, g, FreePlace(tags));
        PlacedSame(hashTable, Override(BucketPlace(before, hash), id, hash(t.base) % NUM_HASH_BUCKETS), BucketPlace(tags, hash));
        AllocConserves(before, pos, size, pool);
        return Block(t.base);
      }
      if freeTags == [] {
        return AllocPanic;
      }
      var newId := AllocateTag();
      NewTagUnused(before, pool);
      var rest := t.(base := t.base + size, size := t.size - size);
      tags := Splice(tags, pos, pos + 1, [Tag(newId, t.base, size, ALLOCATED), rest]);
      assert tags == AllocAt(before, pos, size, newId) by {
        SplitTaken(before, pos, size, newId);
      }
      AllocSound(before, pos, size, newId);
      FreeIndexInRange(rest.size);
      FreelistInsert(id, rest.size, g);
      HashTableInsert(newId, t.base, BucketPlace(before, hash));
      AllocFreePlace(before, pos, size, newId);
      AllocBucketPlace(before, pos, size, newId, hash);
      PlacedSame(freelists, Override(g, id, Log2(rest.size)), FreePlace(tags));
      PlacedSame(hashTable, Override(BucketPlace(before, hash), newId, hash(t.base) % NUM_HASH_BUCKETS), BucketPlace(tags, hash));
      AllocConserves(before, pos, size, pool);
      r := Block(t.base);
    }

    /**
     Instant fit: a block is cut from the first segment of the first non-empty freelist on which every segment
     is large enough; it fails only if no free segment is at least the least power of two not below the size.
     */
    method Xalloc(size: nat) returns (r: AllocResult, ghost k: nat)
      requires Valid() && size < 0x1_0000_0000_0000_0000
      modifies this
      ensures AllocOutcome(old(tags), old(freelists), old(freeTags), quantum, size, r, k)
      ensures r.Failed? ==> Valid() && tags == old(tags) && freeTags == old(freeTags)
      ensures r.Block? ==>
        && var pos := Position(old(tags), old(freelists)[k][0]);
        && var newId := if size < old(tags)[pos].size then old(freeTags)[0] else 0;
        && Valid() && (old(Coalesced(tags)) ==> Coalesced(tags)) && Allocatable(old(tags), pos, size, newId) && tags == AllocAt(old(tags), pos, size, newId)
    {
      hide Tiled, Coalesced, UniqueIds, SpansApart, TagOf, Splice, Placed, TagsConserved, AllocAt, FitIndex, Log2, Pow2;
      if size == 0 || size % quantum != 0 {
        return AllocPanic, 0;
      }
      k := FitIndex(size);
      var i := FitIndex(size);
      while i < NUM_FREELISTS
        invariant FitIndex(size) <= i
        invariant tags == old(tags) && freeTags == old(freeTags) && freelists == old(freelists) && Valid()
        invariant forall j :: FitIndex(size) <= j < i && j < NUM_FREELISTS ==> freelists[j] == []
      {
        if freelists[i] != [] {
          k := i;
          r := TakeFrom(i, size);
          return;
        }
        i := i + 1;
      }
      NoneFits(tags, freelists, size);
      r := Failed;
    }

    // The allocated segment with a base, looked up in its hash bucket.
    method FindSegment(addr: nat) returns (found: Option<nat>)
      requires Valid()
      ensures found == None <==> !Live(tags, addr)
      ensures found.Some? ==> found.value < |tags| && tags[found.value].kind == ALLOCATED
      ensures found.Some? ==> tags[found.value].base == addr && tags[found.value].id in hashTable[hash(addr) % NUM_HASH_BUCKETS]
    {
      hide Tiled, Coalesced, SpansApart, UniqueIds, TagOf, Placed, TagsConserved;
      var b := hash(addr) % NUM_HASH_BUCKETS;
      var i := 0;
      while i < |hashTable[b]|
        invariant i <= |hashTable[b]|
        invariant forall j :: 0 <= j < i ==> TagOf(tags, hashTable[b][j]).Found? && TagOf(tags, hashTable[b][j]).tag.base != addr
      {
        var id := hashTable[b][i];
        InBucket(tags, hashTable, hash, b, id);
        var pos := Position(tags, id);
        if tags[pos].base == addr {
          return Some(pos);
        }
        TagOfMember(tags, pos);
        i := i + 1;
      }
      found := None;
      if k :| 0 <= k < |tags| && tags[k].kind == ALLOCATED && tags[k].base == addr {
        AllocatedInBucket(tags, hashTable, hash, k);
        var j :| 0 <= j < |hashTable[b]| && hashTable[b][j] == tags[k].id;
        TagOfMember(tags, k);
        assert false;
      }
    }

    /**
     Giving a block back: it becomes free where it is, and is never merged with a free neighbour. If the base of a
     neighbour is a multiple of 2^32, that neighbour is taken for a free one and the original goes on with words that
     are not its own; the model stops there. Freeing an address that is no live block, or with the wrong size, panics
     before anything has changed.
     */
    method Xfree(addr: nat, size: nat) returns (r: FreeResult, ghost pos: nat)
      requires Valid()
      modifies this
      ensures r.NoSegmentPanic? <==> !Live(old(tags), addr)
      ensures !r.NoSegmentPanic? ==> 0 < pos < |old(tags)| && old(tags)[pos].kind == ALLOCATED && old(tags)[pos].base == addr
      ensures !r.NoSegmentPanic? ==> (r.MismatchPanic? <==> size != 0 && size != old(tags)[pos].size)
      ensures r.Freed? || r.WrongMerge? ==> (r.WrongMerge? <==> Misread(old(tags), pos))
      ensures r.Freed? ==> Valid() && tags == FreedInPlace(old(tags), pos)
      ensures r.NoSegmentPanic? || r.MismatchPanic? ==> Valid()
      ensures !r.Freed? ==> tags == old(tags) && freelists == old(freelists)
      ensures freeTags == old(freeTags)
    {
      var found := FindSegment(addr);
      pos := 0;
      if found == None {
        return NoSegmentPanic, pos;
      }
      var position := found.value;
      pos := position;
      MergedFits(tags, position);
      if size != 0 && size != tags[position].size {
        return MismatchPanic, pos;
      }
      r := ReleaseInPlace(position);
    }

    // The part of xfree after its checks.
    method ReleaseInPlace(pos: nat) returns (r: FreeResult)
      requires Valid() && 0 < pos < |tags| && tags[pos].kind == ALLOCATED
      modifies `tags, `freelists, `hashTable
      ensures r == if Misread(old(tags), pos) then WrongMerge else Freed
      ensures r.Freed? ==> Valid() && tags == FreedInPlace(old(tags), pos)
      ensures r.WrongMerge? ==> tags == old(tags) && freelists == old(freelists)
    {
      hide Tiled, Coalesced, UniqueIds, SpansApart, TagOf, Placed, TagsConserved, FreePlace, BucketPlace, Log2;
      ghost var before, f := tags, FreePlace(tags);
      var segment := tags[pos];
      FreeFits(before, pos);
      var b := hash(segment.base) % NUM_HASH_BUCKETS;
      AllocatedInBucket(tags, hashTable, hash, pos);
      PlacedRemove(hashTable, BucketPlace(tags, hash), b, segment.id);
      hashTable := hashTable[b := Without(hashTable[b], segment.id)];
      if ReadsAsFree(tags[pos - 1]) {
        return WrongMerge;
      }
      if pos + 1 < |tags| {
        if ReadsAsFree(tags[pos + 1]) {
          return WrongMerge;
        }
      }
      tags := tags[pos := segment.(kind := FREE)];
      FreelistInsert(segment.id, segment.size, f);
      FreedInPlacePlaces(before, pos, hash);
      PlacedSame(freelists, Override(f, segment.id, Log2(segment.size)), FreePlace(tags));
      PlacedSame(hashTable, Override(BucketPlace(before, hash), segment.id, -1), BucketPlace(tags, hash));
      FreedInPlaceSound(before, pos);
      FreedInPlaceConserves(before, pos, freeTags);
      return Freed;
    }

    /**
     The merge that is meant: the block becomes free and is merged with a free neighbour on either side.
     */
    method MergingXfree(addr: nat, size: nat) returns (r: FreeResult, ghost pos: nat)
      requires Valid()
      modifies this
      ensures r.NoSegmentPanic? <==> !Live(old(tags), addr)
      ensures !r.NoSegmentPanic? ==> 0 < pos < |old(tags)| && old(tags)[pos].kind == ALLOCATED && old(tags)[pos].base == addr
      ensures !r.NoSegmentPanic? ==> (r.MismatchPanic? <==> size != 0 && size != old(tags)[pos].size)
      ensures !r.WrongMerge?
      ensures r.Freed? ==> Valid() && (old(Coalesced(tags)) ==> Coalesced(tags)) && tags == FreeAt(old(tags), pos)
      ensures r.Freed? ==> freeTags == old(freeTags) + GivenBack(old(tags), pos)
      ensures !r.Freed? ==> Valid() && tags == old(tags) && freeTags == old(freeTags)
    {
      var found := FindSegment(addr);
      pos := 0;
      if found == None {
        return NoSegmentPanic, pos;
      }
      var position := found.value;
      pos := position;
      MergedFits(tags, position);
      if size != 0 && size != tags[position].size {
        return MismatchPanic, pos;
      }
      Release(position);
      r := Freed;
    }

    // Merging the segment at pos, which is on no list, into a free left neighbour.
    method CoalesceLeft(pos: nat, ghost f: Place) returns (current: nat)
      requires SoundTags(tags) && 0 < pos < |tags| && tags[pos].kind == ALLOCATED
      requires |freelists| == NUM_FREELISTS && Placed(freelists, f)
      requires 0 < tags[pos].size
      requires LeftFree(tags, pos) ==> 0 < tags[pos - 1].size && f(tags[pos - 1].id) == Log2(tags[pos - 1].size)
      modifies `tags, `freelists, `freeTags
      ensures |freelists| == NUM_FREELISTS && Placed(freelists, LeftPlace(old(tags), pos, f))
      ensures LeftFree(old(tags), pos) ==> current == pos - 1 && tags == LeftAbsorbed(old(tags), pos)
      ensures !LeftFree(old(tags), pos) ==> current == pos && tags == old(tags)
      ensures freeTags == old(freeTags) + (if LeftFree(old(tags), pos) then [old(tags)[pos].id] else [])
    {
      hide Tiled, Coalesced, UniqueIds, SpansApart, Placed, Log2;
      current := pos;
      var segment := tags[pos];
      if tags[pos - 1].kind == FREE {
        FreeFits(tags, pos);
        FreeAtSteps(tags, pos);
        var left := tags[pos - 1];
        ExpandFreeSegment(pos - 1, left.base, left.size + segment.size, f);
        tags := tags[..pos] + tags[pos + 1..];
        FreeTag(segment.id);
        current := pos - 1;
      }
    }

    // Merging the segment at position current into a free right neighbour; onList says that it is on a freelist.
    method CoalesceRight(current: nat, onList: bool, ghost f: Place) returns (coalesced: bool)
      requires current < |tags| && 0 < tags[current].size && |freelists| == NUM_FREELISTS && Placed(freelists, f)
      requires onList ==> f(tags[current].id) == Log2(tags[current].size) < NUM_FREELISTS
      requires current + 1 < |tags| && tags[current + 1].kind == FREE ==>
        && 0 < tags[current + 1].size && f(tags[current + 1].id) == Log2(tags[current + 1].size) < NUM_FREELISTS
        && Log2(tags[current].size + tags[current + 1].size) < NUM_FREELISTS
        && tags[current].id != tags[current + 1].id
      modifies `tags, `freelists, `freeTags
      ensures coalesced <==> current + 1 < old(|tags|) && old(tags)[current + 1].kind == FREE
      ensures |freelists| == NUM_FREELISTS
      ensures !coalesced ==> tags == old(tags) && freelists == old(freelists) && freeTags == old(freeTags)
      ensures coalesced ==>
        var t, u := old(tags)[current], old(tags)[current + 1];
        && freeTags == old(freeTags) + [t.id]
        && tags == old(tags)[..current] + [u.(base := t.base, size := t.size + u.size)] + old(tags)[current + 2..]
        && var g := Override(f, u.id, Log2(t.size + u.size));
        Placed(freelists, if onList then Override(g, t.id, -1) else g)
    {
      hide Placed, Log2;
      coalesced := false;
      if current + 1 < |tags| && tags[current + 1].kind == FREE {
        var right, absorbed := tags[current + 1], tags[current];
        ExpandFreeSegment(current + 1, absorbed.base, absorbed.size + right.size, f);
        tags := tags[..current] + tags[current + 1..];
        if onList {
          ghost var g := Override(f, right.id, Log2(absorbed.size + right.size));
          var k := Log2(absorbed.size);
          PlacedRemove(freelists, g, k, absorbed.id);
          freelists := freelists[k := Without(freelists[k], absorbed.id)];
        }
        FreeTag(absorbed.id);
        coalesced := true;
      }
    }

    method RemoveFromBucket(pos: nat)
      requires Valid() && 0 < pos < |tags| && tags[pos].kind == ALLOCATED
      modifies `hashTable
      ensures |hashTable| == NUM_HASH_BUCKETS && Placed(hashTable, BucketPlace(FreeAt(tags, pos), hash))
    {
      hide Tiled, Coalesced, UniqueIds, SpansApart, TagOf, Placed, TagsConserved, FreeAt;
      var id, b := tags[pos].id, hash(tags[pos].base) % NUM_HASH_BUCKETS;
      AllocatedInBucket(tags, hashTable, hash, pos);
      PlacedRemove(hashTable, BucketPlace(tags, hash), b, id);
      hashTable := hashTable[b := Without(hashTable[b], id)];
      FreeBucketPlace(tags, pos, hash);
      PlacedSame(hashTable, Override(BucketPlace(tags, hash), id, -1), BucketPlace(FreeAt(tags, pos), hash));
    }

    method Release(pos: nat)
      requires Valid() && 0 < pos < |tags| && tags[pos].kind == ALLOCATED
      modifies this
      ensures Valid() && (old(Coalesced(tags)) ==> Coalesced(tags)) && tags == FreeAt(old(tags), pos)
      ensures freeTags == old(freeTags) + GivenBack(old(tags), pos)
    {
      hide Tiled, Coalesced, UniqueIds, SpansApart, TagOf, Placed, TagsConserved, FreeAt, Log2, FreePlace, BucketPlace;
      ghost var before, pool, f := tags, freeTags, FreePlace(tags);
      var segment := tags[pos];
      FreeFits(before, pos);
      FreeAtSteps(before, pos);
      RemoveFromBucket(pos);
      var current := CoalesceLeft(pos, f);
      var coalescedLeft := current < pos;
      ghost var g := LeftPlace(before, pos, f);
      var coalescedRight := CoalesceRight(current, coalescedLeft, g);
      if !coalescedLeft && !coalescedRight {
        tags := tags[current := tags[current].(kind := FREE)];
        FreelistInsert(segment.id, segment.size, g);
      }
      ReleasePlaceIs(before, pos);
      PlacedSame(freelists, ReleasePlace(before, pos), FreePlace(FreeAt(before, pos)));
      FreeSound(before, pos);
      FreeConserves(before, pos, pool);
      assert tags == FreeAt(before, pos) && freeTags == pool + GivenBack(before, pos);
    }

    /** Freeing a block right after it was allocated: xfree goes wrong exactly if it misreads a neighbour of the
        block, and otherwise every tag of the arena is restored exactly if the block was a whole segment. */
    method AllocThenFree(size: nat) returns (r: AllocResult, freed: FreeResult, ghost k: nat)
      requires Valid() && size < 0x1_0000_0000_0000_0000
      modifies this
      ensures AllocOutcome(old(tags), old(freelists), old(freeTags), quantum, size, r, k)
      ensures r.Failed? ==> Valid() && tags == old(tags)
      ensures r.Block? ==>
        && var pos := Position(old(tags), old(freelists)[k][0]);
        && var newId := if size < old(tags)[pos].size then old(freeTags)[0] else 0;
        && Allocatable(old(tags), pos, size, newId)
        && var taken := AllocAt(old(tags), pos, size, newId);
        && 0 < pos < |taken|
        && freed == (if Misread(taken, pos) then WrongMerge else Freed)
        && (freed.Freed? ==>
              Valid() && tags == FreedInPlace(taken, pos) && (tags == old(tags) <==> size == old(tags)[pos].size))
    {
      hide Tiled, Coalesced, UniqueIds, SpansApart, TagOf, Placed, TagsConserved, AllocAt, FitIndex, Pow2, Log2, Misread,
        FreedInPlace;
      ghost var before, lists, pool := tags, freelists, freeTags;
      freed := NoSegmentPanic;
      r, k := Xalloc(size);
      if r.Block? {
        ghost var pos := Position(before, lists[k][0]);
        ghost var newId := if size < before[pos].size then pool[0] else 0;
        TakenBlock(before, pos, size, newId);
        assert Live(tags, r.addr);
        ghost var p;
        freed, p := Xfree(r.addr, size);
        OneBlockAt(AllocAt(before, pos, size, newId), p, pos);
        FreedInPlaceUndoesAllocIff(before, pos, size, newId);
      }
    }

    /** With the merge that is meant, freeing a block right after it was allocated restores every tag. */
    method AllocThenMergingFree(size: nat) returns (r: AllocResult, freed: FreeResult, ghost k: nat)
      requires Valid() && Coalesced(tags) && size < 0x1_0000_0000_0000_0000
      modifies this
      ensures AllocOutcome(old(tags), old(freelists), old(freeTags), quantum, size, r, k)
      ensures !r.AllocPanic? ==> Valid() && tags == old(tags)
      ensures r.Block? ==> freed == Freed
    {
      hide Tiled, Coalesced, UniqueIds, SpansApart, TagOf, Placed, TagsConserved, FreeAt, AllocAt, FitIndex, Pow2, Log2;
      ghost var before, lists, pool := tags, freelists, freeTags;
      freed := NoSegmentPanic;
      r, k := Xalloc(size);
      if r.Block? {
        ghost var pos := Position(before, lists[k][0]);
        ghost var newId := if size < before[pos].size then pool[0] else 0;
        TakenBlock(before, pos, size, newId);
        assert Live(tags, r.addr);
        ghost var p;
        freed, p := MergingXfree(r.addr, size);
        OneBlockAt(AllocAt(before, pos, size, newId), p, pos);
        FreeUndoesAlloc(before, pos, size, newId);
      }
    }
  }

  lemma TakenBlock(tags: seq<Tag>, pos: nat, size: nat, newId: nat)
    requires SoundTags(tags) && Allocatable(tags, pos, size, newId)
    ensures var t := AllocAt(tags, pos, size, newId);
      && SoundTags(t) && pos < |t| && t[pos].kind == ALLOCATED && t[pos].base == tags[pos].base && t[pos].size == size
  {
    AllocSound(tags, pos, size, newId);
    SpliceAt(tags, pos, pos + 1, AllocPiece(tags[pos], size, newId));
  }

  lemma OneBlockAt(tags: seq<Tag>, i: nat, j: nat)
    requires SoundTags(tags) && i < |tags| && j < |tags| && tags[i].base == tags[j].base
    requires tags[i].kind == ALLOCATED && tags[j].kind == ALLOCATED
    ensures i == j
  {
    if i < j {
      BlockBasesDiffer(tags, i, j);
    } else if j < i {
      BlockBasesDiffer(tags, j, i);
    }
  }

  // The freelists' places once the segment has been merged into its left neighbour ...
  ghost function LeftPlace(tags: seq<Tag>, pos: nat, f: Place): Place
    requires 0 < pos < |tags| && 0 < tags[pos].size
  {
    if LeftFree(tags, pos) then Override(f, tags[pos - 1].id, Log2(tags[pos - 1].size + tags[pos].size)) else f
  }

  // ... and at the end.
  ghost function ReleasePlace(tags: seq<Tag>, pos: nat): Place
    requires 0 < pos < |tags| && 0 < tags[pos].size && 0 < Merged(tags, pos).size
  {
    var g := LeftPlace(tags, pos, FreePlace(tags));
    var h := Override(g, Merged(tags, pos).id, Log2(Merged(tags, pos).size));
    if RightFree(tags, pos) then (if LeftFree(tags, pos) then Override(h, tags[pos - 1].id, -1) else h)
    else if LeftFree(tags, pos) then g
    else h
  }

  lemma ReleasePlaceIs(tags: seq<Tag>, pos: nat)
    requires SoundTags(tags) && 0 < pos < |tags| && tags[pos].kind == ALLOCATED
    ensures 0 < tags[pos].size && 0 < Merged(tags, pos).size
    ensures forall id: nat :: FreePlace(FreeAt(tags, pos))(id) == ReleasePlace(tags, pos)(id)
  {
    hide Tiled, Coalesced, UniqueIds, SpansApart, TagOf, FreeAt, Log2, FreePlace;
    FreeFits(tags, pos);
    FreeFreePlace(tags, pos);
  }

  // All sizes that occur while a segment is given back have a freelist.
  lemma FreeFits(tags: seq<Tag>, pos: nat)
    requires SoundTags(tags) && 0 < pos < |tags| && tags[pos].kind == ALLOCATED
    ensures 0 < tags[pos].size && 0 < Merged(tags, pos).size
    ensures Log2(tags[pos].size) < NUM_FREELISTS && Log2(Merged(tags, pos).size) < NUM_FREELISTS
    ensures LeftFree(tags, pos) ==>
      && 0 < tags[pos - 1].size && Log2(tags[pos - 1].size) < NUM_FREELISTS
      && Log2(tags[pos - 1].size + tags[pos].size) < NUM_FREELISTS
      && FreePlace(tags)(tags[pos - 1].id) == Log2(tags[pos - 1].size)
    ensures RightFree(tags, pos) ==>
      && 0 < tags[pos + 1].size && Log2(tags[pos + 1].size) < NUM_FREELISTS
      && FreePlace(tags)(tags[pos + 1].id) == Log2(tags[pos + 1].size)
    ensures FreePlace(tags)(tags[pos].id) == -1
    ensures LeftFree(tags, pos) ==> tags[pos - 1].id != tags[pos].id
    ensures LeftFree(tags, pos) && RightFree(tags, pos) ==> tags[pos - 1].id != tags[pos + 1].id
  {
    hide Tiled, Coalesced, SpansApart, Log2;
    MergedFits(tags, pos);
    FreeIndexInRange(tags[pos].size);
    FreeIndexInRange(Merged(tags, pos).size);
    TagOfMember(tags, pos);
    if LeftFree(tags, pos) {
      CursorAt(tags, pos - 1);
      FreeIndexInRange(tags[pos - 1].size);
      FreeIndexInRange(tags[pos - 1].size + tags[pos].size);
      TagOfMember(tags, pos - 1);
    }
    if RightFree(tags, pos) {
      CursorAt(tags, pos + 1);
      FreeIndexInRange(tags[pos + 1].size);
      TagOfMember(tags, pos + 1);
    }
  }

  // The tags between the two coalescing steps: the segment has been absorbed by its left neighbour.
  function LeftAbsorbed(tags: seq<Tag>, pos: nat): seq<Tag>
    requires 0 < pos < |tags|
  {
    var left := tags[pos - 1];
    tags[..pos - 1] + [left.(size := left.size + tags[pos].size)] + tags[pos + 1..]
  }

  lemma FreeAtSteps(tags: seq<Tag>, pos: nat)
    requires 0 < pos < |tags|
    ensures var t, m := LeftAbsorbed(tags, pos), Merged(tags, pos);
      && tags[pos - 1 := tags[pos - 1].(size := tags[pos - 1].size + tags[pos].size)][..pos]
           + tags[pos + 1..] == t
      && (LeftFree(tags, pos) && RightFree(tags, pos) ==> FreeAt(tags, pos) == t[pos := m][..pos - 1] + t[pos := m][pos..])
      && (LeftFree(tags, pos) && !RightFree(tags, pos) ==> FreeAt(tags, pos) == t)
      && (!LeftFree(tags, pos) && RightFree(tags, pos) ==>
            FreeAt(tags, pos) == tags[pos + 1 := m][..pos] + tags[pos + 1 := m][pos + 1..])
      && (!LeftFree(tags, pos) && !RightFree(tags, pos) ==> FreeAt(tags, pos) == tags[pos := tags[pos].(kind := FREE)])
  {
    SpliceAt(tags, First(tags, pos), Last(tags, pos), [Merged(tags, pos)]);
  }

  // The tags that the two steps give back to the pool, in order.
  function GivenBack(tags: seq<Tag>, pos: nat): seq<nat>
    requires 0 < pos < |tags|
  {
    if LeftFree(tags, pos) then
      (if RightFree(tags, pos) then [tags[pos].id, tags[pos - 1].id] else [tags[pos].id])
    else if RightFree(tags, pos) then [tags[pos].id]
    else []
  }

  lemma FreeConserves(tags: seq<Tag>, pos: nat, freeTags: seq<nat>)
    requires TagsConserved(tags, freeTags) && UniqueIds(tags) && 0 < pos < |tags|
    ensures TagsConserved(FreeAt(tags, pos), freeTags + GivenBack(tags, pos))
  {
    var l, h, m := First(tags, pos), Last(tags, pos), Merged(tags, pos);
    var t, given := FreeAt(tags, pos), GivenBack(tags, pos);
    var pool := freeTags + given;
    SpliceAt(tags, l, h, [m]);
    assert tags[pos].id !in freeTags && tags[pos - 1].id !in freeTags;
    assert forall x :: x in pool <==> x in freeTags || x in given;
    assert NoDuplicates(pool);
    forall i | 0 <= i < |t| ensures t[i].id !in pool && t[i].id < NUM_STATIC_TAGS {
      var k := if i < l then i else if i == l then h - 1 else i - 1 + (h - l);
      assert i != l ==> t[i] == tags[k];
      assert i == l ==> t[i] == m;
    }
  }

  lemma NoneFits(tags: seq<Tag>, lists: seq<seq<nat>>, size: nat)
    requires SoundTags(tags) && |lists| == NUM_FREELISTS && Placed(lists, FreePlace(tags)) && 0 < size
    requires forall j :: FitIndex(size) <= j < NUM_FREELISTS ==> lists[j] == []
    ensures forall i :: 0 <= i < |tags| && tags[i].kind == FREE ==> tags[i].size < Pow2(FitIndex(size))
  {
    forall i | 0 <= i < |tags| && tags[i].kind == FREE ensures tags[i].size < Pow2(FitIndex(size)) {
      CursorAt(tags, i);
      FreeIndexInRange(tags[i].size);
      FreeOnFreelist(tags, lists, i);
      Log2AtLeast(tags[i].size, FitIndex(size));
    }
  }

  lemma BucketPlaceOfFree(tags: seq<Tag>, pos: nat, hash: nat -> nat)
    requires UniqueIds(tags) && pos < |tags| && tags[pos].kind == FREE
    ensures BucketPlace(tags, hash)(tags[pos].id) == -1
  {
    TagOfMember(tags, pos);
  }

  lemma WholeTaken(tags: seq<Tag>, pos: nat, size: nat)
    requires pos < |tags| && 0 < size == tags[pos].size
    ensures AllocAt(tags, pos, size, 0) == tags[pos := tags[pos].(kind := ALLOCATED)]
  {
  }

  lemma SplitTaken(tags: seq<Tag>, pos: nat, size: nat, newId: nat)
    requires pos < |tags| && 0 < size < tags[pos].size
    ensures var t := tags[pos];
      AllocAt(tags, pos, size, newId) == Splice(tags, pos, pos + 1,
        [Tag(newId, t.base, size, ALLOCATED), t.(base := t.base + size, size := t.size - size)])
  {
  }

  lemma NewTagUnused(tags: seq<Tag>, freeTags: seq<nat>)
    requires TagsConserved(tags, freeTags) && freeTags != []
    ensures forall i :: 0 <= i < |tags| ==> tags[i].id != freeTags[0]
    ensures TagOf(tags, freeTags[0]) == NoTag
  {
    assert freeTags[0] in freeTags;
    TagOfAbsent(tags, freeTags[0]);
  }

  lemma AllocConserves(tags: seq<Tag>, pos: nat, size: nat, freeTags: seq<nat>)
    requires TagsConserved(tags, freeTags) && pos < |tags| && 0 < size <= tags[pos].size
    ensures size == tags[pos].size ==> TagsConserved(AllocAt(tags, pos, size, 0), freeTags)
    ensures size < tags[pos].size && freeTags != [] ==>
      TagsConserved(AllocAt(tags, pos, size, freeTags[0]), freeTags[1..])
  {
    if size == tags[pos].size {
      WholeTaken(tags, pos, size);
    } else if freeTags != [] {
      var t := AllocAt(tags, pos, size, freeTags[0]);
      SpliceAt(tags, pos, pos + 1, AllocPiece(tags[pos], size, freeTags[0]));
      assert freeTags[0] in freeTags;
      assert forall x :: x in freeTags[1..] ==> x in freeTags;
      forall i | 0 <= i < |t| ensures t[i].id !in freeTags[1..] && t[i].id < NUM_STATIC_TAGS {
        assert i < pos ==> t[i] == tags[i];
        assert pos + 1 <= i ==> t[i].id == tags[i - 1].id;
      }
    }
  }
}
