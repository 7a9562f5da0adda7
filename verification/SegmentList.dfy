/**
 The boundary tags of a VMem arena in address order of their spans (struct BoundaryTag in
 kernel/kernel/src/mem/vmem.hpp).
 */
module SegmentList {

  datatype TagType = FREE | ALLOCATED | SPAN

  // id stands for the address of the tag.
  datatype Tag = Tag(id: nat, base: nat, size: nat, kind: TagType) {
    function End(): nat {
      base + size
    }
  }

  // How far the segments read so far reach, and where their span ends.
  datatype Cursor = Bad | At(cur: nat, end: nat)

  function Advance(c: Cursor, t: Tag): Cursor {
    if c.Bad? || t.size == 0 then Bad
    else if t.kind == SPAN then (if c.cur == c.end then At(t.base, t.End()) else Bad)
    else if t.base == c.cur && t.End() <= c.end then At(t.End(), c.end)
    else Bad
  }

  function Scan(c: Cursor, s: seq<Tag>): Cursor
    decreases s
  {
    if s == [] then c else Scan(Advance(c, s[0]), s[1..])
  }

  // The segments after each span tag cover that span exactly, one after the other, none of them empty.
  predicate Tiled(s: seq<Tag>) {
    var c := Scan(At(0, 0), s);
    c.At? && c.cur == c.end
  }

  lemma {:induction false} ScanConcat(c: Cursor, s: seq<Tag>, t: seq<Tag>)
    ensures Scan(c, s + t) == Scan(Scan(c, s), t)
    decreases s
  {
    if s == [] {
      assert s + t == t;
    } else {
      assert (s + t)[1..] == s[1..] + t;
      ScanConcat(Advance(c, s[0]), s[1..], t);
    }
  }

  lemma {:induction false} ScanBad(s: seq<Tag>)
    ensures Scan(Bad, s) == Bad
  {
    if s != [] {
      ScanBad(s[1..]);
    }
  }

  // A piece of the list may be replaced by one that covers the same addresses.
  lemma ScanReplace(s: seq<Tag>, i: nat, j: nat, piece: seq<Tag>)
    requires i <= j <= |s|
    requires forall c :: Scan(c, piece) == Scan(c, s[i..j])
    ensures Scan(At(0, 0), s[..i] + piece + s[j..]) == Scan(At(0, 0), s)
  {
    ScanConcat(At(0, 0), s[..i] + piece, s[j..]);
    ScanConcat(At(0, 0), s[..i], piece);
    ScanConcat(At(0, 0), s[..i] + s[i..j], s[j..]);
    ScanConcat(At(0, 0), s[..i], s[i..j]);
    assert s[..i] + s[i..j] + s[j..] == s;
  }

  // No two neighbouring segments are both free.
  predicate Coalesced(s: seq<Tag>) {
    forall i :: 0 <= i < |s| - 1 ==> !(s[i].kind == FREE && s[i + 1].kind == FREE)
  }

  predicate UniqueIds(s: seq<Tag>) {
    forall i, j :: 0 <= i < j < |s| ==> s[i].id != s[j].id
  }

  // The position of the tag with an id, or the length of the list.
  function Position(s: seq<Tag>, id: nat): (k: nat)
    ensures k <= |s|
    ensures k < |s| ==> s[k].id == id
    ensures forall i :: 0 <= i < k ==> s[i].id != id
  {
    if s == [] then 0 else if s[0].id == id then 0 else 1 + Position(s[1..], id)
  }

  lemma PositionUnique(s: seq<Tag>, i: nat)
    requires UniqueIds(s) && i < |s|
    ensures Position(s, s[i].id) == i
  {
  }

  // ----- what tiling means for addresses -----

  // The position of the span tag that a position belongs to.
  function SpanIndex(s: seq<Tag>, i: nat): (k: int)
    requires i < |s|
    ensures -1 <= k <= i
    ensures 0 <= k ==> s[k].kind == SPAN
    ensures forall j :: k < j <= i ==> s[j].kind != SPAN
  {
    if s[i].kind == SPAN then i else if i == 0 then -1 else SpanIndex(s, i - 1)
  }

  lemma {:induction false} PrefixScan(s: seq<Tag>, i: nat)
    requires Tiled(s) && i <= |s|
    ensures Scan(At(0, 0), s[..i]).At?
  {
    ScanConcat(At(0, 0), s[..i], s[i..]);
    assert s == s[..i] + s[i..];
    if Scan(At(0, 0), s[..i]).Bad? {
      ScanBad(s[i..]);
    }
  }

  lemma PrefixStep(s: seq<Tag>, i: nat)
    requires i < |s|
    ensures Scan(At(0, 0), s[..i + 1]) == Advance(Scan(At(0, 0), s[..i]), s[i])
  {
    ScanConcat(At(0, 0), s[..i], [s[i]]);
    assert s[..i + 1] == s[..i] + [s[i]];
    assert Scan(Scan(At(0, 0), s[..i]), [s[i]]) == Advance(Scan(At(0, 0), s[..i]), s[i]);
  }

  // After position i the cursor is at the end of the tag (or the start of the span), inside its span.
  lemma {:induction false} CursorAt(s: seq<Tag>, i: nat)
    requires Tiled(s) && i < |s|
    ensures var k := SpanIndex(s, i);
      && 0 <= k
      && Scan(At(0, 0), s[..i + 1]) == At(if k == i then s[i].base else s[i].End(), s[k].End())
      && s[k].base <= s[i].base && s[i].End() <= s[k].End() && 0 < s[i].size
  {
    PrefixScan(s, i);
    PrefixScan(s, i + 1);
    PrefixStep(s, i);
    if i == 0 {
      assert s[..0] == [];
    } else if s[i].kind != SPAN {
      CursorAt(s, i - 1);
    }
  }

  // Within one span, segments follow each other.
  lemma {:induction false} SegmentsOrdered(s: seq<Tag>, i: nat, j: nat)
    requires Tiled(s) && i < j < |s| && s[i].kind != SPAN
    requires SpanIndex(s, i) == SpanIndex(s, j)
    ensures s[i].End() <= s[j].base
    decreases j
  {
    PrefixScan(s, j + 1);
    PrefixStep(s, j);
    CursorAt(s, j - 1);
    assert s[j].kind != SPAN;
    SpanOfPrevious(s, j);
    if i < j - 1 {
      SegmentsOrdered(s, i, j - 1);
      CursorAt(s, j - 1);
    }
  }

  lemma SpanOfPrevious(s: seq<Tag>, j: nat)
    requires 0 < j < |s| && s[j].kind != SPAN
    ensures SpanIndex(s, j) == SpanIndex(s, j - 1)
  {
  }

  predicate SpansApart(s: seq<Tag>) {
    forall i, j :: 0 <= i < j < |s| && s[i].kind == SPAN && s[j].kind == SPAN ==>
      s[i].End() <= s[j].base || s[j].End() <= s[i].base
  }

  /** Segments never overlap. */
  lemma SegmentsDisjoint(s: seq<Tag>, i: nat, j: nat)
    requires Tiled(s) && SpansApart(s) && i < j < |s| && s[i].kind != SPAN && s[j].kind != SPAN
    ensures s[i].End() <= s[j].base || s[j].End() <= s[i].base
  {
    CursorAt(s, i);
    CursorAt(s, j);
    if SpanIndex(s, i) == SpanIndex(s, j) {
      SegmentsOrdered(s, i, j);
    } else {
      var k, l := SpanIndex(s, i), SpanIndex(s, j);
      assert k < l ==> s[k].End() <= s[l].base || s[l].End() <= s[k].base;
    }
  }

  // The span at position i is one free segment.
  predicate Whole(s: seq<Tag>, i: nat)
    requires i < |s|
  {
    && i + 1 < |s| && s[i + 1].kind == FREE && s[i + 1].base == s[i].base && s[i + 1].size == s[i].size
    && (i + 2 < |s| ==> s[i + 2].kind == SPAN)
  }

  /** When nothing is allocated, every span is one free segment if and only if no two neighbours are free. */
  lemma AllFreeWholeIff(s: seq<Tag>)
    requires Tiled(s) && forall j :: 0 <= j < |s| ==> s[j].kind != ALLOCATED
    ensures Coalesced(s) <==> forall i :: 0 <= i < |s| && s[i].kind == SPAN ==> Whole(s, i)
  {
    hide Tiled;
    if Coalesced(s) {
      forall i | 0 <= i < |s| && s[i].kind == SPAN ensures Whole(s, i) {
        AllFreeMeansWhole(s, i);
      }
    }
    if i :| 0 <= i < |s| - 1 && s[i].kind == FREE && s[i + 1].kind == FREE {
      CursorAt(s, i);
      var k := SpanIndex(s, i);
      assert s[k].kind == SPAN && !Whole(s, k);
    }
  }

  /** When nothing is allocated and neighbours have been merged, every span is one free segment. */
  lemma AllFreeMeansWhole(s: seq<Tag>, i: nat)
    requires Tiled(s) && Coalesced(s) && i < |s| && s[i].kind == SPAN
    requires forall j :: 0 <= j < |s| ==> s[j].kind != ALLOCATED
    ensures i + 1 < |s| && s[i + 1].kind == FREE && s[i + 1].base == s[i].base && s[i + 1].size == s[i].size
    ensures i + 2 < |s| ==> s[i + 2].kind == SPAN
  {
    PrefixStep(s, i);
    CursorAt(s, i);
    assert s[..|s|] == s;
    PrefixScan(s, i + 2);
    PrefixStep(s, i + 1);
    CursorAt(s, i + 1);
    if i + 2 < |s| {
      PrefixScan(s, i + 3);
      PrefixStep(s, i + 2);
    }
  }

  // ----- looking tags up by id -----

  datatype Lookup = NoTag | Found(tag: Tag)

  function TagOf(s: seq<Tag>, id: nat): Lookup {
    var k := Position(s, id);
    if k < |s| then Found(s[k]) else NoTag
  }

  lemma TagOfMember(s: seq<Tag>, i: nat)
    requires UniqueIds(s) && i < |s|
    ensures TagOf(s, s[i].id) == Found(s[i])
  {
    PositionUnique(s, i);
  }

  lemma TagOfAbsent(s: seq<Tag>, id: nat)
    requires forall i :: 0 <= i < |s| ==> s[i].id != id
    ensures TagOf(s, id) == NoTag
  {
  }

  // s with the part from i to j replaced.
  function Splice(s: seq<Tag>, i: nat, j: nat, piece: seq<Tag>): seq<Tag>
    requires i <= j <= |s|
  {
    s[..i] + piece + s[j..]
  }

  lemma SpliceAt(s: seq<Tag>, i: nat, j: nat, piece: seq<Tag>)
    requires i <= j <= |s|
    ensures var t := Splice(s, i, j, piece);
      && |t| == |s| - (j - i) + |piece|
      && (forall k :: 0 <= k < |t| ==>
            t[k] == if k < i then s[k] else if k < i + |piece| then piece[k - i] else s[k - |piece| + (j - i)])
  {
  }

  ghost predicate FreshPiece(s: seq<Tag>, i: nat, j: nat, piece: seq<Tag>)
    requires i <= j <= |s|
  {
    && UniqueIds(piece)
    && (forall k, l :: 0 <= k < |s| && !(i <= k < j) && 0 <= l < |piece| ==> s[k].id != piece[l].id)
  }

  lemma SpliceUnique(s: seq<Tag>, i: nat, j: nat, piece: seq<Tag>)
    requires i <= j <= |s| && UniqueIds(s) && FreshPiece(s, i, j, piece)
    ensures UniqueIds(Splice(s, i, j, piece))
  {
    SpliceAt(s, i, j, piece);
  }

  // Lookups after a splice.
  lemma SpliceTagOf(s: seq<Tag>, i: nat, j: nat, piece: seq<Tag>, id: nat)
    requires i <= j <= |s| && UniqueIds(s) && FreshPiece(s, i, j, piece)
    ensures TagOf(Splice(s, i, j, piece), id) ==
      if TagOf(piece, id) != NoTag then TagOf(piece, id)
      else if TagOf(s[i..j], id) != NoTag then NoTag
      else TagOf(s, id)
  {
    SpliceUnique(s, i, j, piece);
    SpliceAt(s, i, j, piece);
    var t := Splice(s, i, j, piece);
    var l := Position(piece, id);
    var m := Position(s[i..j], id);
    var k := Position(s, id);
    assert forall n :: i <= n < j ==> s[n] == s[i..j][n - i];
    if l < |piece| {
      TagOfMember(t, i + l);
      assert t[i + l] == piece[l];
    } else if m < j - i {
      assert s[i + m].id == id;
      forall n | 0 <= n < |t| ensures t[n].id != id {
        assert n < i ==> t[n] == s[n];
        assert i + |piece| <= n ==> t[n] == s[n - |piece| + (j - i)];
      }
    } else if k < |s| {
      var n := if k < i then k else k - (j - i) + |piece|;
      assert t[n] == s[k];
      TagOfMember(t, n);
    } else {
      forall n | 0 <= n < |t| ensures t[n].id != id {
      }
    }
  }

  lemma SpliceTiled(s: seq<Tag>, i: nat, j: nat, piece: seq<Tag>)
    requires i <= j <= |s| && Tiled(s)
    requires forall c :: Scan(c, piece) == Scan(c, s[i..j])
    ensures Tiled(Splice(s, i, j, piece))
  {
    ScanReplace(s, i, j, piece);
  }

  // Scanning one or two tags.
  lemma ScanTwo(c: Cursor, a: Tag, b: Tag)
    ensures Scan(c, [a]) == Advance(c, a)
    ensures Scan(c, [a, b]) == Advance(Advance(c, a), b)
  {
    assert [a][1..] == [] && [a, b][1..] == [b] && [b][1..] == [];
    assert Scan(Advance(c, a), [b]) == Scan(Advance(Advance(c, a), b), []);
  }
}
