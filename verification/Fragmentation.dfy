/**
 What follows from xfree never merging free segments (kernel/kernel/src/mem/vmem.cpp): over any run, an arena is only
 ever cut into smaller pieces.
 */
module Fragmentation {

  import opened SegmentList
  import opened BoundaryTags
  import opened VmemArena

  // What the operations of an arena do to its tags, as long as xfree misreads no neighbour.
  datatype Step =
    | Take(pos: nat, size: nat, newId: nat)
    | GiveBack(pos: nat)
    | NewSpan(base: nat, size: nat, span: nat, segment: nat)

  ghost predicate StepTo(s: seq<Tag>, step: Step, t: seq<Tag>) {
    match step
    case Take(pos, size, newId) =>
      Allocatable(s, pos, size, newId) && t == AllocAt(s, pos, size, newId)
    case GiveBack(pos) =>
      0 < pos < |s| && s[pos].kind == ALLOCATED && !Misread(s, pos) && t == FreedInPlace(s, pos)
    case NewSpan(base, size, span, segment) =>
      && 0 < size < 0x1_0000_0000_0000_0000 && ApartFromSpans(s, base, size) && NewIds(s, span, segment)
      && t == WithSpan(s, base, size, span, segment)
  }

  ghost predicate IsRun(trace: seq<seq<Tag>>, steps: seq<Step>) {
    && |trace| == |steps| + 1 && SoundTags(trace[0])
    && (forall k :: 0 <= k < |steps| ==> StepTo(trace[k], steps[k], trace[k + 1]))
  }

  lemma StepSound(s: seq<Tag>, step: Step, t: seq<Tag>)
    requires SoundTags(s) && StepTo(s, step, t)
    ensures SoundTags(t)
  {
    match step
    case Take(pos, size, newId) => AllocSound(s, pos, size, newId);
    case GiveBack(pos) => FreedInPlaceSound(s, pos);
    case NewSpan(base, size, span, segment) => WithSpanSound(s, base, size, span, segment);
  }

  lemma {:induction false} RunSound(trace: seq<seq<Tag>>, steps: seq<Step>, k: nat)
    requires IsRun(trace, steps) && k <= |steps|
    ensures SoundTags(trace[k])
  {
    hide SoundTags, StepTo;
    if k > 0 {
      RunSound(trace, steps, k - 1);
      StepSound(trace[k - 1], steps[k - 1], trace[k]);
    }
  }

  // A segment starts at a.
  ghost predicate Boundary(s: seq<Tag>, a: nat) {
    exists i :: 0 <= i < |s| && s[i].kind != SPAN && s[i].base == a
  }

  lemma BoundaryStays(s: seq<Tag>, step: Step, t: seq<Tag>, a: nat)
    requires StepTo(s, step, t) && Boundary(s, a)
    ensures Boundary(t, a)
  {
    hide SpanPosition, Splice, AllocAt, WithSpan;
    var i :| 0 <= i < |s| && s[i].kind != SPAN && s[i].base == a;
    match step
    case Take(pos, size, newId) => TakeKeepsBoundary(s, pos, size, newId, i);
    case GiveBack(pos) => assert t[i].kind != SPAN && t[i].base == a;
    case NewSpan(base, size, span, segment) => NewSpanKeepsBoundary(s, base, size, span, segment, i);
  }

  lemma TakeKeepsBoundary(s: seq<Tag>, pos: nat, size: nat, newId: nat, i: nat)
    requires Allocatable(s, pos, size, newId) && i < |s| && s[i].kind != SPAN
    ensures Boundary(AllocAt(s, pos, size, newId), s[i].base)
  {
    var piece := AllocPiece(s[pos], size, newId);
    SpliceAt(s, pos, pos + 1, piece);
    var t := AllocAt(s, pos, size, newId);
    hide Splice, AllocAt;
    var j := if i <= pos then i else i - 1 + |piece|;
    assert t[j] == (if i == pos then piece[0] else s[i]);
  }

  lemma NewSpanKeepsBoundary(s: seq<Tag>, base: nat, size: nat, span: nat, segment: nat, i: nat)
    requires i < |s| && s[i].kind != SPAN
    ensures Boundary(WithSpan(s, base, size, span, segment), s[i].base)
  {
    hide SpanPosition;
    var k := SpanPosition(s, base);
    var t := WithSpan(s, base, size, span, segment);
    SpliceAt(s, k, k, [Tag(span, base, size, SPAN), Tag(segment, base, size, FREE)]);
    var j := if i < k then i else i + 2;
    assert t[j] == s[i];
  }

  lemma {:induction false} BoundaryStaysOverRun(trace: seq<seq<Tag>>, steps: seq<Step>, j: nat, k: nat, a: nat)
    requires IsRun(trace, steps) && j <= k <= |steps| && Boundary(trace[j], a)
    ensures Boundary(trace[k], a)
    decreases k
  {
    hide SoundTags, StepTo, Boundary;
    if j < k {
      BoundaryStaysOverRun(trace, steps, j, k - 1, a);
      BoundaryStays(trace[k - 1], steps[k - 1], trace[k], a);
    }
  }

  /** Where a segment once started, no segment, free or allocated, ever reaches across again: over any run, no block
      is handed out that contains the end of an earlier block in its middle, even if all of it is free. */
  lemma NeverMergedAgain(trace: seq<seq<Tag>>, steps: seq<Step>, j: nat, k: nat, a: nat, i: nat)
    requires IsRun(trace, steps) && j <= k <= |steps| && Boundary(trace[j], a)
    requires i < |trace[k]| && trace[k][i].kind != SPAN
    ensures !(trace[k][i].base < a < trace[k][i].End())
  {
    hide Tiled, UniqueIds, SpansApart, StepTo;
    RunSound(trace, steps, k);
    BoundaryStaysOverRun(trace, steps, j, k, a);
    var s := trace[k];
    var l :| 0 <= l < |s| && s[l].kind != SPAN && s[l].base == a;
    CursorAt(s, l);
    if l < i {
      SegmentsDisjoint(s, l, i);
    } else if i < l {
      SegmentsDisjoint(s, i, l);
    }
  }

  // How many tags a step takes from the pool.
  function TagsTaken(s: seq<Tag>, step: Step): nat {
    match step
    case Take(pos, size, _) => if pos < |s| && size < s[pos].size then 1 else 0
    case GiveBack(_) => 0
    case NewSpan(_, _, _, _) => 2
  }

  function TagsTakenBy(trace: seq<seq<Tag>>, steps: seq<Step>, k: nat): nat
    requires |trace| == |steps| + 1 && k <= |steps|
  {
    if k == 0 then 0 else TagsTakenBy(trace, steps, k - 1) + TagsTaken(trace[k - 1], steps[k - 1])
  }

  lemma TagsGrow(s: seq<Tag>, step: Step, t: seq<Tag>)
    requires StepTo(s, step, t)
    ensures |t| == |s| + TagsTaken(s, step)
  {
  }

  /** Every split uses up a tag for good. */
  lemma {:induction false} TagsNeverComeBack(trace: seq<seq<Tag>>, steps: seq<Step>, k: nat)
    requires IsRun(trace, steps) && k <= |steps|
    ensures |trace[k]| == |trace[0]| + TagsTakenBy(trace, steps, k)
  {
    hide SoundTags, StepTo, TagsTaken;
    if k > 0 {
      TagsNeverComeBack(trace, steps, k - 1);
      TagsGrow(trace[k - 1], steps[k - 1], trace[k]);
    }
  }

  // ----- runs of an arena -----

  datatype ArenaOp = Alloc(size: nat) | Free(addr: nat, size: nat)

  /** Any sequence of xalloc and xfree, up to the first that panics or goes wrong, is such a run. */
  method RunArena(arena: Arena, ops: seq<ArenaOp>) returns (done: nat, ghost trace: seq<seq<Tag>>, ghost steps: seq<Step>)
    requires arena.Valid() && forall op :: op in ops ==> op.size < 0x1_0000_0000_0000_0000
    modifies arena
    ensures done <= |ops| && IsRun(trace, steps) && trace[0] == old(arena.tags)
    ensures done == |ops| ==> arena.Valid() && trace[|steps|] == arena.tags
  {
    hide SoundTags, TagsConserved, Placed, AllocAt, Allocatable, FreedInPlace, Misread, FitIndex, Pow2;
    trace, steps := [arena.tags], [];
    done := 0;
    while done < |ops|
      invariant done <= |ops| && arena.Valid()
      invariant IsRun(trace, steps) && trace[0] == old(arena.tags) && trace[|steps|] == arena.tags
      decreases |ops| - done
    {
      ghost var before, lists, pool := arena.tags, arena.freelists, arena.freeTags;
      assert ops[done] in ops;
      match ops[done] {
      case Alloc(size) =>
        var r, k := arena.Xalloc(size);
        if r.AllocPanic? {
          return;
        }
        if r.Block? {
          ghost var pos := Position(before, lists[k][0]);
          ghost var newId := if size < before[pos].size then pool[0] else 0;
          RunGrows(trace, steps, Take(pos, size, newId), arena.tags);
          trace, steps := trace + [arena.tags], steps + [Take(pos, size, newId)];
        }
      case Free(addr, size) =>
        var r, pos := arena.Xfree(addr, size);
        if !r.Freed? {
          return;
        }
        RunGrows(trace, steps, GiveBack(pos), arena.tags);
        trace, steps := trace + [arena.tags], steps + [GiveBack(pos)];
      }
      done := done + 1;
    }
  }

  lemma RunGrows(trace: seq<seq<Tag>>, steps: seq<Step>, step: Step, t: seq<Tag>)
    requires IsRun(trace, steps) && StepTo(trace[|steps|], step, t)
    ensures IsRun(trace + [t], steps + [step])
  {
    hide SoundTags, StepTo;
    var tr, st := trace + [t], steps + [step];
    forall k | 0 <= k < |st| ensures StepTo(tr[k], st[k], tr[k + 1]) {
      assert k < |steps| ==> StepTo(trace[k], steps[k], trace[k + 1]);
    }
  }

  // ----- two arenas -----

  // The tags of one span of two quanta from base on: whole, with the first quantum taken, and with it given back.
  function WholeSpan(base: nat, a: nat, b: nat): seq<Tag> {
    [Tag(a, base, 0x2000, SPAN), Tag(b, base, 0x2000, FREE)]
  }

  function CutSpan(base: nat, a: nat, b: nat, c: nat, kind: TagType): seq<Tag> {
    [Tag(a, base, 0x2000, SPAN), Tag(c, base, 0x1000, kind), Tag(b, base + 0x1000, 0x1000, FREE)]
  }

  lemma CutSpanSteps(base: nat, a: nat, b: nat, c: nat)
    ensures WithSpan([], base, 0x2000, a, b) == WholeSpan(base, a, b)
    ensures AllocAt(WholeSpan(base, a, b), 1, 0x1000, c) == CutSpan(base, a, b, c, ALLOCATED)
    ensures FreedInPlace(CutSpan(base, a, b, c, ALLOCATED), 1) == CutSpan(base, a, b, c, FREE)
  {
  }

  lemma FitIndices()
    ensures FitIndex(0x1000) == 12 && Pow2(12) == 0x1000
    ensures FitIndex(0x2000) == 13 && Pow2(13) == 0x2000
  {
    hide FitIndex;
    assert Pow2(6) == 64;
    assert Pow2(12) == 0x1000;
    FitIndexOfPower(12);
    FitIndexOfPower(13);
  }

  lemma FitIndexOfPower(k: nat)
    ensures 0 < Pow2(k) && FitIndex(Pow2(k)) == k
  {
    hide FitIndex;
    Pow2Monotone(0, k);
    FitIndexIsLeast(Pow2(k), k);
    var f := FitIndex(Pow2(k));
    if f < k {
      Pow2Monotone(f + 1, k);
    }
  }

  // An arena with such a span, whose first quantum has been taken.
  method CutArena(base: nat, hash: nat -> nat) returns (arena: Arena, ghost a: nat, ghost b: nat, ghost c: nat)
    ensures fresh(arena) && arena.Valid() && arena.quantum == 0x1000
    ensures arena.tags == CutSpan(base, a, b, c, ALLOCATED)
  {
    hide SoundTags, Placed, WithSpan, AllocAt, FitIndex, Pow2;
    arena := new Arena(0x1000, hash);
    a, b := arena.freeTags[0], arena.freeTags[1];
    var _ := arena.Add(base, 0x2000);
    CutSpanSteps(base, a, b, 0);
    FitIndices();
    ghost var tags, lists, pool := arena.tags, arena.freelists, arena.freeTags;
    assert tags[1].kind == FREE && tags[1].size == 0x2000;
    var r, k := arena.Xalloc(0x1000);
    c := pool[0];
    CutSpanSteps(base, a, b, c);
  }

  /** A block is split off and given back: two free neighbours remain, and a block as long as both can no longer be
      had although nothing is allocated. */
  method SplitIsNotUndone(hash: nat -> nat) returns (arena: Arena, freed: FreeResult, again: AllocResult)
    ensures arena.Valid() && freed == Freed && again == Failed
    ensures |arena.tags| == 3 && !Coalesced(arena.tags) && forall i :: 0 <= i < 3 ==> arena.tags[i].kind != ALLOCATED
  {
    hide SoundTags, Placed, FitIndex, Pow2, TagsConserved;
    ghost var a, b, c, pos;
    ghost var k;
    arena, a, b, c := CutArena(0x1000, hash);
    assert arena.tags[1].base == 0x1000 && Live(arena.tags, 0x1000);
    freed, pos := arena.Xfree(0x1000, 0);
    CutSpanSteps(0x1000, a, b, c);
    assert arena.tags[1].kind == FREE && arena.tags[2].kind == FREE;
    FitIndices();
    again, k := arena.Xalloc(0x2000);
  }

  /** In a span whose base is a multiple of 2^32 the span tag is taken for a free neighbour of the first block. */
  method FirstBlockIsMisread(hash: nat -> nat) returns (arena: Arena, freed: FreeResult)
    ensures freed == WrongMerge
  {
    hide SoundTags, Placed, TagsConserved;
    ghost var a, b, c, pos;
    arena, a, b, c := CutArena(0x1_0000_0000, hash);
    assert arena.tags[1].base == 0x1_0000_0000 && Live(arena.tags, 0x1_0000_0000);
    freed, pos := arena.Xfree(0x1_0000_0000, 0);
  }
}
