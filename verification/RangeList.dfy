/**
 Lists of mapped ranges and what they mean for each address
 (struct MappedRange in kernel/kernel/src/mem/vmm.hpp).
 */
module RangeList {

  import opened Lists
  import opened PhysicalMemory

  // NONE only occurs as an argument of add_range, where it asks for an unmapping.
  datatype RangeType = NONE | ANONYMOUS | FILE

  datatype PageFlags = PageFlags(present: bool, writable: bool, user: bool, noExecute: bool)

  // id stands for the address of the range object.
  datatype MappedRange = MappedRange(
    id: nat, base: nat, originalBase: nat, length: nat, flags: PageFlags, kind: RangeType,
    file: Option<nat>, fileOffset: int)
  {
    function End(): nat {
      base + length
    }

    predicate Covers(a: nat) {
      base <= a < End()
    }

    // The place in the backing file that a page fault at a reads from.
    function BackingOffset(a: nat): int {
      a - originalBase + fileOffset
    }
  }

  predicate Overlaps(r: MappedRange, base: nat, end: nat) {
    !(base >= r.End() || end <= r.base)
  }

  predicate Apart(r: MappedRange, s: MappedRange) {
    r.End() <= s.base || s.End() <= r.base
  }

  predicate Sound(r: MappedRange) {
    && 0 < r.length
    && Aligned(r.base) && Aligned(r.length)
    && r.flags.present
    && r.kind != NONE
    && (r.kind == FILE ==> r.file.Some?)
  }

  ghost predicate WellFormed(rs: seq<MappedRange>, nextId: nat) {
    && (forall i :: 0 <= i < |rs| ==> Sound(rs[i]) && rs[i].id < nextId)
    && (forall i, j :: 0 <= i < j < |rs| ==> rs[i].id != rs[j].id && Apart(rs[i], rs[j]))
  }

  lemma RangeIsSound(rs: seq<MappedRange>, nextId: nat, i: nat)
    requires WellFormed(rs, nextId) && i < |rs|
    ensures Sound(rs[i])
  {
  }

  // The position of the first range that contains a, or the length of the list.
  function IndexOf(rs: seq<MappedRange>, a: nat): (k: nat)
    ensures k <= |rs|
    ensures k < |rs| ==> rs[k].Covers(a)
    ensures forall i :: 0 <= i < k ==> !rs[i].Covers(a)
  {
    if rs == [] then 0 else if rs[0].Covers(a) then 0 else 1 + IndexOf(rs[1..], a)
  }

  // The meaning of a range list: the range, if any, that an address belongs to.
  function View(rs: seq<MappedRange>, a: nat): Option<MappedRange> {
    var k := IndexOf(rs, a);
    if k < |rs| then Some(rs[k]) else None
  }

  ghost predicate NoOverlap(rs: seq<MappedRange>, base: nat, end: nat) {
    forall i :: 0 <= i < |rs| ==> !Overlaps(rs[i], base, end)
  }

  /** At most one range contains an address. */
  lemma ViewIsUnique(rs: seq<MappedRange>, nextId: nat, i: nat, a: nat)
    requires WellFormed(rs, nextId)
    requires i < |rs| && rs[i].Covers(a)
    ensures View(rs, a) == Some(rs[i])
  {
    var k := IndexOf(rs, a);
    assert k < i ==> !Apart(rs[k], rs[i]);
  }

  // Replacing a range by a part of it.
  lemma ShrinkView(rs: seq<MappedRange>, nextId: nat, i: nat, r: MappedRange)
    requires WellFormed(rs, nextId) && i < |rs|
    requires Sound(r) && r.id == rs[i].id && rs[i].base <= r.base && r.End() <= rs[i].End()
    ensures WellFormed(rs[i := r], nextId)
    ensures forall a ::
      View(rs[i := r], a) == (if r.Covers(a) then Some(r) else if rs[i].Covers(a) then None else View(rs, a))
  {
    ReplaceView(rs, nextId, i, r);
  }

  // Replacing a range by one that stays apart from all others.
  lemma ReplaceView(rs: seq<MappedRange>, nextId: nat, i: nat, r: MappedRange)
    requires WellFormed(rs, nextId) && i < |rs|
    requires Sound(r) && r.id == rs[i].id
    requires forall j :: 0 <= j < |rs| && j != i ==> Apart(rs[j], r)
    ensures WellFormed(rs[i := r], nextId)
    ensures forall a ::
      View(rs[i := r], a) == (if r.Covers(a) then Some(r) else if rs[i].Covers(a) then None else View(rs, a))
  {
    var ts := rs[i := r];
    forall a ensures View(ts, a) == if r.Covers(a) then Some(r) else if rs[i].Covers(a) then None else View(rs, a) {
      if r.Covers(a) {
        ViewIsUnique(ts, nextId, i, a);
      } else if rs[i].Covers(a) {
        assert forall j :: 0 <= j < |rs| && j != i ==> !rs[j].Covers(a) by {
          assert forall j :: 0 <= j < |rs| && j != i ==> Apart(rs[j], rs[i]) || Apart(rs[i], rs[j]);
        }
      } else if IndexOf(rs, a) < |rs| {
        ViewIsUnique(ts, nextId, IndexOf(rs, a), a);
      }
    }
  }

  function RemoveAt(rs: seq<MappedRange>, i: nat): seq<MappedRange>
    requires i < |rs|
  {
    rs[..i] + rs[i + 1..]
  }

  function InsertAt(rs: seq<MappedRange>, k: nat, r: MappedRange): seq<MappedRange>
    requires k <= |rs|
  {
    rs[..k] + [r] + rs[k..]
  }

  lemma RemoveWellFormed(rs: seq<MappedRange>, nextId: nat, i: nat)
    requires WellFormed(rs, nextId) && i < |rs|
    ensures WellFormed(RemoveAt(rs, i), nextId)
  {
    var ts := RemoveAt(rs, i);
    assert forall j :: 0 <= j < |ts| ==> ts[j] == if j < i then rs[j] else rs[j + 1];
  }

  lemma RemoveViewAt(rs: seq<MappedRange>, nextId: nat, i: nat, a: nat)
    requires WellFormed(rs, nextId) && i < |rs|
    ensures View(RemoveAt(rs, i), a) == if rs[i].Covers(a) then None else View(rs, a)
  {
    RemoveWellFormed(rs, nextId, i);
    var ts := RemoveAt(rs, i);
    var l := IndexOf(rs, a);
    if rs[i].Covers(a) {
      forall j | 0 <= j < |ts| ensures !ts[j].Covers(a) {
        var k := if j < i then j else j + 1;
        assert ts[j] == rs[k];
        assert Apart(rs[k], rs[i]) || Apart(rs[i], rs[k]);
      }
    } else if l < |rs| {
      var k := if l < i then l else l - 1;
      assert ts[k] == rs[l];
      ViewIsUnique(ts, nextId, k, a);
    } else {
      assert forall j :: 0 <= j < |ts| ==> ts[j] == if j < i then rs[j] else rs[j + 1];
    }
  }

  lemma RemoveView(rs: seq<MappedRange>, nextId: nat, i: nat)
    requires WellFormed(rs, nextId) && i < |rs|
    ensures WellFormed(RemoveAt(rs, i), nextId)
    ensures forall a :: View(RemoveAt(rs, i), a) == if rs[i].Covers(a) then None else View(rs, a)
  {
    RemoveWellFormed(rs, nextId, i);
    forall a ensures View(RemoveAt(rs, i), a) == if rs[i].Covers(a) then None else View(rs, a) {
      RemoveViewAt(rs, nextId, i, a);
    }
  }

  lemma InsertWellFormed(rs: seq<MappedRange>, nextId: nat, k: nat, r: MappedRange)
    requires WellFormed(rs, nextId) && k <= |rs|
    requires Sound(r) && r.id == nextId
    requires NoOverlap(rs, r.base, r.End())
    ensures WellFormed(InsertAt(rs, k, r), nextId + 1)
  {
    var ts := InsertAt(rs, k, r);
    assert forall j :: 0 <= j < |ts| ==> ts[j] == if j < k then rs[j] else if j == k then r else rs[j - 1];
  }

  lemma InsertViewAt(rs: seq<MappedRange>, nextId: nat, k: nat, r: MappedRange, a: nat)
    requires WellFormed(rs, nextId) && k <= |rs|
    requires Sound(r) && r.id == nextId
    requires NoOverlap(rs, r.base, r.End())
    ensures View(InsertAt(rs, k, r), a) == if r.Covers(a) then Some(r) else View(rs, a)
  {
    InsertWellFormed(rs, nextId, k, r);
    var ts := InsertAt(rs, k, r);
    var l := IndexOf(rs, a);
    if r.Covers(a) {
      ViewIsUnique(ts, nextId + 1, k, a);
    } else if l < |rs| {
      var j := if l < k then l else l + 1;
      assert ts[j] == rs[l];
      ViewIsUnique(ts, nextId + 1, j, a);
    } else {
      assert forall j :: 0 <= j < |ts| ==> ts[j] == if j < k then rs[j] else if j == k then r else rs[j - 1];
    }
  }

  lemma InsertView(rs: seq<MappedRange>, nextId: nat, k: nat, r: MappedRange)
    requires WellFormed(rs, nextId) && k <= |rs|
    requires Sound(r) && r.id == nextId
    requires NoOverlap(rs, r.base, r.End())
    ensures WellFormed(InsertAt(rs, k, r), nextId + 1)
    ensures forall a :: View(InsertAt(rs, k, r), a) == if r.Covers(a) then Some(r) else View(rs, a)
  {
    InsertWellFormed(rs, nextId, k, r);
    forall a ensures View(InsertAt(rs, k, r), a) == if r.Covers(a) then Some(r) else View(rs, a) {
      InsertViewAt(rs, nextId, k, r, a);
    }
  }

  // How many ranges overlap a request: the termination measure of the resolution loop.
  function CountOverlaps(rs: seq<MappedRange>, base: nat, end: nat): nat {
    if rs == [] then 0
    else (if Overlaps(rs[0], base, end) then 1 else 0) + CountOverlaps(rs[1..], base, end)
  }

  lemma {:induction false} CountConcat(rs: seq<MappedRange>, ts: seq<MappedRange>, base: nat, end: nat)
    ensures CountOverlaps(rs + ts, base, end) == CountOverlaps(rs, base, end) + CountOverlaps(ts, base, end)
  {
    if rs == [] {
      assert rs + ts == ts;
    } else {
      assert (rs + ts)[1..] == rs[1..] + ts;
      CountConcat(rs[1..], ts, base, end);
    }
  }

  lemma CountInsert(rs: seq<MappedRange>, k: nat, r: MappedRange, base: nat, end: nat)
    requires k <= |rs|
    ensures CountOverlaps(InsertAt(rs, k, r), base, end) ==
      CountOverlaps(rs, base, end) + if Overlaps(r, base, end) then 1 else 0
  {
    CountConcat(rs[..k], [r], base, end);
    CountConcat(rs[..k] + [r], rs[k..], base, end);
    CountConcat(rs[..k], rs[k..], base, end);
    assert rs[..k] + rs[k..] == rs;
  }

  lemma CountRemove(rs: seq<MappedRange>, i: nat, base: nat, end: nat)
    requires i < |rs|
    ensures CountOverlaps(rs, base, end) ==
      CountOverlaps(RemoveAt(rs, i), base, end) + if Overlaps(rs[i], base, end) then 1 else 0
  {
    assert InsertAt(RemoveAt(rs, i), i, rs[i]) == rs;
    CountInsert(RemoveAt(rs, i), i, rs[i], base, end);
  }

  lemma CountReplace(rs: seq<MappedRange>, i: nat, r: MappedRange, base: nat, end: nat)
    requires i < |rs|
    ensures CountOverlaps(rs[i := r], base, end) + (if Overlaps(rs[i], base, end) then 1 else 0) ==
      CountOverlaps(rs, base, end) + if Overlaps(r, base, end) then 1 else 0
  {
    CountRemove(rs, i, base, end);
    CountRemove(rs[i := r], i, base, end);
    assert RemoveAt(rs[i := r], i) == RemoveAt(rs, i);
  }

  lemma {:induction false} CountZero(rs: seq<MappedRange>, base: nat, end: nat)
    ensures CountOverlaps(rs, base, end) == 0 <==> NoOverlap(rs, base, end)
  {
    if rs != [] {
      CountZero(rs[1..], base, end);
      assert NoOverlap(rs, base, end) <==> !Overlaps(rs[0], base, end) && NoOverlap(rs[1..], base, end) by {
        assert forall i :: 1 <= i < |rs| ==> rs[i] == rs[1..][i - 1];
      }
    }
  }

  lemma NoOverlapView(rs: seq<MappedRange>, base: nat, end: nat)
    requires NoOverlap(rs, base, end)
    ensures forall a :: base <= a < end ==> View(rs, a) == None
  {
  }
}
