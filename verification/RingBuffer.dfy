/** The circular buffer of kernel/kernel/src/klib/ring_buffer.hpp over elements of any type. */
module RingBuffer {

  import opened Algorithm

  // The place in the array of a position that is counted without wrapping.
  function Slot(position: nat, size: nat): (j: nat)
    requires 0 < size
    ensures j < size
  {
    position % size
  }

  lemma Multiple(d: int, size: nat)
    ensures d >= 1 ==> d * size >= size
    ensures d <= -1 ==> d * size + size <= 0
  {
    assert d * size == size + (d - 1) * size;
    assert d * size == (d + 1) * size - size;
  }

  lemma Remainder(position: nat, q: int, r: nat, size: nat)
    requires r < size && position == q * size + r
    ensures Slot(position, size) == r
  {
    var q1, r1 := position / size, position % size;
    assert position == q1 * size + r1;
    assert (q - q1) * size == q * size - q1 * size;
    Multiple(q - q1, size);
  }

  // Within the array, slots follow each other ...
  lemma Offset(start: nat, i: nat, size: nat)
    requires 0 < size && Slot(start, size) + i < size
    ensures Slot(start + i, size) == Slot(start, size) + i
  {
    Remainder(start + i, start / size, start % size + i, size);
  }

  // ... and past its end they start again at 0.
  lemma WrapAround(start: nat, size: nat)
    requires 0 < size
    ensures Slot(start + (size - Slot(start, size)), size) == 0
  {
    var q := start / size;
    assert (q + 1) * size == q * size + size;
    Remainder(start + (size - start % size), q + 1, 0, size);
  }

  // Positions less than a lap apart are at different places of the array.
  lemma ApartInLap(a: nat, b: nat, size: nat)
    requires 0 < size && a < b < a + size
    ensures Slot(a, size) != Slot(b, size)
  {
    if a % size == b % size {
      assert (b / size - a / size) * size == b - a;
      Multiple(b / size - a / size, size);
    }
  }

  // The n elements of a circular array that begin at a position.
  ghost function Window<T>(data: seq<T>, start: nat, n: nat): (s: seq<T>)
    requires 0 < |data|
    ensures |s| == n
    ensures forall i :: 0 <= i < n ==> s[i] == data[Slot(start + i, |data|)]
  {
    seq(n, i requires 0 <= i => data[Slot(start + i, |data|)])
  }

  lemma WindowSplit<T>(data: seq<T>, start: nat, m: nat, n: nat)
    requires 0 < |data| && m <= n
    ensures Window(data, start, n) == Window(data, start, m) + Window(data, start + m, n - m)
  {
    hide Slot;
    var l, r := Window(data, start, n), Window(data, start, m) + Window(data, start + m, n - m);
    forall i | 0 <= i < n ensures l[i] == r[i] {
      assert m <= i ==> start + m + (i - m) == start + i;
    }
  }

  // A stretch that does not reach the end of the array is a slice of it.
  lemma WindowStraight<T>(data: seq<T>, start: nat, n: nat)
    requires 0 < |data| && Slot(start, |data|) + n <= |data|
    ensures Window(data, start, n) == data[Slot(start, |data|)..Slot(start, |data|) + n]
  {
    hide Slot;
    var l, r := Window(data, start, n), data[Slot(start, |data|)..Slot(start, |data|) + n];
    forall i | 0 <= i < n ensures l[i] == r[i] {
      Offset(start, i, |data|);
    }
  }

  // A window is read in at most two passes.
  lemma TwoPasses<T>(data: seq<T>, start: nat, n: nat)
    requires 0 < |data| && n <= |data|
    ensures var offset := Slot(start, |data|);
      var firstCount := Min(n, |data| - offset);
      Window(data, start, n) == data[offset..offset + firstCount] + data[0..n - firstCount]
  {
    hide Slot, Window;
    var offset := Slot(start, |data|);
    var firstCount := Min(n, |data| - offset);
    WindowSplit(data, start, firstCount, n);
    WindowStraight(data, start, firstCount);
    if firstCount < n {
      WrapAround(start, |data|);
      WindowStraight(data, start + firstCount, n - firstCount);
    } else {
      assert Window(data, start + firstCount, 0) == [];
    }
  }

  // What a write of count elements at a position leaves alone.
  ghost predicate OthersKept<T>(before: seq<T>, after: seq<T>, at: nat, count: nat)
    requires 0 < |before| == |after|
  {
    forall j :: 0 <= j < |before| && (forall i :: at <= i < at + count ==> Slot(i, |before|) != j) ==> after[j] == before[j]
  }

  // Writing behind a window, within the lap, leaves the window as it was.
  lemma WriteKeepsWindow<T>(before: seq<T>, after: seq<T>, start: nat, n: nat, at: nat, count: nat)
    requires 0 < |before| == |after| && start + n <= at && at + count <= start + |before|
    requires OthersKept(before, after, at, count)
    ensures Window(after, start, n) == Window(before, start, n)
  {
    hide Slot;
    var l, r := Window(after, start, n), Window(before, start, n);
    forall i | 0 <= i < n ensures l[i] == r[i] {
      forall k | at <= k < at + count ensures Slot(k, |before|) != Slot(start + i, |before|) {
        ApartInLap(start + i, k, |before|);
      }
    }
  }

  class Ring<T(0)> {
    const size: nat
    var readIndex: nat
    var writeIndex: nat
    const data: array<T>

    ghost predicate Valid()
      reads this, data
    {
      0 < size == data.Length && readIndex <= writeIndex <= readIndex + size
    }

    ghost function Contents(): (s: seq<T>)
      requires Valid()
      reads this, data
    {
      Window(data[..], readIndex, writeIndex - readIndex)
    }

    constructor (size: nat)
      requires 0 < size
      ensures Valid() && fresh(data) && Contents() == [] && this.size == size
    {
      this.size := size;
      readIndex, writeIndex := 0, 0;
      data := new T[size];
    }

    function DataCount(): (n: nat)
      requires Valid()
      reads this, data
      ensures n == |Contents()|
    {
      writeIndex - readIndex
    }

    function FreeCount(): (n: nat)
      requires Valid()
      reads this, data
      ensures n + |Contents()| == size
    {
      size - DataCount()
    }

    // Copying count elements of the array from one offset to the end of a buffer.
    method CopyOut(offset: nat, count: nat, buffer: seq<T>) returns (r: seq<T>)
      requires offset + count <= data.Length
      ensures r == buffer + data[offset..offset + count]
    {
      r := buffer;
      for i := 0 to count
        invariant r == buffer + data[offset..offset + i]
      {
        r := r + [data[offset + i]];
      }
    }

    method CopyIn(offset: nat, source: seq<T>, from: nat, count: nat)
      requires offset + count <= data.Length && from + count <= |source|
      modifies data
      ensures data[..] == old(data[..offset]) + source[from..from + count] + old(data[offset + count..])
    {
      for i := 0 to count
        invariant data[..] == old(data[..offset]) + source[from..from + i] + old(data[offset + i..])
      {
        ghost var before := data[..];
        assert before == old(data[..offset]) + source[from..from + i] + old(data[offset + i..]);
        data[offset + i] := source[from + i];
        assert data[..] == before[offset + i := source[from + i]];
      }
    }

    /** The oldest elements are handed out in order, at most as many as there are, across the wrap. */
    method Read(count: nat) returns (r: seq<T>)
      requires Valid()
      modifies this`readIndex
      ensures Valid() && |r| == Min(count, |old(Contents())|)
      ensures old(Contents()) == r + Contents()
    {
      hide Slot, Window;
      var n := Min(count, DataCount());
      r := [];
      if n == 0 {
        return;
      }
      ghost var all := data[..];
      var firstOffset := Slot(readIndex, size);
      var firstCount := Min(n, size - firstOffset);
      r := CopyOut(firstOffset, firstCount, r);
      if firstCount < n {
        r := CopyOut(0, n - firstCount, r);
      }
      assert r == Window(all, readIndex, n) by {
        TwoPasses(all, readIndex, n);
      }
      WindowSplit(all, readIndex, n, DataCount());
      readIndex := readIndex + n;
    }

    /** As many elements as fit are appended; nothing that was stored is overwritten. */
    method Write(source: seq<T>) returns (n: nat)
      requires Valid()
      modifies this`writeIndex, data
      ensures Valid() && n == Min(|source|, old(FreeCount()))
      ensures Contents() == old(Contents()) + source[..n]
    {
      hide Slot, Window, Overwritten, OthersKept;
      n := Min(|source|, FreeCount());
      ghost var before, w := data[..], writeIndex;
      var firstOffset := Slot(writeIndex, size);
      var firstCount := Min(n, size - firstOffset);
      CopyIn(firstOffset, source, 0, firstCount);
      if firstCount < n {
        CopyIn(0, source, firstCount, n - firstCount);
      }
      assert data[..] == Overwritten(before, w, source, n) by {
        WriteSteps(before, w, source, n);
      }
      Appended(before, readIndex, w, source, n);
      writeIndex := writeIndex + n;
    }

    method Truncate(count: nat) returns (n: nat)
      requires Valid()
      modifies this`readIndex
      ensures Valid() && n == Min(count, |old(Contents())|)
      ensures Contents() == old(Contents())[n..]
    {
      n := Min(count, DataCount());
      WindowSplit(data[..], readIndex, n, DataCount());
      readIndex := readIndex + n;
    }

    /**
     A write that makes room by dropping old elements. It drops as many as are to be written, even when less
     would do (DropsNoMoreThanNeededIff), and all of the source is written if it is not longer than the buffer.
     */
    method WriteTruncate(source: seq<T>) returns (n: nat)
      requires Valid()
      modifies this, data
      ensures Valid() && n == Min(|source|, size)
      ensures var dropped := Dropped(|source|, |old(Contents())|, size);
        Contents() == old(Contents())[dropped..] + source[..n]
    {
      if FreeCount() < |source| {
        var dropped := Truncate(|source|);
      }
      n := Write(source);
    }

    method Peek() returns (r: seq<T>)
      requires Valid()
      ensures r == Contents()[..Min(1, |Contents()|)]
    {
      if DataCount() == 0 {
        return [];
      }
      r := [data[Slot(readIndex, size)]];
    }
  }

  // How many old elements write_truncate drops for count new ones.
  function Dropped(count: nat, stored: nat, size: nat): nat
    requires stored <= size
    ensures Dropped(count, stored, size) <= stored
  {
    if size - stored < count then Min(count, stored) else 0
  }

  // d dropped elements make room for as many of the new ones as the buffer can hold at all.
  predicate MakesRoom(d: nat, count: nat, stored: nat, size: nat) {
    d <= stored && Min(count, size) <= size - (stored - d)
  }

  /** What write_truncate drops always makes room, and is the least that does if and only if the new elements
      fit without dropping any, the buffer is full, or they are at least as many as it holds. */
  lemma DropsNoMoreThanNeededIff(count: nat, stored: nat, size: nat)
    requires stored <= size
    ensures MakesRoom(Dropped(count, stored, size), count, stored, size)
    ensures (forall d: nat :: MakesRoom(d, count, stored, size) ==> Dropped(count, stored, size) <= d) <==>
      (count <= size - stored || stored == size || size <= count)
  {
    if size - stored < count && stored < size && count < size {
      assert MakesRoom(count - (size - stored), count, stored, size);
    }
  }

  /** Two elements too many are dropped for four new ones in a buffer of eight that holds six. */
  lemma DropsTooMany()
    ensures Dropped(4, 6, 8) == 4 && MakesRoom(2, 4, 6, 8)
  {
  }

  // The array after the two copies of a write.
  ghost function Overwritten<T>(before: seq<T>, w: nat, source: seq<T>, n: nat): (after: seq<T>)
    requires 0 < |before| && n <= |source| && n <= |before|
    ensures |after| == |before|
  {
    var offset := Slot(w, |before|);
    var firstCount := Min(n, |before| - offset);
    var middle := before[..offset] + source[0..firstCount] + before[offset + firstCount..];
    if firstCount < n then source[firstCount..n] + middle[n - firstCount..] else middle
  }

  lemma WriteSteps<T>(before: seq<T>, w: nat, source: seq<T>, n: nat)
    requires 0 < |before| && n <= |source| && n <= |before|
    ensures var offset := Slot(w, |before|);
      var firstCount := Min(n, |before| - offset);
      var middle := before[..offset] + source[0..0 + firstCount] + before[offset + firstCount..];
      && (firstCount == n ==> middle == Overwritten(before, w, source, n))
      && (firstCount < n ==>
            middle[..0] + source[firstCount..firstCount + (n - firstCount)] + middle[0 + (n - firstCount)..]
              == Overwritten(before, w, source, n))
  {
  }

  // They fill the window at the write index and touch nothing else.
  lemma OverwrittenWindow<T>(before: seq<T>, w: nat, source: seq<T>, n: nat)
    requires 0 < |before| && n <= |source| && n <= |before|
    ensures Window(Overwritten(before, w, source, n), w, n) == source[..n]
    ensures OthersKept(before, Overwritten(before, w, source, n), w, n)
  {
    hide Slot;
    var size, offset, after := |before|, Slot(w, |before|), Overwritten(before, w, source, n);
    var firstCount := Min(n, size - offset);
    forall i | 0 <= i < n ensures after[Slot(w + i, size)] == source[i] {
      if i < firstCount {
        Offset(w, i, size);
      } else {
        WrapAround(w, size);
        assert w + i == w + (size - offset) + (i - firstCount);
        Offset(w + (size - offset), i - firstCount, size);
      }
    }
    forall j | 0 <= j < size && (forall i :: w <= i < w + n ==> Slot(i, size) != j) ensures after[j] == before[j] {
      if offset <= j < offset + firstCount {
        Offset(w, j - offset, size);
      } else if firstCount < n && j < n - firstCount {
        WrapAround(w, size);
        Offset(w + (size - offset), j, size);
      }
    }
  }

  lemma Appended<T>(before: seq<T>, start: nat, w: nat, source: seq<T>, n: nat)
    requires 0 < |before| && n <= |source| && start <= w && w + n <= start + |before|
    ensures Window(Overwritten(before, w, source, n), start, w + n - start) == Window(before, start, w - start) + source[..n]
  {
    hide Slot, Window, Overwritten, OthersKept;
    var after := Overwritten(before, w, source, n);
    OverwrittenWindow(before, w, source, n);
    WriteKeepsWindow(before, after, start, w - start, w, n);
    WindowSplit(after, start, w - start, w + n - start);
  }
}
