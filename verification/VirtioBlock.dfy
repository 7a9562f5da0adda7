/**
 The virtqueue of the VirtIO block device (kernel/kernel/src/dev/virtio.cpp): free descriptors and free requests
 as linked lists, chains of three descriptors for requests in flight, and the two rings shared with the device
 (section 2.6 of VirtIO 1.1). The device takes and completes requests in any order.
 */
module VirtioBlock {

  import opened Algorithm
  import opened Lists
  import opened RingBuffer
  import PhysicalMemory

  // The queue has 128 descriptors; a number equal to that ends the free list.
  const LENGTH: nat := 128
  // PAGE_SIZE / sizeof(Request)
  const NUM_REQUESTS: nat := 85
  const INDEX_LIMIT: nat := 0x1_0000

  const FLAG_NEXT: nat := 1
  const FLAG_DEVICE_WRITE: nat := 2

  const HEADER_SIZE: nat := 16

  // What a descriptor points to: the header or the status byte of a request, or a page of memory.
  datatype Address = Nothing | Header(request: nat) | Status(request: nat) | Page(phy: nat)

  datatype Descriptor = Descriptor(address: Address, length: nat, flags: nat, next: nat)

  datatype RequestHeader = RequestHeader(isWrite: bool, sector: nat)

  // The arguments of a block request.
  datatype Submission = Submission(block: nat, page: nat, isWrite: bool)

  // The second and third descriptor of a request in flight, its request, and what it is for.
  datatype Chain = Chain(second: nat, third: nat, request: nat, order: Submission)

  datatype SubmitResult = Submitted | NoMemory

  // ----- linked lists through next fields -----

  // list is what is found by following next from index on until end.
  ghost predicate Linked(next: nat -> nat, index: nat, end: nat, list: seq<nat>)
    decreases list
  {
    if list == [] then index == end
    else index == list[0] && index < end && Linked(next, next(index), end, list[1..])
  }

  lemma {:induction false} LinkedKept(next: nat -> nat, next': nat -> nat, index: nat, end: nat, list: seq<nat>)
    requires Linked(next, index, end, list) && forall i :: i in list ==> next'(i) == next(i)
    ensures Linked(next', index, end, list)
    decreases list
  {
    if list != [] {
      assert list[0] in list;
      assert forall i :: i in list[1..] ==> i in list;
      LinkedKept(next, next', next(index), end, list[1..]);
    }
  }

  // The list is empty exactly when its first index is the end mark.
  lemma LinkedEmpty(next: nat -> nat, index: nat, end: nat, list: seq<nat>)
    requires Linked(next, index, end, list)
    ensures index == end <==> list == []
    ensures list != [] ==> index == list[0] && Linked(next, next(index), end, list[1..])
  {
  }

  function NextOf(ds: seq<Descriptor>): nat -> nat {
    (i: nat) => if i < |ds| then ds[i].next else 0
  }

  function NextIn(s: seq<nat>): nat -> nat {
    (i: nat) => if i < |s| then s[i] else 0
  }

  // A free list: linked, without repetition, and below the end mark.
  ghost predicate FreeListSound(next: nat -> nat, index: nat, end: nat, list: seq<nat>) {
    Linked(next, index, end, list) && NoDuplicates(list) && forall x :: x in list ==> x < end
  }

  // Every number below n from i on, linked to its successor.
  function UpFrom(i: nat, n: nat): (s: seq<nat>)
    requires i <= n
    ensures |s| == n - i && (forall j :: 0 <= j < |s| ==> s[j] == i + j)
    decreases n - i
  {
    if i == n then [] else [i] + UpFrom(i + 1, n)
  }

  lemma UpFromSound(next: nat -> nat, n: nat)
    requires forall j :: 0 <= j < n ==> next(j) == j + 1
    ensures FreeListSound(next, 0, n, UpFrom(0, n))
  {
    UpFromLinked(next, 0, n);
  }

  lemma {:induction false} UpFromLinked(next: nat -> nat, i: nat, n: nat)
    requires i <= n && forall j :: i <= j < n ==> next(j) == j + 1
    ensures Linked(next, i, n, UpFrom(i, n))
    decreases n - i
  {
    if i < n {
      UpFromLinked(next, i + 1, n);
      assert UpFrom(i, n)[1..] == UpFrom(i + 1, n);
    }
  }

  // ----- chains -----

  function Members(h: nat, c: Chain): set<nat> {
    {h, c.second, c.third}
  }

  ghost predicate ChainHolds(ds: seq<Descriptor>, h: nat, c: Chain) {
    && h < |ds| && c.second < |ds| && c.third < |ds|
    && h != c.second && c.second != c.third && h != c.third
    && ds[h] == Descriptor(Header(c.request), HEADER_SIZE, FLAG_NEXT, c.second)
    && ds[c.second] == Descriptor(Page(c.order.page), PhysicalMemory.PAGE_SIZE, PageDescriptorFlags(c.order.isWrite), c.third)
    && ds[c.third].(next := 0) == Descriptor(Status(c.request), 1, FLAG_DEVICE_WRITE, 0)
  }

  // The device writes to the page of a read.
  function PageDescriptorFlags(isWrite: bool): nat {
    FLAG_NEXT + if isWrite then 0 else FLAG_DEVICE_WRITE
  }

  predicate HeaderHolds(hs: seq<RequestHeader>, c: Chain) {
    c.request < |hs| && hs[c.request] == RequestHeader(c.order.isWrite, c.order.block * 8)
  }

  // Live chains share no descriptor and no request, neither with each other nor with the free lists.
  ghost predicate ChainsApart(chains: map<nat, Chain>, freeDescriptors: seq<nat>, freeRequests: seq<nat>) {
    && (forall h, x :: h in chains && x in freeDescriptors ==> x !in Members(h, chains[h]))
    && (forall h :: h in chains ==> chains[h].request !in freeRequests && chains[h].request < NUM_REQUESTS)
    && (forall g, h :: g in chains && h in chains && g != h ==>
          Members(g, chains[g]) !! Members(h, chains[h]) && chains[g].request != chains[h].request)
  }

  // Conservation: a descriptor is free or one of the three of a request in flight.
  ghost predicate Conserved(chains: map<nat, Chain>, freeDescriptors: seq<nat>, freeRequests: seq<nat>) {
    && |freeDescriptors| + 3 * |chains| == LENGTH
    && |freeRequests| + |chains| == NUM_REQUESTS
  }

  /** At most 42 requests are in flight, and there is always a free request for another one. */
  lemma AtMost42(chains: map<nat, Chain>, freeDescriptors: seq<nat>, freeRequests: seq<nat>)
    requires Conserved(chains, freeDescriptors, freeRequests)
    ensures |chains| <= 42 && |freeRequests| >= 43
  {
  }

  // A request in flight is a chain of three descriptors that says what was asked for.
  ghost predicate ChainsOk(ds: seq<Descriptor>, hs: seq<RequestHeader>, chains: map<nat, Chain>, freeDescriptors: seq<nat>, freeRequests: seq<nat>) {
    && (forall h :: h in chains ==> ChainHolds(ds, h, chains[h]) && HeaderHolds(hs, chains[h]))
    && ChainsApart(chains, freeDescriptors, freeRequests) && Conserved(chains, freeDescriptors, freeRequests)
  }

  // ----- rings -----

  // Positions from lo up to the end of the log are still in the ring.
  ghost predicate Recorded(ring: seq<nat>, log: seq<nat>, lo: nat) {
    |ring| == LENGTH && forall k :: lo <= k < |log| ==> ring[Slot(k, LENGTH)] == log[k]
  }

  // Less than a lap of entries is outstanding, so that the next write overwrites none of them.
  lemma RecordedWrite(ring: seq<nat>, log: seq<nat>, lo: nat, x: nat)
    requires Recorded(ring, log, lo) && lo <= |log| < lo + LENGTH
    ensures Recorded(ring[Slot(|log|, LENGTH) := x], log + [x], lo)
  {
    hide Slot;
    forall k | lo <= k < |log| ensures Slot(k, LENGTH) != Slot(|log|, LENGTH) {
      ApartInLap(k, |log|, LENGTH);
    }
  }

  // The place in a ring for an index.
  function Wrap(index: nat): (i: nat)
    ensures i < LENGTH
  {
    index % LENGTH
  }

  // A 16-bit index after n increments.
  function IndexOf(n: nat): nat {
    n % INDEX_LIMIT
  }

  lemma IndexStep(n: nat)
    ensures (IndexOf(n) + 1) % INDEX_LIMIT == IndexOf(n + 1)
  {
  }

  // The device's 16-bit index, taken modulo the length of the queue, is the place of the next entry.
  lemma IndexModulo(n: nat)
    ensures Wrap(IndexOf(n)) == Slot(n, LENGTH)
  {
    var q, r := n / INDEX_LIMIT, n % INDEX_LIMIT;
    var a, b := r / LENGTH, r % LENGTH;
    assert n == (q * 512 + a) * LENGTH + b;
    Remainder(n, q * 512 + a, b, LENGTH);
  }

  /** Comparing places modulo 128 tells whether all completions have been handled. */
  lemma NoneMissed(processed: nat, n: nat)
    requires processed <= n < processed + LENGTH
    ensures Slot(processed, LENGTH) == Slot(n, LENGTH) <==> processed == n
  {
    if processed < n {
      ApartInLap(processed, n, LENGTH);
    }
  }

  // Where a request in flight is: waiting in the available ring, at the device, or completed but not yet
  // handled in the used ring.
  datatype Stage = Waiting(k: nat) | AtDevice | Done(k: nat)

  // Each request in flight is in one place, and everything outstanding in the rings is a request in flight.
  ghost predicate Stages(heads: set<nat>, stage: map<nat, Stage>, submitted: seq<nat>, taken: nat, used: seq<nat>, processed: nat) {
    && heads == stage.Keys && taken <= |submitted| && processed <= |used|
    && (forall k :: taken <= k < |submitted| ==> submitted[k] in stage && stage[submitted[k]] == Waiting(k))
    && (forall k :: processed <= k < |used| ==> used[k] in stage && stage[used[k]] == Done(k))
    && (forall h :: h in stage && stage[h].Waiting? ==> taken <= stage[h].k < |submitted| && submitted[stage[h].k] == h)
    && (forall h :: h in stage && stage[h].Done? ==> processed <= stage[h].k < |used| && used[stage[h].k] == h)
  }

  lemma {:induction false} DistinctWithin(log: seq<nat>, lo: nat, heads: set<nat>)
    requires lo <= |log| && forall k :: lo <= k < |log| ==> log[k] in heads
    requires forall j, k :: lo <= j < k < |log| ==> log[j] != log[k]
    ensures |log| - lo <= |heads|
    decreases |log| - lo
  {
    if lo < |log| {
      DistinctWithin(log, lo + 1, heads - {log[lo]});
    }
  }

  /** The rings never hold more than the requests in flight, so neither of them overflows. */
  lemma OutstandingBounded(heads: set<nat>, stage: map<nat, Stage>, submitted: seq<nat>, taken: nat, used: seq<nat>, processed: nat)
    requires Stages(heads, stage, submitted, taken, used, processed)
    ensures taken <= |submitted| <= taken + |heads| && processed <= |used| <= processed + |heads|
  {
    forall j, k | taken <= j < k < |submitted| ensures submitted[j] != submitted[k] {
      assert stage[submitted[j]] == Waiting(j) && stage[submitted[k]] == Waiting(k);
    }
    forall j, k | processed <= j < k < |used| ensures used[j] != used[k] {
      assert stage[used[j]] == Done(j) && stage[used[k]] == Done(k);
    }
    DistinctWithin(submitted, taken, heads);
    DistinctWithin(used, processed, heads);
  }

  lemma NothingInFlight(avail: seq<nat>, used: seq<nat>, freeDescriptors: seq<nat>, freeRequests: seq<nat>)
    requires |avail| == LENGTH && |used| == LENGTH && |freeDescriptors| == LENGTH && |freeRequests| == NUM_REQUESTS
    ensures Recorded(avail, [], 0) && Recorded(used, [], 0) && Stages({}, map[], [], 0, [], 0)
    ensures ChainsApart(map[], freeDescriptors, freeRequests) && Conserved(map[], freeDescriptors, freeRequests)
  {
  }

  // Only descriptors of a list were written.
  ghost predicate UnlistedKept(ds: seq<Descriptor>, ds': seq<Descriptor>, list: seq<nat>) {
    |ds'| == |ds| && forall x :: 0 <= x < |ds| && x !in list ==> ds'[x] == ds[x]
  }

  lemma TwoDistinct(free: seq<nat>, a: nat, b: nat, rest: seq<nat>)
    requires NoDuplicates(free) && free == [a, b] + rest
    ensures a != b
  {
    assert free[0] == a && free[1] == b;
  }

  lemma TakenDistinct(free: seq<nat>, a: nat, b: nat, c: nat, rest: seq<nat>)
    requires NoDuplicates(free) && free == [a, b, c] + rest
    ensures a != b && b != c && a != c && a !in rest && b !in rest && c !in rest
  {
    assert free[0] == a && free[1] == b && free[2] == c;
    assert forall i :: 0 <= i < |rest| ==> free[i + 3] == rest[i];
  }

  // The descriptors of live chains are as they were.
  ghost predicate ChainsKept(ds: seq<Descriptor>, ds': seq<Descriptor>, chains: map<nat, Chain>) {
    |ds'| == |ds| && forall h, x :: h in chains && x in Members(h, chains[h]) && x < |ds| ==> ds'[x] == ds[x]
  }

  lemma ChainsStillHold(ds: seq<Descriptor>, ds': seq<Descriptor>, chains: map<nat, Chain>)
    requires ChainsKept(ds, ds', chains) && forall h :: h in chains ==> ChainHolds(ds, h, chains[h])
    ensures forall h :: h in chains ==> ChainHolds(ds', h, chains[h])
  {
    forall h | h in chains ensures ChainHolds(ds', h, chains[h]) {
      var c := chains[h];
      assert h in Members(h, c) && c.second in Members(h, c) && c.third in Members(h, c);
    }
  }

  lemma NewChainHolds(ds: seq<Descriptor>, h: nat, c: Chain)
    requires h < |ds| && c.second < |ds| && c.third < |ds| && h != c.second && c.second != c.third && h != c.third
    requires ds[h] == Descriptor(Header(c.request), HEADER_SIZE, FLAG_NEXT, c.second)
    requires ds[c.second] == Descriptor(Page(c.order.page), PhysicalMemory.PAGE_SIZE, PageDescriptorFlags(c.order.isWrite), c.third)
    requires ds[c.third].(next := 0) == Descriptor(Status(c.request), 1, FLAG_DEVICE_WRITE, 0)
    ensures ChainHolds(ds, h, c)
  {
  }

  // Filling in the header of a free request.
  lemma HeadersKept(hs: seq<RequestHeader>, r: nat, x: RequestHeader, chains: map<nat, Chain>, free: seq<nat>, freeRequests: seq<nat>)
    requires ChainsApart(chains, free, freeRequests) && r in freeRequests && r < |hs|
    requires forall h :: h in chains ==> HeaderHolds(hs, chains[h])
    ensures forall h :: h in chains ==> HeaderHolds(hs[r := x], chains[h])
  {
  }

  // Three free descriptors and a free request become a chain.
  lemma ChainAdded(chains: map<nat, Chain>, free: seq<nat>, freeRequests: seq<nat>, order: Submission)
    requires ChainsApart(chains, free, freeRequests) && Conserved(chains, free, freeRequests)
    requires |free| >= 3 && freeRequests != [] && NoDuplicates(free) && NoDuplicates(freeRequests)
    requires forall x :: x in freeRequests ==> x < NUM_REQUESTS
    ensures var chains' := chains[free[0] := Chain(free[1], free[2], freeRequests[0], order)];
      && free[0] !in chains
      && ChainsApart(chains', free[3..], freeRequests[1..]) && Conserved(chains', free[3..], freeRequests[1..])
  {
    hide Members, NoDuplicates;
    var c := Chain(free[1], free[2], freeRequests[0], order);
    var chains' := chains[free[0] := c];
    assert free[0] in free && free[1] in free && free[2] in free && freeRequests[0] in freeRequests;
    forall h | h in chains ensures h != free[0] && Members(free[0], c) !! Members(h, chains[h]) {
      FreeOutside(free, h, chains[h], c);
    }
    assert |chains'| == |chains| + 1;
    forall x | x in free[3..] ensures x in free && x !in Members(free[0], c) {
      NotFirstThree(free, x, c);
    }
    RestDiffers(freeRequests);
  }

  lemma RestDiffers(s: seq<nat>)
    requires NoDuplicates(s) && s != []
    ensures forall x :: x in s[1..] ==> x in s && x != s[0]
  {
  }

  lemma FreeOutside(free: seq<nat>, h: nat, c: Chain, d: Chain)
    requires |free| >= 3 && forall x :: x in free ==> x !in Members(h, c)
    requires d.second == free[1] && d.third == free[2]
    ensures h != free[0] && Members(free[0], d) !! Members(h, c)
  {
    assert free[0] in free && free[1] in free && free[2] in free;
  }

  lemma NotFirstThree(free: seq<nat>, x: nat, d: Chain)
    requires NoDuplicates(free) && |free| >= 3 && x in free[3..]
    requires d.second == free[1] && d.third == free[2]
    ensures x in free && x !in Members(free[0], d)
  {
    var i :| 0 <= i < |free[3..]| && free[3..][i] == x;
    assert free[i + 3] == x;
  }

  lemma FreedOrFree(h: nat, c: Chain, free: seq<nat>, x: nat)
    requires x in [h, c.second, c.third] + free
    ensures x in free || x in Members(h, c)
  {
  }

  // ... and the other way round; the descriptors are freed last to first.
  lemma ChainRemoved(chains: map<nat, Chain>, free: seq<nat>, freeRequests: seq<nat>, h: nat)
    requires ChainsApart(chains, free, freeRequests) && Conserved(chains, free, freeRequests) && h in chains
    ensures var c := chains[h];
      && ChainsApart(chains - {h}, [h, c.second, c.third] + free, [c.request] + freeRequests)
      && Conserved(chains - {h}, [h, c.second, c.third] + free, [c.request] + freeRequests)
  {
    hide Members;
    var c, chains' := chains[h], chains - {h};
    var free' := [h, c.second, c.third] + free;
    assert |chains'| == |chains| - 1 by {
      assert chains == chains'[h := c];
    }
    forall g, x | g in chains' && x in free' ensures x !in Members(g, chains'[g]) {
      FreedOrFree(h, c, free, x);
      assert Members(g, chains[g]) !! Members(h, c);
    }
    assert forall x :: x in [c.request] + freeRequests <==> x == c.request || x in freeRequests;
  }

  lemma ListedFree(ds: seq<Descriptor>, ds': seq<Descriptor>, chains: map<nat, Chain>, free: seq<nat>, freeRequests: seq<nat>)
    requires ChainsApart(chains, free, freeRequests) && UnlistedKept(ds, ds', free)
    ensures ChainsKept(ds, ds', chains)
  {
  }

  lemma RequestAvailable(chains: map<nat, Chain>, free: seq<nat>, freeRequests: seq<nat>)
    requires Conserved(chains, free, freeRequests)
    ensures freeRequests != []
  {
  }

  lemma TakenRequest(requests: seq<nat>, r: nat, rest: seq<nat>)
    requires NoDuplicates(requests) && requests == [r] + rest
    ensures r !in rest
  {
    assert forall i :: 0 <= i < |rest| ==> requests[i + 1] == rest[i];
    assert requests[0] == r;
  }

  // A new request is waiting in the available ring.
  lemma StageAdded(heads: set<nat>, stage: map<nat, Stage>, submitted: seq<nat>, taken: nat, used: seq<nat>, processed: nat, h: nat)
    requires Stages(heads, stage, submitted, taken, used, processed) && h !in heads
    ensures Stages(heads + {h}, stage[h := Waiting(|submitted|)], submitted + [h], taken, used, processed)
  {
  }

  class BlockQueue {
    const descriptors: array<Descriptor>
    var freeDescIndex: nat
    var numFreeDescs: nat
    var lastSeenUsed: nat
    const availRing: array<nat>
    var availIndex: nat
    const usedRing: array<nat>
    var usedIndex: nat
    const requestNext: array<nat>
    const headers: array<RequestHeader>
    var firstFreeRequest: nat
    // How many entries of the available ring the device has taken.
    var deviceIndex: nat

    ghost var freeDescriptors: seq<nat>
    ghost var freeRequests: seq<nat>
    ghost var chains: map<nat, Chain>
    ghost var stage: map<nat, Stage>
    ghost var submitted: seq<nat>
    ghost var used: seq<nat>
    ghost var processed: nat

    ghost predicate Sized()
    {
      && descriptors.Length == LENGTH && availRing.Length == LENGTH && usedRing.Length == LENGTH
      && requestNext.Length == NUM_REQUESTS && headers.Length == NUM_REQUESTS
      && availRing != usedRing && availRing != requestNext && usedRing != requestNext
    }

    ghost predicate DescriptorsSound()
      reads `freeDescIndex, `numFreeDescs, `freeDescriptors, descriptors
    {
      && Sized() && FreeListSound(NextOf(descriptors[..]), freeDescIndex, LENGTH, freeDescriptors)
      && numFreeDescs == |freeDescriptors|
    }

    ghost predicate RequestsSound()
      reads `firstFreeRequest, `freeRequests, requestNext
    {
      Sized() && FreeListSound(NextIn(requestNext[..]), firstFreeRequest, NUM_REQUESTS, freeRequests)
    }

    ghost predicate ChainsSound()
      reads `chains, `freeDescriptors, `freeRequests, descriptors, headers
    {
      ChainsOk(descriptors[..], headers[..], chains, freeDescriptors, freeRequests)
    }

    ghost predicate RingsSound()
      reads `submitted, `deviceIndex, `availIndex, `used, `processed, `usedIndex, `chains, `stage, availRing, usedRing
    {
      && Recorded(availRing[..], submitted, deviceIndex) && availIndex == IndexOf(|submitted|)
      && Recorded(usedRing[..], used, processed) && usedIndex == IndexOf(|used|)
      && Stages(chains.Keys, stage, submitted, deviceIndex, used, processed)
    }

    // All but last_seen_used, which irq writes back when it is done.
    ghost predicate Sound()
      reads this, descriptors, availRing, usedRing, requestNext, headers
    {
      DescriptorsSound() && RequestsSound() && ChainsSound() && RingsSound()
    }

    ghost predicate Valid()
      reads this, descriptors, availRing, usedRing, requestNext, headers
    {
      Sound() && lastSeenUsed == Slot(processed, LENGTH)
    }

    constructor ()
      ensures Valid() && chains == map[] && submitted == [] && deviceIndex == 0 && used == [] && processed == 0
      ensures fresh(descriptors) && fresh(availRing) && fresh(usedRing) && fresh(requestNext) && fresh(headers)
    {
      descriptors := new Descriptor[LENGTH]((i: nat) => Descriptor(Nothing, 0, 0, i + 1));
      freeDescIndex, numFreeDescs, lastSeenUsed := 0, LENGTH, 0;
      availRing, usedRing := new nat[LENGTH](_ => 0), new nat[LENGTH](_ => 0);
      availIndex, usedIndex, deviceIndex := 0, 0, 0;
      requestNext := new nat[NUM_REQUESTS]((i: nat) => i + 1);
      headers := new RequestHeader[NUM_REQUESTS](_ => RequestHeader(false, 0));
      firstFreeRequest := 0;
      freeDescriptors, freeRequests := UpFrom(0, LENGTH), UpFrom(0, NUM_REQUESTS);
      chains, stage, submitted, used, processed := map[], map[], [], [], 0;
      new;
      Start();
    }

    // The state that the constructor has set up is valid.
    lemma Start()
      requires Sized() && (forall i :: 0 <= i < LENGTH ==> descriptors[i].next == i + 1)
      requires forall i :: 0 <= i < NUM_REQUESTS ==> requestNext[i] == i + 1
      requires freeDescIndex == 0 && numFreeDescs == LENGTH && lastSeenUsed == 0 && firstFreeRequest == 0
      requires availIndex == 0 && usedIndex == 0 && deviceIndex == 0 && processed == 0
      requires freeDescriptors == UpFrom(0, LENGTH) && freeRequests == UpFrom(0, NUM_REQUESTS)
      requires chains == map[] && stage == map[] && submitted == [] && used == []
      ensures Valid()
    {
      hide Linked, NoDuplicates, FreeListSound, UpFrom, Slot;
      UpFromSound(NextOf(descriptors[..]), LENGTH);
      UpFromSound(NextIn(requestNext[..]), NUM_REQUESTS);
      Remainder(0, 0, 0, LENGTH);
      hide Stages, Recorded, ChainsApart, ChainHolds, NextOf, NextIn, Conserved;
      NothingInFlight(availRing[..], usedRing[..], freeDescriptors, freeRequests);
    }

    /** The first free descriptor, or 128 if there is none. */
    method AllocDescriptor() returns (index: nat)
      requires DescriptorsSound()
      modifies `freeDescIndex, `numFreeDescs, `freeDescriptors
      ensures DescriptorsSound()
      ensures if old(freeDescriptors) == [] then index == LENGTH && freeDescriptors == []
              else index < LENGTH && old(freeDescriptors) == [index] + freeDescriptors
    {
      LinkedEmpty(NextOf(descriptors[..]), freeDescIndex, LENGTH, freeDescriptors);
      index := freeDescIndex;
      if index == LENGTH {
        return;
      }
      assert freeDescriptors[0] in freeDescriptors;
      assert forall x :: x in freeDescriptors[1..] ==> x in freeDescriptors;
      freeDescIndex := descriptors[index].next;
      numFreeDescs := numFreeDescs - 1;
      freeDescriptors := freeDescriptors[1..];
    }

    method FreeDescriptor(index: nat)
      requires DescriptorsSound() && index < LENGTH && index !in freeDescriptors
      modifies descriptors, `freeDescIndex, `numFreeDescs, `freeDescriptors
      ensures DescriptorsSound() && freeDescriptors == [index] + old(freeDescriptors)
      ensures descriptors[..] == old(descriptors[..])[index := old(descriptors[index]).(next := old(freeDescIndex))]
    {
      ghost var before := descriptors[..];
      descriptors[index] := descriptors[index].(next := freeDescIndex);
      LinkedKept(NextOf(before), NextOf(descriptors[..]), freeDescIndex, LENGTH, freeDescriptors);
      freeDescIndex := index;
      numFreeDescs := numFreeDescs + 1;
      freeDescriptors := [index] + freeDescriptors;
      assert freeDescriptors[1..] == old(freeDescriptors);
    }

    method AllocRequest() returns (r: nat)
      requires RequestsSound()
      modifies `firstFreeRequest, `freeRequests
      ensures RequestsSound()
      ensures if old(freeRequests) == [] then r == NUM_REQUESTS && freeRequests == []
              else r < NUM_REQUESTS && old(freeRequests) == [r] + freeRequests
    {
      LinkedEmpty(NextIn(requestNext[..]), firstFreeRequest, NUM_REQUESTS, freeRequests);
      r := firstFreeRequest;
      if r == NUM_REQUESTS {
        return;
      }
      assert freeRequests[0] in freeRequests;
      assert forall x :: x in freeRequests[1..] ==> x in freeRequests;
      firstFreeRequest := requestNext[r];
      freeRequests := freeRequests[1..];
    }

    method FreeRequest(r: nat)
      requires RequestsSound() && r < NUM_REQUESTS && r !in freeRequests
      modifies requestNext, `firstFreeRequest, `freeRequests
      ensures RequestsSound() && freeRequests == [r] + old(freeRequests)
    {
      ghost var before := requestNext[..];
      requestNext[r] := firstFreeRequest;
      LinkedKept(NextIn(before), NextIn(requestNext[..]), firstFreeRequest, NUM_REQUESTS, freeRequests);
      firstFreeRequest := r;
      freeRequests := [r] + freeRequests;
      assert freeRequests[1..] == old(freeRequests);
    }

    /** Submitting never overwrites an entry that the device has not taken yet. */
    method SubmitDescriptor(index: nat)
      requires Sized() && Recorded(availRing[..], submitted, deviceIndex) && availIndex == IndexOf(|submitted|)
      requires deviceIndex <= |submitted| < deviceIndex + LENGTH
      modifies availRing, `availIndex, `submitted
      ensures Recorded(availRing[..], submitted, deviceIndex) && availIndex == IndexOf(|submitted|)
      ensures submitted == old(submitted) + [index]
    {
      hide Slot, Wrap, IndexOf;
      IndexModulo(|submitted|);
      IndexStep(|submitted|);
      RecordedWrite(availRing[..], submitted, deviceIndex, index);
      availRing[Wrap(availIndex)] := index;
      assert availRing[..] == old(availRing[..])[Slot(|submitted|, LENGTH) := index];
      availIndex := (availIndex + 1) % INDEX_LIMIT;
      submitted := submitted + [index];
    }

    method SubmitChain(first: nat, ghost c: Chain)
      requires Sized() && RingsSound() && first !in chains && |chains| <= 42
      modifies availRing, `availIndex, `submitted, `chains, `stage
      ensures RingsSound() && chains == old(chains)[first := c] && submitted == old(submitted) + [first]
    {
      hide Stages, Recorded, Slot, IndexOf;
      OutstandingBounded(chains.Keys, stage, submitted, deviceIndex, used, processed);
      StageAdded(chains.Keys, stage, submitted, deviceIndex, used, processed, first);
      stage := stage[first := Waiting(|submitted|)];
      SubmitDescriptor(first);
      chains := chains[first := c];
      assert chains.Keys == old(chains).Keys + {first};
    }

    // Filling in a descriptor that is on no list.
    method WriteDescriptor(index: nat, address: Address, length: nat, flags: nat)
      requires DescriptorsSound() && index < LENGTH
      modifies descriptors
      ensures DescriptorsSound()
      ensures descriptors[..] == old(descriptors[..])[index := Descriptor(address, length, flags, old(descriptors[index].next))]
    {
      ghost var before := descriptors[..];
      descriptors[index] := Descriptor(address, length, flags, descriptors[index].next);
      LinkedKept(NextOf(before), NextOf(descriptors[..]), freeDescIndex, LENGTH, freeDescriptors);
    }

    method SetNext(index: nat, next: nat)
      requires DescriptorsSound() && index < LENGTH && index !in freeDescriptors
      modifies descriptors
      ensures DescriptorsSound()
      ensures descriptors[..] == old(descriptors[..])[index := old(descriptors[index]).(next := next)]
    {
      ghost var before := descriptors[..];
      descriptors[index] := descriptors[index].(next := next);
      LinkedKept(NextOf(before), NextOf(descriptors[..]), freeDescIndex, LENGTH, freeDescriptors);
    }

    /** Three descriptors are taken and linked for a request, or those that could be taken are given back. */
    method LinkThree(request: nat, page: nat, isWrite: bool) returns (ok: bool, first: nat, second: nat, third: nat)
      requires DescriptorsSound()
      modifies descriptors, `freeDescIndex, `numFreeDescs, `freeDescriptors
      ensures DescriptorsSound()
      ensures ok <==> |old(freeDescriptors)| >= 3
      ensures !ok ==> freeDescriptors == old(freeDescriptors)
      ensures ok ==> old(freeDescriptors) == [first, second, third] + freeDescriptors
      ensures ok ==>
        && first < LENGTH && second < LENGTH && third < LENGTH
        && descriptors[first] == Descriptor(Header(request), HEADER_SIZE, FLAG_NEXT, second)
        && descriptors[second]
             == Descriptor(Page(page), PhysicalMemory.PAGE_SIZE, PageDescriptorFlags(isWrite), third)
        && descriptors[third].(next := 0) == Descriptor(Status(request), 1, FLAG_DEVICE_WRITE, 0)
      ensures UnlistedKept(old(descriptors[..]), descriptors[..], old(freeDescriptors))
    {
      hide Linked, NoDuplicates;
      ghost var free := freeDescriptors;
      ok, second, third := false, LENGTH, LENGTH;
      first := AllocDescriptor();
      if first == LENGTH {
        return;
      }
      WriteDescriptor(first, Header(request), HEADER_SIZE, FLAG_NEXT);
      second := AllocDescriptor();
      if second == LENGTH {
        FreeDescriptor(first);
        return;
      }
      WriteDescriptor(second, Page(page), PhysicalMemory.PAGE_SIZE, PageDescriptorFlags(isWrite));
      third := AllocDescriptor();
      if third == LENGTH {
        TwoDistinct(free, first, second, []);
        FreeDescriptor(second);
        FreeDescriptor(first);
        return;
      }
      WriteDescriptor(third, Status(request), 1, FLAG_DEVICE_WRITE);
      TakenDistinct(free, first, second, third, freeDescriptors);
      SetNext(first, second);
      SetNext(second, third);
      ok := true;
    }

    /**
     A block request takes a request slot and three descriptors and submits their chain; if there are not enough
     descriptors everything taken is given back and nothing is submitted. A request slot is always available.
     */
    method ReadWriteBlock(block: nat, page: nat, isWrite: bool) returns (r: SubmitResult)
      requires Sound()
      modifies `freeDescIndex, `numFreeDescs, `freeDescriptors, `firstFreeRequest, `freeRequests
      modifies `availIndex, `submitted, `chains, `stage, descriptors, availRing, requestNext, headers
      ensures Sound()
      ensures r == NoMemory <==> |old(freeDescriptors)| < 3
      ensures r == NoMemory ==>
        && freeDescriptors == old(freeDescriptors) && freeRequests == old(freeRequests)
        && chains == old(chains) && submitted == old(submitted)
      ensures r == Submitted ==>
        && old(freeRequests) != []
        && var first, second, third := old(freeDescriptors)[0], old(freeDescriptors)[1], old(freeDescriptors)[2];
        var request := old(freeRequests)[0];
        && freeDescriptors == old(freeDescriptors)[3..] && freeRequests == old(freeRequests)[1..]
        && chains == old(chains)[first := Chain(second, third, request, Submission(block, page, isWrite))]
        && submitted == old(submitted) + [first] && first !in old(chains)
    {
      hide Linked, NoDuplicates, ChainsApart, ChainHolds, RingsSound, Slot, Conserved, NextOf, NextIn;
      ghost var free, requests, ds, before := freeDescriptors, freeRequests, descriptors[..], chains;
      var request := AllocRequest();
      if request == NUM_REQUESTS {
        RequestAvailable(before, free, requests);
        return NoMemory;
      }
      HeadersKept(headers[..], request, RequestHeader(isWrite, block * 8), before, free, requests);
      ghost var hs := headers[..];
      headers[request] := RequestHeader(isWrite, block * 8);
      assert headers[..] == hs[request := RequestHeader(isWrite, block * 8)];
      ghost var order := Submission(block, page, isWrite);
      var ok, first, second, third := LinkThree(request, page, isWrite);
      ListedFree(ds, descriptors[..], before, free, requests);
      ChainsStillHold(ds, descriptors[..], before);
      if !ok {
        TakenRequest(requests, request, freeRequests);
        FreeRequest(request);
        return NoMemory;
      }
      ChainAdded(before, free, requests, order);
      AtMost42(before, free, requests);
      TakenDistinct(free, first, second, third, freeDescriptors);
      NewChainHolds(descriptors[..], first, Chain(second, third, request, order));
      assert freeDescriptors == free[3..] && freeRequests == requests[1..];
      SubmitChain(first, Chain(second, third, request, order));
      r := Submitted;
    }

    /** The device takes the next head from the available ring, and finds the three descriptors and the header of
        what was asked for. */
    method DeviceTakes() returns (head: nat)
      requires Sound() && deviceIndex < |submitted|
      modifies `deviceIndex, `stage
      ensures Sound() && deviceIndex == old(deviceIndex) + 1 && head == submitted[old(deviceIndex)]
      ensures head in old(stage) && stage == old(stage)[head := AtDevice]
      ensures head in chains && ChainHolds(descriptors[..], head, chains[head]) && HeaderHolds(headers[..], chains[head])
    {
      hide Slot, Wrap, IndexOf, FreeListSound, ChainHolds, ChainsApart, Conserved;
      head := availRing[Slot(deviceIndex, LENGTH)];
      assert availRing[..][Slot(deviceIndex, LENGTH)] == head;
      StageTaken(chains.Keys, stage, submitted, deviceIndex, used, processed);
      stage := stage[head := AtDevice];
      deviceIndex := deviceIndex + 1;
    }

    // The device completes any request that it has; its write to the used ring overwrites nothing that is still needed.
    method DeviceCompletes(head: nat)
      requires Valid() && head in stage && stage[head] == AtDevice
      modifies usedRing, `usedIndex, `used, `stage
      ensures Valid() && used == old(used) + [head] && stage == old(stage)[head := Done(|old(used)|)]
    {
      hide Slot, Wrap, IndexOf, Stages, Recorded, FreeListSound, ChainsApart, ChainHolds, Conserved;
      AtMost42(chains, freeDescriptors, freeRequests);
      OutstandingBounded(chains.Keys, stage, submitted, deviceIndex, used, processed);
      IndexModulo(|used|);
      IndexStep(|used|);
      RecordedWrite(usedRing[..], used, processed, head);
      StageDone(chains.Keys, stage, submitted, deviceIndex, used, processed, head);
      ghost var before := usedRing[..];
      stage := stage[head := Done(|used|)];
      used := used + [head];
      usedRing[Wrap(usedIndex)] := head;
      assert usedRing[..] == before[Slot(|used| - 1, LENGTH) := head];
      usedIndex := (usedIndex + 1) % INDEX_LIMIT;
    }

    method FreeChain(desc: nat, ghost c: Chain)
      requires DescriptorsSound() && ChainHolds(descriptors[..], desc, c)
      requires forall x :: x in freeDescriptors ==> x !in Members(desc, c)
      modifies descriptors, `freeDescIndex, `numFreeDescs, `freeDescriptors
      ensures DescriptorsSound() && freeDescriptors == [desc, c.second, c.third] + old(freeDescriptors)
      ensures forall x :: 0 <= x < LENGTH && x !in Members(desc, c) ==> descriptors[x] == old(descriptors[x])
    {
      hide Linked, NoDuplicates, NextOf;
      ghost var free := freeDescriptors;
      assert desc in Members(desc, c) && c.second in Members(desc, c) && c.third in Members(desc, c);
      FreeDescriptor(descriptors[descriptors[desc].next].next);
      FreeDescriptor(descriptors[desc].next);
      FreeDescriptor(desc);
      assert freeDescriptors == [desc, c.second, c.third] + free;
    }

    // What a callback does: it submits any number of further requests.
    method SubmitAll(work: seq<Submission>) returns (results: seq<SubmitResult>)
      requires Sound()
      modifies `freeDescIndex, `numFreeDescs, `freeDescriptors, `firstFreeRequest, `freeRequests
      modifies `availIndex, `submitted, `chains, `stage, descriptors, availRing, requestNext, headers
      ensures Sound() && |results| == |work| && |old(chains)| <= 42
      // as many are submitted as there is room for
      ensures Grown(old(chains), chains, old(submitted), submitted, Accepted(|old(chains)|, work))
      ensures forall j :: 0 <= j < |work| ==>
        results[j] == if j < |Accepted(|old(chains)|, work)| then Submitted else NoMemory
    {
      hide DescriptorsSound, RequestsSound, ChainsSound, RingsSound, Grown;
      results := [];
      NothingGrown(chains, submitted);
      NoRoom();
      for i := 0 to |work|
        invariant Sound() && |results| == i
        invariant Grown(old(chains), chains, old(submitted), submitted, Accepted(|old(chains)|, work[..i]))
        invariant forall j :: 0 <= j < i ==>
          results[j] == if j < Room(|old(chains)|) then Submitted else NoMemory
      {
        ghost var before, log := chains, submitted;
        NoRoom();
        GrownCount(old(chains), before, old(submitted), log, Accepted(|old(chains)|, work[..i]));
        var r := ReadWriteBlock(work[i].block, work[i].page, work[i].isWrite);
        AcceptedMore(|old(chains)|, work, i);
        if r == Submitted {
          assert chains[submitted[|log|]].order == work[i];
          assert chains == before[submitted[|log|] := chains[submitted[|log|]]] && submitted == log + [submitted[|log|]];
          GrownMore(old(chains), before, old(submitted), log, Accepted(|old(chains)|, work[..i]), submitted[|log|],
                    chains[submitted[|log|]]);
        }
        results := results + [r];
      }
      assert work[..|work|] == work;
    }

    lemma NoRoom()
      requires ChainsSound()
      ensures (|freeDescriptors| < 3 <==> |chains| == 42) && |chains| <= 42
    {
      NoRoomIff(chains, freeDescriptors, freeRequests);
    }

    /** One pass of the loop in irq, for the completion at place i of the used ring: the callback, which may
        submit further requests, runs before the request and its descriptors are given back. */
    method HandleCompletion(i: nat, work: seq<Submission>) returns (request: nat, results: seq<SubmitResult>)
      requires Sound()
      requires processed < |used| && i == Slot(processed, LENGTH)
      modifies `freeDescIndex, `numFreeDescs, `freeDescriptors, `firstFreeRequest, `freeRequests
      modifies `availIndex, `submitted, `chains, `stage, `processed, descriptors, availRing, requestNext, headers
      ensures Sound()
      ensures processed == old(processed) + 1 && |results| == |work|
      ensures HandledOne(old(chains), chains, old(submitted), submitted, old(used[processed]), request,
                         Accepted(|old(chains)|, work))
      ensures forall j :: 0 <= j < |work| ==>
        results[j] == if j < |Accepted(|old(chains)|, work)| then Submitted else NoMemory
    {
      hide DescriptorsSound, RequestsSound, RingsSound, ChainsOk, Slot, Grown;
      CompletionFacts();
      ghost var h := used[processed];
      var desc := usedRing[i];
      LiveChain(desc);
      request := HeadRequest(desc, chains[desc]);
      ghost var before, log := chains, submitted;
      results := SubmitAll(work);
      ghost var orders := Accepted(|before|, work);
      GrownKeeps(before, chains, log, submitted, orders, h);
      ghost var mid := chains;
      GiveBack(desc, request);
      PopCompletion();
      GrownWithout(before, mid, log, submitted, orders, h);
    }

    lemma LiveChain(h: nat)
      requires DescriptorsSound() && ChainsSound() && h in chains
      ensures Sized() && ChainHolds(descriptors[..], h, chains[h])
    {
    }

    // The request and the three descriptors of a chain go back to their free lists.
    method GiveBack(desc: nat, request: nat)
      requires DescriptorsSound() && RequestsSound() && ChainsSound() && desc in chains && request == chains[desc].request
      modifies descriptors, requestNext, `freeDescIndex, `numFreeDescs, `freeDescriptors, `firstFreeRequest, `freeRequests
      ensures DescriptorsSound() && RequestsSound()
      ensures ChainsOk(descriptors[..], headers[..], chains - {desc}, freeDescriptors, freeRequests)
    {
      hide DescriptorsSound, RequestsSound, ChainsApart, Conserved, ChainHolds, Members;
      ghost var free, requests, ds, before := freeDescriptors, freeRequests, descriptors[..], chains;
      ghost var c := chains[desc];
      assert Sized() by {
        SizesKnown();
      }
      ChainRemoved(before, free, requests, desc);
      ChainOutside(before, free, requests, desc);
      FreeRequest(request);
      FreeChain(desc, c);
      RemovedKept(ds, descriptors[..], before, desc, free, requests);
      ChainsStillHold(ds, descriptors[..], before - {desc});
    }

    lemma SizesKnown()
      requires RequestsSound()
      ensures Sized()
    {
    }

    lemma CompletionFacts()
      requires DescriptorsSound() && RequestsSound() && RingsSound() && processed < |used|
      ensures Sized() && usedRing[Slot(processed, LENGTH)] == used[processed] && used[processed] in chains
    {
      hide Slot;
      StageHandled(chains.Keys, stage, submitted, deviceIndex, used, processed);
      RecordedNext(usedRing[..], used, processed);
    }

    // The request that a head descriptor points to.
    method HeadRequest(desc: nat, ghost c: Chain) returns (request: nat)
      requires descriptors.Length == LENGTH && ChainHolds(descriptors[..], desc, c)
      ensures request == c.request
    {
      request := descriptors[desc].address.request;
    }

    method PopCompletion()
      requires Sized() && RingsSound() && processed < |used|
      modifies `chains, `stage, `processed
      ensures RingsSound() && processed == old(processed) + 1
      ensures used[old(processed)] in old(stage) && chains == old(chains) - {used[old(processed)]}
      ensures stage == old(stage) - {used[old(processed)]}
    {
      hide Slot, Wrap, IndexOf;
      ghost var h := used[processed];
      StageHandled(chains.Keys, stage, submitted, deviceIndex, used, processed);
      RecordedLater(usedRing[..], used, processed);
      KeysWithout(chains, h);
      hide Stages, Recorded;
      chains := chains - {h};
      stage := stage - {h};
      processed := processed + 1;
    }

    /** Every completion is handled exactly once, in the device's order, and gives its descriptors and request
        back; work[j] is what the callback of completion j submits, if anything.  What is in flight afterwards
        are the requests that were in flight and not completed, as they were, and those newly submitted. */
    method Irq(work: seq<seq<Submission>>) returns (completed: seq<nat>)
      requires Valid()
      modifies this, descriptors, availRing, requestNext, headers
      ensures Valid() && processed == |used| && used == old(used) && old(submitted) <= submitted
      ensures |completed| == |used| - old(processed)
      ensures completed == RequestsOf(used, old(processed), |used|, old(chains))
      ensures Grown(Remaining(used, old(processed), |used|, old(chains)), chains, old(submitted), submitted,
                    AcceptedAll(|old(chains)|, work, |completed|))
    {
      hide DescriptorsSound, RequestsSound, ChainsSound, RingsSound, Slot, Wrap, Remaining, RequestsOf, Grown,
        IrqProgress, HandledOne;
      completed := [];
      var i := lastSeenUsed;
      InRange();
      IrqStart(used, processed, chains, submitted, work);
      while i != Wrap(usedIndex)
        invariant Sound()
        invariant i == Slot(processed, LENGTH) && Wrap(usedIndex) == Slot(|used|, LENGTH)
        invariant processed <= |used| < processed + LENGTH
        invariant used == old(used)
        invariant IrqProgress(used, old(processed), processed, old(chains), chains, old(submitted), submitted, completed, work)
        decreases |used| - processed
      {
        NoneMissed(processed, |used|);
        ghost var before, log, n := chains, submitted, processed;
        SlotStep(processed);
        var request, results := HandleCompletion(i, WorkOf(work, |completed|));
        IrqStep(used, old(processed), n, old(chains), before, chains, old(submitted), log, submitted, completed, request, work);
        completed := completed + [request];
        i := Wrap(i + 1);
      }
      NoneMissed(processed, |used|);
      IrqDone(used, old(processed), processed, old(chains), chains, old(submitted), submitted, completed, work);
      lastSeenUsed := i;
    }

    lemma InRange()
      requires Valid()
      ensures processed <= |used| < processed + LENGTH && Wrap(usedIndex) == Slot(|used|, LENGTH)
      ensures forall k :: processed <= k < |used| ==> used[k] in chains
      ensures forall j, k :: processed <= j < k < |used| ==> used[j] != used[k]
    {
      hide Slot, Wrap, IndexOf, Stages;
      CompletionsDiffer(chains.Keys, stage, submitted, deviceIndex, used, processed);
      AtMost42(chains, freeDescriptors, freeRequests);
      OutstandingBounded(chains.Keys, stage, submitted, deviceIndex, used, processed);
      IndexModulo(|used|);
    }
  }

  // How many requests there is room for.
  function Room(inFlight: int): nat {
    if inFlight < 42 then 42 - inFlight else 0
  }

  // Those of a list of requests that there is room for.
  function Accepted(inFlight: int, work: seq<Submission>): seq<Submission> {
    work[..Min(|work|, Room(inFlight))]
  }

  function WorkOf(work: seq<seq<Submission>>, j: nat): seq<Submission> {
    if j < |work| then work[j] else []
  }

  // What the callbacks of the first j completions get submitted: the chain of a completed request goes away
  // only after its callback.
  function AcceptedAll(inFlight: int, work: seq<seq<Submission>>, j: nat): seq<Submission> {
    if j == 0 then []
    else
      var before := AcceptedAll(inFlight, work, j - 1);
      before + Accepted(inFlight + |before| - (j - 1), WorkOf(work, j - 1))
  }

  lemma AcceptedMore(inFlight: int, work: seq<Submission>, i: nat)
    requires i < |work|
    ensures |Accepted(inFlight, work[..i])| == Min(i, Room(inFlight))
    ensures Accepted(inFlight, work[..i + 1])
      == if i < Room(inFlight) then Accepted(inFlight, work[..i]) + [work[i]] else Accepted(inFlight, work[..i])
  {
    assert work[..i + 1] == work[..i] + [work[i]];
  }

  // The chains before, as they were, and one for each new entry of the log of submissions, with its order.
  ghost predicate Grown(before: map<nat, Chain>, after: map<nat, Chain>, log0: seq<nat>, log: seq<nat>,
                        orders: seq<Submission>)
  {
    && log0 <= log && |log| == |log0| + |orders|
    && GrownBy(before, after, log[|log0|..])
    && Ordered(after, log[|log0|..], orders)
    && |after| == |before| + |orders|
  }

  ghost predicate GrownBy(before: map<nat, Chain>, after: map<nat, Chain>, heads: seq<nat>) {
    && (forall h :: h in before ==> h in after && after[h] == before[h] && h !in heads)
    && (forall h :: h in after <==> h in before || h in heads)
  }

  ghost predicate Ordered(chains: map<nat, Chain>, heads: seq<nat>, orders: seq<Submission>) {
    |heads| == |orders| && forall k :: 0 <= k < |heads| ==> heads[k] in chains && chains[heads[k]].order == orders[k]
  }

  lemma NothingGrown(chains: map<nat, Chain>, log: seq<nat>)
    ensures Grown(chains, chains, log, log, [])
  {
  }

  lemma GrownMore(c0: map<nat, Chain>, c: map<nat, Chain>, log0: seq<nat>, log: seq<nat>, orders: seq<Submission>,
                  h: nat, x: Chain)
    requires Grown(c0, c, log0, log, orders) && h !in c
    ensures Grown(c0, c[h := x], log0, log + [h], orders + [x.order])
  {
    var heads := log[|log0|..];
    assert (log + [h])[|log0|..] == heads + [h];
    assert h !in heads;
    OrderedMore(c, heads, orders, h, x);
  }

  lemma OrderedMore(c: map<nat, Chain>, heads: seq<nat>, orders: seq<Submission>, h: nat, x: Chain)
    requires Ordered(c, heads, orders) && h !in c
    ensures Ordered(c[h := x], heads + [h], orders + [x.order])
  {
  }

  lemma GrownKeeps(c: map<nat, Chain>, c': map<nat, Chain>, log: seq<nat>, log': seq<nat>, orders: seq<Submission>, h: nat)
    requires Grown(c, c', log, log', orders) && h in c
    ensures h in c' && c'[h] == c[h] && h !in log'[|log|..] && log <= log'
  {
  }

  lemma GrownCount(c: map<nat, Chain>, c': map<nat, Chain>, log: seq<nat>, log': seq<nat>, orders: seq<Submission>)
    requires Grown(c, c', log, log', orders)
    ensures |c'| == |c| + |orders| && log <= log'
  {
  }

  // A chain goes away that was there before.
  lemma GrownWithout(c: map<nat, Chain>, c': map<nat, Chain>, log: seq<nat>, log': seq<nat>, orders: seq<Submission>, h: nat)
    requires Grown(c, c', log, log', orders) && h in c
    ensures Grown(c - {h}, c' - {h}, log, log', orders)
  {
    assert c == (c - {h})[h := c[h]] && c' == (c' - {h})[h := c'[h]];
    OrderedWithout(c', log'[|log|..], orders, h);
  }

  lemma OrderedWithout(c: map<nat, Chain>, heads: seq<nat>, orders: seq<Submission>, h: nat)
    requires Ordered(c, heads, orders) && h !in heads
    ensures Ordered(c - {h}, heads, orders)
  {
  }

  lemma GrownTwice(a: map<nat, Chain>, b: map<nat, Chain>, c: map<nat, Chain>, log0: seq<nat>, log1: seq<nat>,
                   log2: seq<nat>, x: seq<Submission>, y: seq<Submission>)
    requires Grown(a, b, log0, log1, x) && Grown(b, c, log1, log2, y)
    ensures Grown(a, c, log0, log2, x + y)
  {
    hide GrownBy, Ordered;
    assert log2[|log0|..] == log1[|log0|..] + log2[|log1|..];
    GrownByTwice(a, b, c, log1[|log0|..], log2[|log1|..]);
    OrderedTwice(b, c, log1[|log0|..], log2[|log1|..], x, y);
  }

  lemma GrownByTwice(a: map<nat, Chain>, b: map<nat, Chain>, c: map<nat, Chain>, g: seq<nat>, h: seq<nat>)
    requires GrownBy(a, b, g) && GrownBy(b, c, h)
    ensures GrownBy(a, c, g + h)
  {
  }

  lemma OrderedTwice(b: map<nat, Chain>, c: map<nat, Chain>, g: seq<nat>, h: seq<nat>, x: seq<Submission>, y: seq<Submission>)
    requires Ordered(b, g, x) && Ordered(c, h, y) && GrownBy(b, c, h)
    ensures Ordered(c, g + h, x + y)
  {
  }

  /** A request is turned away exactly when 42 are in flight.  A callback that submits the next block of a
      transfer runs before the three descriptors of its own block are free again, so it is turned away even
      though they are about to be. */
  lemma NoRoomIff(chains: map<nat, Chain>, freeDescriptors: seq<nat>, freeRequests: seq<nat>)
    requires Conserved(chains, freeDescriptors, freeRequests)
    ensures |freeDescriptors| < 3 <==> |chains| == 42
  {
  }

  // A queue with 42 requests in flight, the first of which the device has completed.
  method FullQueue(orders: seq<Submission>) returns (queue: BlockQueue)
    requires |orders| == 42
    ensures fresh(queue) && fresh(queue.descriptors) && fresh(queue.availRing) && fresh(queue.usedRing)
    ensures fresh(queue.requestNext) && fresh(queue.headers)
    ensures queue.Valid() && |queue.chains| == 42 && queue.processed == 0 && |queue.used| == 1
  {
    hide BlockQueue.DescriptorsSound, BlockQueue.RequestsSound, BlockQueue.ChainsSound, BlockQueue.RingsSound, ChainHolds,
      HeaderHolds, GrownBy, Ordered, Slot;
    queue := new BlockQueue();
    var _ := queue.SubmitAll(orders);
    var head := queue.DeviceTakes();
    queue.DeviceCompletes(head);
  }

  /** It happens: with 42 requests in flight, the block that the callback of a completed one asks for is turned
      away, and is taken right after the completion has been handled. */
  method TurnedAway(orders: seq<Submission>, next: Submission) returns (inCallback: SubmitResult, afterwards: SubmitResult)
    requires |orders| == 42
    ensures inCallback == NoMemory && afterwards == Submitted
  {
    hide BlockQueue.DescriptorsSound, BlockQueue.RequestsSound, BlockQueue.ChainsSound, BlockQueue.RingsSound, GrownBy,
      Ordered, Slot;
    var queue := FullQueue(orders);
    var _, results := queue.HandleCompletion(queue.lastSeenUsed, [next]);
    inCallback := results[0];
    results := queue.SubmitAll([next]);
    afterwards := results[0];
  }

  // Completions that have not been handled are of different requests in flight.
  lemma CompletionsDiffer(heads: set<nat>, stage: map<nat, Stage>, submitted: seq<nat>, taken: nat, used: seq<nat>, processed: nat)
    requires Stages(heads, stage, submitted, taken, used, processed)
    ensures forall k :: processed <= k < |used| ==> used[k] in heads
    ensures forall j, k :: processed <= j < k < |used| ==> used[j] != used[k]
  {
    forall j, k | processed <= j < k < |used| ensures used[j] != used[k] {
      assert stage[used[j]] == Done(j) && stage[used[k]] == Done(k);
    }
  }

  // The chains that are left once a stretch of the used ring has been handled.
  ghost function Remaining(used: seq<nat>, lo: nat, hi: nat, chains: map<nat, Chain>): (left: map<nat, Chain>)
    requires lo <= hi <= |used|
    ensures forall h :: h in left ==> h in chains && left[h] == chains[h]
    decreases hi
  {
    if lo == hi then chains else Remaining(used, lo, hi - 1, chains) - {used[hi - 1]}
  }

  // The requests of a stretch of the used ring, in order.
  ghost function RequestsOf(used: seq<nat>, lo: nat, hi: nat, chains: map<nat, Chain>): seq<nat>
    requires lo <= hi <= |used|
    decreases hi
  {
    if lo == hi then []
    else RequestsOf(used, lo, hi - 1, chains) + (if used[hi - 1] in chains then [chains[used[hi - 1]].request] else [])
  }

  lemma HandledNone(used: seq<nat>, lo: nat, chains: map<nat, Chain>)
    requires lo <= |used|
    ensures RequestsOf(used, lo, lo, chains) == [] && Remaining(used, lo, lo, chains) == chains
  {
  }

  lemma HandledMore(used: seq<nat>, lo: nat, hi: nat, chains: map<nat, Chain>)
    requires lo < hi <= |used| && used[hi - 1] in Remaining(used, lo, hi - 1, chains)
    ensures var h, left := used[hi - 1], Remaining(used, lo, hi - 1, chains);
      && Remaining(used, lo, hi, chains) == left - {h} && |left - {h}| == |left| - 1
      && h in chains && left[h] == chains[h]
      && RequestsOf(used, lo, hi, chains) == RequestsOf(used, lo, hi - 1, chains) + [chains[h].request]
  {
    var h, left := used[hi - 1], Remaining(used, lo, hi - 1, chains);
    assert left == (left - {h})[h := left[h]];
  }

  // One completion: the chain goes away, and those of the callback are new.
  ghost predicate HandledOne(c: map<nat, Chain>, c': map<nat, Chain>, log: seq<nat>, log': seq<nat>, h: nat,
                             request: nat, orders: seq<Submission>)
  {
    h in c && request == c[h].request && Grown(c - {h}, c', log, log', orders)
  }

  // The loop of irq after the completions lo .. hi.
  ghost predicate IrqProgress(used: seq<nat>, lo: nat, hi: nat, chains0: map<nat, Chain>, chains: map<nat, Chain>,
                              log0: seq<nat>, log: seq<nat>, completed: seq<nat>, work: seq<seq<Submission>>)
  {
    && lo <= hi <= |used| && hi == lo + |completed|
    && completed == RequestsOf(used, lo, hi, chains0)
    && Grown(Remaining(used, lo, hi, chains0), chains, log0, log, AcceptedAll(|chains0|, work, |completed|))
    && |Remaining(used, lo, hi, chains0)| == |chains0| - |completed|
    && (forall k :: hi <= k < |used| ==> used[k] in Remaining(used, lo, hi, chains0))
    && (forall j, k :: lo <= j < k < |used| ==> used[j] != used[k])
  }

  lemma IrqStart(used: seq<nat>, lo: nat, chains: map<nat, Chain>, log: seq<nat>, work: seq<seq<Submission>>)
    requires lo <= |used| && (forall k :: lo <= k < |used| ==> used[k] in chains)
    requires forall j, k :: lo <= j < k < |used| ==> used[j] != used[k]
    ensures IrqProgress(used, lo, lo, chains, chains, log, log, [], work)
  {
    HandledNone(used, lo, chains);
    NothingGrown(chains, log);
  }

  lemma IrqStep(used: seq<nat>, lo: nat, hi: nat, chains0: map<nat, Chain>, c: map<nat, Chain>, c': map<nat, Chain>,
                log0: seq<nat>, log: seq<nat>, log': seq<nat>, completed: seq<nat>, request: nat,
                work: seq<seq<Submission>>)
    requires IrqProgress(used, lo, hi, chains0, c, log0, log, completed, work) && hi < |used|
    requires HandledOne(c, c', log, log', used[hi], request, Accepted(|c|, WorkOf(work, |completed|)))
    ensures IrqProgress(used, lo, hi + 1, chains0, c', log0, log', completed + [request], work)
  {
    hide Remaining, RequestsOf, Grown, HandledOne, Accepted, WorkOf;
    var h, left := used[hi], Remaining(used, lo, hi, chains0);
    var orders := AcceptedAll(|chains0|, work, |completed|);
    assert h in left;
    HandledMore(used, lo, hi + 1, chains0);
    GrownCount(left, c, log0, log, orders);
    assert |c| == |chains0| + |orders| - |completed|;
    GrownAfterOne(left, c, c', log0, log, log', orders, h, request, Accepted(|c|, WorkOf(work, |completed|)));
    forall k | hi + 1 <= k < |used| ensures used[k] in left - {h} {
      assert used[k] in left && used[hi] != used[k];
    }
  }

  lemma GrownAfterOne(left: map<nat, Chain>, c: map<nat, Chain>, c': map<nat, Chain>, log0: seq<nat>, log: seq<nat>,
                      log': seq<nat>, orders: seq<Submission>, h: nat, request: nat, more: seq<Submission>)
    requires Grown(left, c, log0, log, orders) && h in left && HandledOne(c, c', log, log', h, request, more)
    ensures Grown(left - {h}, c', log0, log', orders + more) && request == left[h].request
  {
    hide Grown;
    GrownKeeps(left, c, log0, log, orders, h);
    GrownWithout(left, c, log0, log, orders, h);
    GrownTwice(left - {h}, c - {h}, c', log0, log, log', orders, more);
  }

  lemma IrqDone(used: seq<nat>, lo: nat, hi: nat, chains0: map<nat, Chain>, chains: map<nat, Chain>,
                log0: seq<nat>, log: seq<nat>, completed: seq<nat>, work: seq<seq<Submission>>)
    requires IrqProgress(used, lo, hi, chains0, chains, log0, log, completed, work) && hi == |used|
    ensures |completed| == |used| - lo
    ensures completed == RequestsOf(used, lo, |used|, chains0) && log0 <= log
    ensures Grown(Remaining(used, lo, |used|, chains0), chains, log0, log, AcceptedAll(|chains0|, work, |completed|))
  {
  }

  lemma SlotStep(n: nat)
    ensures Wrap(Slot(n, LENGTH) + 1) == Slot(n + 1, LENGTH)
  {
  }

  lemma KeysWithout(chains: map<nat, Chain>, h: nat)
    ensures (chains - {h}).Keys == chains.Keys - {h}
  {
  }

  // Fewer entries are still needed once one has been handled.
  lemma RecordedLater(ring: seq<nat>, log: seq<nat>, lo: nat)
    requires Recorded(ring, log, lo)
    ensures Recorded(ring, log, lo + 1)
  {
  }

  lemma RecordedNext(ring: seq<nat>, log: seq<nat>, lo: nat)
    requires Recorded(ring, log, lo) && lo < |log|
    ensures |ring| == LENGTH && ring[Slot(lo, LENGTH)] == log[lo]
  {
  }

  lemma StageTaken(heads: set<nat>, stage: map<nat, Stage>, submitted: seq<nat>, taken: nat, used: seq<nat>, processed: nat)
    requires Stages(heads, stage, submitted, taken, used, processed) && taken < |submitted|
    ensures var h := submitted[taken];
      h in stage && Stages(heads, stage[h := AtDevice], submitted, taken + 1, used, processed)
  {
    assert stage[submitted[taken]] == Waiting(taken);
  }

  lemma StageDone(heads: set<nat>, stage: map<nat, Stage>, submitted: seq<nat>, taken: nat, used: seq<nat>, processed: nat, h: nat)
    requires Stages(heads, stage, submitted, taken, used, processed) && h in stage && stage[h] == AtDevice
    ensures Stages(heads, stage[h := Done(|used|)], submitted, taken, used + [h], processed)
  {
  }

  lemma StageHandled(heads: set<nat>, stage: map<nat, Stage>, submitted: seq<nat>, taken: nat, used: seq<nat>, processed: nat)
    requires Stages(heads, stage, submitted, taken, used, processed) && processed < |used|
    ensures var h := used[processed];
      h in stage && h in heads && Stages(heads - {h}, stage - {h}, submitted, taken, used, processed + 1)
  {
    assert stage[used[processed]] == Done(processed);
  }

  // The descriptors and the request of a live chain are on no free list.
  lemma ChainOutside(chains: map<nat, Chain>, free: seq<nat>, freeRequests: seq<nat>, h: nat)
    requires ChainsApart(chains, free, freeRequests) && h in chains
    ensures var c := chains[h];
      && (forall x :: x in free ==> x !in Members(h, c))
      && c.request !in freeRequests && c.request < NUM_REQUESTS
  {
  }

  // Freeing one chain leaves the others alone.
  lemma RemovedKept(ds: seq<Descriptor>, ds': seq<Descriptor>, chains: map<nat, Chain>, h: nat, free: seq<nat>, freeRequests: seq<nat>)
    requires ChainsApart(chains, free, freeRequests) && h in chains && |ds'| == |ds|
    requires forall x :: 0 <= x < |ds| && x !in Members(h, chains[h]) ==> ds'[x] == ds[x]
    ensures ChainsKept(ds, ds', chains - {h})
  {
    forall g, x | g in chains - {h} && x in Members(g, chains[g]) && x < |ds| ensures ds'[x] == ds[x] {
      assert Members(g, chains[g]) !! Members(h, chains[h]);
    }
  }
}
