/**
 The IPv4 header checksum and fragmentation (kernel/kernel/src/dev/net.cpp, kernel/kernel/src/dev/net.hpp;
 sections 3.1 and 3.2 of RFC 791 and section 1 of RFC 1071), on a little-endian machine.
 */
module Ipv4 {

  import opened Algorithm

  type Byte = x: nat | x < 256 witness 0
  type Word = x: nat | x < 0x1_0000 witness 0

  const HEADER_SIZE: nat := 20
  const VERSION_AND_HEADER_LENGTH: Byte := 0x45
  const MORE_FRAGMENTS: nat := 1

  // Swapping the bytes of a 16-bit word.
  function Bswap(w: Word): Word {
    w % 256 * 256 + w / 256
  }

  lemma BswapTwice(w: Word)
    ensures Bswap(Bswap(w)) == w
  {
    var high, low := w / 256, w % 256;
    assert w == high * 256 + low;
    assert Bswap(w) == low * 256 + high;
    assert Bswap(w) / 256 == low && Bswap(w) % 256 == high;
  }

  lemma BswapOfEnds(w: Word)
    ensures (Bswap(w) == 0 <==> w == 0) && (Bswap(w) == 0xffff <==> w == 0xffff)
  {
    BswapTwice(w);
    assert Bswap(0) == 0 && Bswap(0xffff) == 0xffff;
  }

  // ~ on 16 bits.
  function Complement(w: Word): Word {
    0xffff - w
  }

  // ----- the checksum -----

  // The sum of the 16-bit words in memory order; a last odd byte counts as it is.
  function Sum(bytes: seq<Byte>): nat {
    if |bytes| == 0 then 0
    else if |bytes| == 1 then bytes[0]
    else bytes[0] + 256 * bytes[1] + Sum(bytes[2..])
  }

  method PartialChecksum(bytes: seq<Byte>) returns (sum: nat)
    ensures sum == Sum(bytes)
  {
    sum := 0;
    var addr: nat, count: nat := 0, |bytes|;
    while count > 1
      invariant addr + count == |bytes|
      invariant sum + Sum(bytes[addr..]) == Sum(bytes)
      decreases count
    {
      assert bytes[addr..][2..] == bytes[addr + 2..];
      var low: nat, high: nat := bytes[addr], bytes[addr + 1];
      sum := sum + (low + 256 * high);
      addr := addr + 2;
      count := count - 2;
    }
    if count > 0 {
      sum := sum + bytes[addr];
    }
  }

  // Folding a sum into 16 bits keeps it modulo 0xffff and does not make a nonzero sum zero.
  method Fold(sum: nat) returns (r: Word)
    ensures r == Folded(sum)
  {
    var s := sum;
    while s / 0x1_0000 != 0
      invariant Folded(s) == Folded(sum)
      decreases s
    {
      FoldStep(s);
      s := s % 0x1_0000 + s / 0x1_0000;
    }
    FoldedSmall(s);
    r := s;
  }

  // The representative of a sum modulo 0xffff; zero only for zero.
  function Folded(sum: nat): Word {
    if sum == 0 then 0 else if sum % 0xffff == 0 then 0xffff else sum % 0xffff
  }

  lemma FoldStep(s: nat)
    requires s >= 0x1_0000
    ensures 0 < s % 0x1_0000 + s / 0x1_0000 < s
    ensures Folded(s % 0x1_0000 + s / 0x1_0000) == Folded(s)
  {
    var q, r := s / 0x1_0000, s % 0x1_0000;
    assert s == q * 0xffff + (q + r);
    AddMultiple(q + r, q);
  }

  lemma {:induction false} AddMultiple(n: nat, q: nat)
    ensures (q * 0xffff + n) % 0xffff == n % 0xffff
    decreases q
  {
    if q > 0 {
      AddMultiple(n, q - 1);
      assert q * 0xffff + n == ((q - 1) * 0xffff + n) + 0xffff;
    }
  }

  lemma FoldedSmall(s: nat)
    requires s < 0x1_0000
    ensures Folded(s) == s
  {
  }

  // compute_header_checksum: the bytes of the result are swapped.
  function Checksum(bytes: seq<Byte>): Word {
    Bswap(Complement(Folded(Sum(bytes))))
  }

  method ComputeHeaderChecksum(header: seq<Byte>) returns (r: Word)
    ensures r == Checksum(header)
  {
    var sum := PartialChecksum(header);
    var folded := Fold(sum);
    r := Bswap(0xffff - folded);
  }

  // ----- the header -----

  datatype Header = Header(length: Word, id: Word, flagsAndOffset: Word, protocol: Byte, checksum: Word,
                           source: seq<Byte>, destination: seq<Byte>)

  // A be16 field is stored with its high byte first.
  function BigEndian(w: Word): seq<Byte> {
    [w / 256, w % 256]
  }

  ghost predicate WellFormed(h: Header) {
    |h.source| == 4 && |h.destination| == 4
  }

  function Serialize(h: Header): seq<Byte> {
    [VERSION_AND_HEADER_LENGTH, 0] + BigEndian(h.length) + BigEndian(h.id) + BigEndian(h.flagsAndOffset)
    + [0xff, h.protocol] + BigEndian(h.checksum) + h.source + h.destination
  }

  lemma {:induction false} SumAppend(a: seq<Byte>, b: seq<Byte>)
    requires |a| % 2 == 0
    ensures Sum(a + b) == Sum(a) + Sum(b)
    decreases a
  {
    if a == [] {
      assert a + b == b;
    } else {
      assert (a + b)[2..] == a[2..] + b;
      SumAppend(a[2..], b);
    }
  }

  // In memory, a be16 field holding w counts as w with its bytes swapped.
  lemma SumOfField(w: Word)
    ensures Sum(BigEndian(w)) == Bswap(w)
  {
    assert BigEndian(w)[2..] == [];
  }

  lemma ChecksumFieldAdds(h: Header)
    requires WellFormed(h)
    ensures Sum(Serialize(h)) == Sum(Serialize(h.(checksum := 0))) + Bswap(h.checksum)
  {
    var front := [VERSION_AND_HEADER_LENGTH, 0] + BigEndian(h.length) + BigEndian(h.id) + BigEndian(h.flagsAndOffset)
    + [0xff, h.protocol];
    var back := h.source + h.destination;
    forall c: Word ensures Sum(Serialize(h.(checksum := c))) == Sum(front) + Bswap(c) + Sum(back) {
      FieldAdds(front, c, back);
      assert Serialize(h.(checksum := c)) == front + BigEndian(c) + back;
    }
    assert h == h.(checksum := h.checksum);
    assert Sum(Serialize(h.(checksum := h.checksum))) == Sum(front) + Bswap(h.checksum) + Sum(back);
  }

  // The header that is sent: the checksum is computed while its field is zero.
  function WithChecksum(h: Header): Header {
    h.(checksum := Checksum(Serialize(h.(checksum := 0))))
  }

  /** The receiver's recomputation over any header sent is zero: the byte swaps cancel. */
  lemma ChecksumAccepted(h: Header)
    requires WellFormed(h)
    ensures Checksum(Serialize(WithChecksum(h))) == 0
  {
    var s := Sum(Serialize(h.(checksum := 0)));
    var sent := WithChecksum(h);
    ChecksumFieldAdds(sent);
    BswapTwice(Complement(Folded(s)));
    assert sent.(checksum := 0) == h.(checksum := 0);
    SumsToFull(s);
  }

  lemma SumsToFull(s: nat)
    ensures Folded(s + Complement(Folded(s))) == 0xffff
  {
    if s > 0 {
      var q, r := s / 0xffff, s % 0xffff;
      assert s == q * 0xffff + r;
      if r == 0 {
        AddMultiple(0, q);
      } else {
        assert s + Complement(Folded(s)) == (q + 1) * 0xffff + 0;
        AddMultiple(0, q + 1);
      }
    }
  }

  /** A header is accepted exactly when its words add up to a positive multiple of 0xffff. */
  lemma AcceptedIff(bytes: seq<Byte>)
    ensures Checksum(bytes) == 0 <==> Sum(bytes) > 0 && Sum(bytes) % 0xffff == 0
  {
    var f := Folded(Sum(bytes));
    assert Bswap(Complement(f)) == 0 <==> f == 0xffff;
  }

  /** Damage to one 16-bit word is noticed, unless it turns all zeros into all ones or the other way round. */
  lemma OneWordDamageNoticed(front: seq<Byte>, w: Word, v: Word, back: seq<Byte>)
    requires |front| % 2 == 0 && w != v && !(w + v == 0xffff && (w == 0 || v == 0))
    requires Checksum(front + BigEndian(w) + back) == 0
    ensures Checksum(front + BigEndian(v) + back) != 0
  {
    hide Bswap, Sum, Checksum, BigEndian;
    var rest := Sum(front) + Sum(back);
    FieldAdds(front, w, back);
    FieldAdds(front, v, back);
    AcceptedIff(front + BigEndian(w) + back);
    AcceptedIff(front + BigEndian(v) + back);
    BswapTwice(w);
    BswapTwice(v);
    BswapOfEnds(w);
    BswapOfEnds(v);
    if (rest + Bswap(v)) % 0xffff == 0 {
      TwoResidues(rest, Bswap(w), Bswap(v));
    }
  }

  lemma FieldAdds(front: seq<Byte>, w: Word, back: seq<Byte>)
    requires |front| % 2 == 0
    ensures Sum(front + BigEndian(w) + back) == Sum(front) + Bswap(w) + Sum(back)
  {
    SumOfField(w);
    SumAppend(front, BigEndian(w));
    SumAppend(front + BigEndian(w), back);
  }

  lemma TwoResidues(rest: nat, a: Word, b: Word)
    requires (rest + a) % 0xffff == 0 && (rest + b) % 0xffff == 0
    ensures a == b || (a == 0 && b == 0xffff) || (a == 0xffff && b == 0)
  {
  }

  // ----- flags and fragment offset -----

  // (flags << 13) | (frag_offset >> 3), in 16 bits; the offset has already been cut to 16 bits.
  function Pack(flags: nat, offset: Word): Word
    requires flags < 8
  {
    flags * 0x2000 + offset / 8
  }

  function GetFlags(w: Word): nat {
    w / 0x2000 % 8
  }

  function GetFragOffset(w: Word): nat {
    w % 0x2000 * 8
  }

  lemma PackRoundTrip(flags: nat, offset: Word)
    requires flags < 8
    ensures GetFlags(Pack(flags, offset)) == flags
    ensures GetFragOffset(Pack(flags, offset)) == offset / 8 * 8
  {
  }

  // ----- fragmentation -----

  // What all fragments of a packet have in common.
  datatype Flow = Flow(id: nat, source: seq<Byte>, target: seq<Byte>, protocol: Byte)

  datatype Fragment = Fragment(header: Header, payload: seq<Byte>)

  // The longest payload of a fragment that is not the last: a multiple of 8 that fits the interface.
  function MaxFragmentLength(mtu: nat): nat
    requires mtu >= HEADER_SIZE
  {
    AlignDown(mtu - HEADER_SIZE, 8)
  }

  lemma MaxFragmentFits(mtu: nat)
    requires mtu >= HEADER_SIZE + 8
    ensures var max := MaxFragmentLength(mtu); max % 8 == 0 && 8 <= max <= mtu - HEADER_SIZE
  {
    AlignmentBounds(mtu - HEADER_SIZE, 8, 1);
  }

  // ipv4_send_fragment: the length, the offset and the packet id are cut to 16 bits.
  function MakeFragment(payload: seq<Byte>, offset: nat, isLast: bool, flow: Flow): Fragment {
    var flagsAndOffset := Pack(if isLast then 0 else MORE_FRAGMENTS, offset % 0x1_0000);
    Fragment(WithChecksum(Header((|payload| + HEADER_SIZE) % 0x1_0000, flow.id % 0x1_0000, flagsAndOffset,
                                 flow.protocol, 0, flow.source, flow.target)),
             payload)
  }

  // How many fragments are full before the last one, and where a fragment begins.
  function Full(length: nat, max: nat): nat
    requires 0 < max
  {
    length / max
  }

  function Start(i: nat, max: nat): nat {
    i * max
  }

  lemma StartFacts(length: nat, max: nat, i: nat)
    requires 0 < max && i <= Full(length, max)
    ensures Start(i, max) <= length && Start(0, max) == 0 && Start(i + 1, max) == Start(i, max) + max
    ensures i < Full(length, max) ==> Start(i, max) + max <= length
    ensures i == Full(length, max) ==> length - Start(i, max) < max
  {
    AlignmentBounds(length, max, i);
    assert (i + 1) * max == i * max + max;
    Multiples(i, length / max, max);
    Multiples(i + 1, length / max, max);
    assert length == length / max * max + length % max;
  }

  // Fragment i of a payload.
  function FragmentAt(data: seq<Byte>, max: nat, i: nat, flow: Flow): Fragment
    requires 0 < max && i <= Full(|data|, max)
  {
    StartFacts(|data|, max, i);
    var start := Start(i, max);
    MakeFragment(data[start..start + Min(max, |data| - start)], start, i == Full(|data|, max), flow)
  }

  function Fragments(data: seq<Byte>, max: nat, n: nat, flow: Flow): (f: seq<Fragment>)
    requires 0 < max && n <= Full(|data|, max) + 1
    ensures |f| == n
  {
    if n == 0 then [] else Fragments(data, max, n - 1, flow) + [FragmentAt(data, max, n - 1, flow)]
  }

  function AllFragments(data: seq<Byte>, max: nat, flow: Flow): seq<Fragment>
    requires 0 < max
  {
    Fragments(data, max, Full(|data|, max) + 1, flow)
  }

  /** The loop of ipv4_send; packets are collected in the order in which they are sent. */
  method Send(data: seq<Byte>, mtu: nat, flow: Flow) returns (sent: seq<Fragment>)
    requires mtu >= HEADER_SIZE + 8
    ensures MaxFragmentLength(mtu) > 0 && sent == AllFragments(data, MaxFragmentLength(mtu), flow)
  {
    hide Start, Full, MaxFragmentLength, MakeFragment;
    MaxFragmentFits(mtu);
    var max := MaxFragmentLength(mtu);
    var numFragments := Full(|data|, max) + 1;
    sent := [];
    var offset, i := 0, 0;
    StartFacts(|data|, max, 0);
    while i < numFragments
      invariant i <= numFragments && offset == Start(i, max)
      invariant sent == Fragments(data, max, i, flow)
    {
      StartFacts(|data|, max, i);
      var isLast := i == numFragments - 1;
      var length := Min(max, |data| - offset);
      sent := sent + [MakeFragment(data[offset..offset + length], offset, isLast, flow)];
      offset := offset + max;
      i := i + 1;
    }
  }

  // ----- the receiving side of RFC 791 -----

  datatype Reassembly = Lost | Partial(bytes: seq<Byte>) | Complete(bytes: seq<Byte>)

  // Fragments in order: each must begin where the ones before it end, and the last one has no more-fragments flag.
  function Add(r: Reassembly, f: Fragment): Reassembly {
    if !r.Partial? || GetFragOffset(f.header.flagsAndOffset) != |r.bytes| then Lost
    else if GetFlags(f.header.flagsAndOffset) % 2 == MORE_FRAGMENTS then Partial(r.bytes + f.payload)
    else Complete(r.bytes + f.payload)
  }

  function Reassemble(fragments: seq<Fragment>): Reassembly {
    if fragments == [] then Partial([])
    else Add(Reassemble(fragments[..|fragments| - 1]), fragments[|fragments| - 1])
  }

  // What the receiver reads is the offset exactly when it fits into 16 bits.
  lemma OffsetSurvivesIff(i: nat, max: nat, flags: nat)
    requires max % 8 == 0 && flags < 8
    ensures GetFlags(Pack(flags, Start(i, max) % 0x1_0000)) == flags
    ensures GetFragOffset(Pack(flags, Start(i, max) % 0x1_0000)) == Start(i, max) <==> Start(i, max) < 0x1_0000
  {
    assert Start(i, max) == i * (max / 8) * 8;
    PackRoundTrip(flags, Start(i, max) % 0x1_0000);
  }

  // What a fragment carries, and what the receiver reads from it.
  lemma FragmentFacts(data: seq<Byte>, max: nat, i: nat, flow: Flow)
    requires 0 < max && max % 8 == 0 && i <= Full(|data|, max)
    ensures Start(i, max) <= |data| && (i < Full(|data|, max) ==> Start(i, max) + max <= |data|)
    ensures var f, start := FragmentAt(data, max, i, flow), Start(i, max);
      && f.payload == (if i < Full(|data|, max) then data[start..start + max] else data[start..])
      && GetFlags(f.header.flagsAndOffset) == (if i < Full(|data|, max) then MORE_FRAGMENTS else 0)
      && (GetFragOffset(f.header.flagsAndOffset) == start <==> start < 0x1_0000)
  {
    hide Pack, GetFlags, GetFragOffset, Serialize, Start, Full;
    StartFacts(|data|, max, i);
    OffsetSurvivesIff(i, max, MORE_FRAGMENTS);
    OffsetSurvivesIff(i, max, 0);
  }

  // One more full fragment.
  lemma AddFull(data: seq<Byte>, max: nat, i: nat, flow: Flow)
    requires 0 < max && max % 8 == 0 && i < Full(|data|, max)
    ensures Start(i, max) <= Start(i + 1, max) <= |data|
    ensures var f := FragmentAt(data, max, i, flow);
      && Add(Partial(data[..Start(i, max)]), f)
           == (if Start(i, max) < 0x1_0000 then Partial(data[..Start(i + 1, max)]) else Lost)
      && Add(Lost, f) == Lost
  {
    hide FragmentAt, GetFlags, GetFragOffset, Start, Full;
    FragmentFacts(data, max, i, flow);
    StartFacts(|data|, max, i);
    var start := Start(i, max);
    assert data[..start] + data[start..start + max] == data[..start + max];
  }

  lemma FragmentsStep(data: seq<Byte>, max: nat, n: nat, flow: Flow)
    requires 0 < max && n <= Full(|data|, max)
    ensures Reassemble(Fragments(data, max, n + 1, flow))
      == Add(Reassemble(Fragments(data, max, n, flow)), FragmentAt(data, max, n, flow))
  {
    hide FragmentAt, Full;
    var before, f := Fragments(data, max, n, flow), FragmentAt(data, max, n, flow);
    assert (before + [f])[..n] == before;
  }

  // The fragments before the last one put their part of the data together as long as offsets fit into 16 bits.
  lemma {:induction false} ReassembledSoFar(data: seq<Byte>, max: nat, n: nat, flow: Flow)
    requires 0 < max && max % 8 == 0 && n <= Full(|data|, max)
    ensures Start(n, max) <= |data|
    ensures Reassemble(Fragments(data, max, n, flow))
      == if n == 0 || Start(n - 1, max) < 0x1_0000 then Partial(data[..Start(n, max)]) else Lost
    decreases n
  {
    hide FragmentAt, GetFlags, GetFragOffset, Start, Full, Add, Reassemble, Fragments;
    StartFacts(|data|, max, n);
    if n > 0 {
      FragmentsStep(data, max, n - 1, flow);
      AddFull(data, max, n - 1, flow);
      ReassembledSoFar(data, max, n - 1, flow);
      if n > 1 {
        StartFacts(|data|, max, n - 2);
      }
    } else {
      NothingYet(data, max, flow);
    }
  }

  lemma NothingYet(data: seq<Byte>, max: nat, flow: Flow)
    requires 0 < max
    ensures Start(0, max) == 0 && Reassemble(Fragments(data, max, 0, flow)) == Partial(data[..0])
  {
    assert data[..0] == [];
  }

  /**
   The receiver puts the payload together again exactly if the offset of the last fragment fits into 16 bits;
   larger ones wrap around.
   */
  lemma ReassemblesIff(data: seq<Byte>, mtu: nat, flow: Flow)
    requires mtu >= HEADER_SIZE + 8
    ensures var max := MaxFragmentLength(mtu);
      max > 0 && (Reassemble(AllFragments(data, max, flow)) == Complete(data) <==> Start(Full(|data|, max), max) < 0x1_0000)
  {
    hide FragmentAt, GetFlags, GetFragOffset, MaxFragmentLength, Start, Full;
    MaxFragmentFits(mtu);
    var max := MaxFragmentLength(mtu);
    var n := Full(|data|, max);
    FragmentFacts(data, max, n, flow);
    ReassembledSoFar(data, max, n, flow);
    if n > 0 {
      StartFacts(|data|, max, n - 1);
    }
    FragmentsStep(data, max, n, flow);
    assert data[..Start(n, max)] + data[Start(n, max)..] == data;
  }

  /** 66600 bytes over an interface for packets of 1500 bytes end in a fragment at offset 66600, which is sent as
      1064: the receiver cannot put them together. */
  lemma LongPayloadIsLost(data: seq<Byte>, flow: Flow)
    requires |data| == 66600
    ensures MaxFragmentLength(1500) == 1480
    ensures Reassemble(AllFragments(data, 1480, flow)) != Complete(data)
  {
    hide AllFragments, Reassemble;
    ReassemblesIff(data, 1500, flow);
    assert Start(Full(66600, 1480), 1480) == 66600;
  }

  /** Every fragment fits the interface and passes the receiver's check; all but the last are full. */
  lemma FragmentsAreGood(data: seq<Byte>, mtu: nat, i: nat, flow: Flow)
    requires mtu >= HEADER_SIZE + 8 && |flow.source| == 4 && |flow.target| == 4
    requires MaxFragmentLength(mtu) > 0 && i <= Full(|data|, MaxFragmentLength(mtu))
    ensures var max := MaxFragmentLength(mtu);
      var f := FragmentAt(data, max, i, flow);
      && |f.payload| + HEADER_SIZE <= mtu && (mtu < 0x1_0000 ==> f.header.length == |f.payload| + HEADER_SIZE)
      && (if i < Full(|data|, max) then |f.payload| == max else |f.payload| < max)
      && Checksum(Serialize(f.header)) == 0 && f.header.destination == flow.target
  {
    hide MaxFragmentLength, Serialize, Checksum, Pack, Start, Full;
    MaxFragmentFits(mtu);
    var max := MaxFragmentLength(mtu);
    StartFacts(|data|, max, i);
    var f := FragmentAt(data, max, i, flow);
    SentAccepted(f.payload, Start(i, max), i == Full(|data|, max), flow);
  }

  lemma SentAccepted(payload: seq<Byte>, offset: nat, isLast: bool, flow: Flow)
    requires |flow.source| == 4 && |flow.target| == 4
    ensures Checksum(Serialize(MakeFragment(payload, offset, isLast, flow).header)) == 0
    ensures MakeFragment(payload, offset, isLast, flow).header.destination == flow.target
  {
    hide Serialize, Checksum, Pack;
    ChecksumAccepted(MakeFragment(payload, offset, isLast, flow).header.(checksum := 0));
  }
}
