/** LpFragmenter: slicing a network packet so that every fragment fits an MTU. */
module Fragmenter {
  import opened Packets
  import opened Arithmetic

  /** Most octets that Sequence and the framing add to a packet that is not fragmented. */
  const MAX_SINGLE_FRAG_OVERHEAD: nat := 1 + 9 + 1 + 1 + 8 + 1 + 9

  /** Most octets that fragmentation adds to a payload. */
  const MAX_FRAG_OVERHEAD: nat := 1 + 9 + 1 + 1 + 8 + 1 + 1 + 8 + 1 + 1 + 8 + 1 + 9

  // ---------------------------------------------------------------- slicing

  /** Payload cut into slices of `size` octets; the last one may be shorter. */
  function Slices(payload: seq<Byte>, size: nat): seq<seq<Byte>>
    requires size > 0
  {
    if payload == [] then []
    else if |payload| <= size then [payload]
    else [payload[..size]] + Slices(payload[size..], size)
  }

  /** The slices of a packet: one of at most `first` octets, then slices of `size` octets. */
  function Cut(payload: seq<Byte>, first: nat, size: nat): seq<seq<Byte>>
    requires size > 0 && first <= |payload|
  {
    [payload[..first]] + Slices(payload[first..], size)
  }

  /** FragCount as the program computes it. */
  function FragCount(netPktSize: nat, first: nat, size: nat): nat
    requires size > 0 && first <= netPktSize
  {
    1 + (netPktSize - first) / size + if (netPktSize - first) % size != 0 then 1 else 0
  }

  lemma DivStep(n: nat, size: nat)
    requires 0 < size <= n
    ensures n / size == (n - size) / size + 1 && n % size == (n - size) % size
  {
    var q, r := (n - size) / size, (n - size) % size;
    assert (q + 1) * size == q * size + size;
    DivUnique(n, size, q + 1, r);
  }

  /** The number of slices is the quotient rounded up. */
  lemma {:induction false} SlicesCount(payload: seq<Byte>, size: nat)
    requires size > 0
    ensures |Slices(payload, size)| == |payload| / size + if |payload| % size != 0 then 1 else 0
    decreases |payload|
  {
    if |payload| > size {
      SlicesCount(payload[size..], size);
      DivStep(|payload|, size);
    } else if |payload| == size {
      DivStep(size, size);
    }
  }

  /** Every slice has between 1 and `size` octets. */
  lemma {:induction false} SlicesFit(payload: seq<Byte>, size: nat, i: nat)
    requires size > 0 && i < |Slices(payload, size)|
    ensures 0 < |Slices(payload, size)[i]| <= size
    decreases |payload|
  {
    if |payload| > size && i > 0 {
      SlicesFit(payload[size..], size, i - 1);
    }
  }

  lemma {:induction false} SlicesJoin(payload: seq<Byte>, size: nat)
    requires size > 0
    ensures Join(Slices(payload, size)) == payload
    decreases |payload|
  {
    if |payload| > size {
      SlicesJoin(payload[size..], size);
      assert Slices(payload, size)[1..] == Slices(payload[size..], size);
      assert payload[..size] + payload[size..] == payload;
    } else if payload != [] {
      assert Join([payload]) == payload + Join([]);
    }
  }

  lemma CutJoin(payload: seq<Byte>, first: nat, size: nat)
    requires size > 0 && first <= |payload|
    ensures Join(Cut(payload, first, size)) == payload
    ensures |Cut(payload, first, size)| == FragCount(|payload|, first, size)
  {
    SlicesJoin(payload[first..], size);
    SlicesCount(payload[first..], size);
    assert Cut(payload, first, size)[1..] == Slices(payload[first..], size);
    assert payload[..first] + payload[first..] == payload;
  }

  // ---------------------------------------------------------------- fragments

  /** The packet that fragment `i` is made from: the first one keeps the other NDNLPv2 fields. */
  function Base(p: Packet, i: nat): Packet
  {
    if i == 0 then p else EMPTY_PACKET
  }

  /** Fragment `i` of `count` with the given slice. */
  function Fragment(p: Packet, i: nat, count: nat, slice: seq<Byte>): Packet
  {
    Base(p, i).(fragIndex := Some(i), fragCount := Some(count), fragment := Some(slice))
  }

  function Fragments(p: Packet, slices: seq<seq<Byte>>): (r: seq<Packet>)
    ensures |r| == |slices|
  {
    seq(|slices|, i requires 0 <= i < |slices| => Fragment(p, i, |slices|, slices[i]))
  }

  predicate Unfragmented(p: Packet)
  {
    p.fragment.Some? && p.fragIndex.None? && p.fragCount.None?
  }

  predicate FastPath(p: Packet, mtu: nat)
  {
    MAX_SINGLE_FRAG_OVERHEAD + WireSize(p) <= mtu
  }

  predicate TooSmall(p: Packet, mtu: nat)
  {
    MAX_FRAG_OVERHEAD + HeaderSize(p) + 1 > mtu
  }

  function FirstPayloadSize(p: Packet, mtu: nat): (n: nat)
    requires p.fragment.Some? && !TooSmall(p, mtu)
    ensures n <= |p.fragment.value|
  {
    Min(|p.fragment.value|, mtu - HeaderSize(p) - MAX_FRAG_OVERHEAD)
  }

  function CutFor(p: Packet, mtu: nat): seq<seq<Byte>>
    requires p.fragment.Some? && !TooSmall(p, mtu)
  {
    Cut(p.fragment.value, FirstPayloadSize(p, mtu), mtu - MAX_FRAG_OVERHEAD)
  }

  /** fragmentPacket(): None when the packet cannot be fragmented. */
  function FragmentPacket(p: Packet, mtu: nat, nMaxFragments: nat): Option<seq<Packet>>
    requires Unfragmented(p)
  {
    if FastPath(p, mtu) then Some([p])
    else if TooSmall(p, mtu) || |CutFor(p, mtu)| > nMaxFragments then None
    else Some(Fragments(p, CutFor(p, mtu)))
  }

  /** A packet that does not take the fast path is cut into at least two fragments. */
  lemma SlowPathSplits(p: Packet, mtu: nat)
    requires Unfragmented(p) && !FastPath(p, mtu) && !TooSmall(p, mtu)
    ensures FirstPayloadSize(p, mtu) < |p.fragment.value| && |CutFor(p, mtu)| >= 2
  {
    CutJoin(p.fragment.value, FirstPayloadSize(p, mtu), mtu - MAX_FRAG_OVERHEAD);
    SlicesCount(p.fragment.value[FirstPayloadSize(p, mtu)..], mtu - MAX_FRAG_OVERHEAD);
  }

  lemma CutNonEmpty(p: Packet, mtu: nat, i: nat)
    requires Unfragmented(p) && !FastPath(p, mtu) && !TooSmall(p, mtu) && i < |CutFor(p, mtu)|
    ensures |CutFor(p, mtu)[i]| > 0
  {
    SlowPathSplits(p, mtu);
    if i > 0 { SlicesFit(p.fragment.value[FirstPayloadSize(p, mtu)..], mtu - MAX_FRAG_OVERHEAD, i - 1); }
  }

  function Payloads(frags: seq<Packet>): seq<seq<Byte>>
    requires forall i :: 0 <= i < |frags| ==> frags[i].fragment.Some?
  {
    seq(|frags|, i requires 0 <= i < |frags| => frags[i].fragment.value)
  }

  lemma PayloadsOfFragments(p: Packet, slices: seq<seq<Byte>>)
    ensures forall i :: 0 <= i < |slices| ==> Fragments(p, slices)[i] == Fragment(p, i, |slices|, slices[i])
    ensures Payloads(Fragments(p, slices)) == slices
  {
  }

  /** The payloads of the fragments, joined, are the payload of the packet; the first fragment is the
      packet itself but for the three fields that fragmentation sets. */
  lemma FragmentsJoin(p: Packet, mtu: nat, nMaxFragments: nat)
    requires Unfragmented(p) && FragmentPacket(p, mtu, nMaxFragments).Some? && !FastPath(p, mtu)
    ensures var frags := FragmentPacket(p, mtu, nMaxFragments).value;
            && 2 <= |frags| <= nMaxFragments
            && (forall i :: 0 <= i < |frags| ==>
                  && frags[i].fragment.Some? && frags[i].fragIndex == Some(i) && frags[i].fragCount == Some(|frags|)
                  && |frags[i].fragment.value| > 0)
            && Join(Payloads(frags)) == p.fragment.value
            && frags[0] == p.(fragIndex := Some(0), fragCount := Some(|frags|), fragment := frags[0].fragment)
  {
    var cut := CutFor(p, mtu);
    SlowPathSplits(p, mtu);
    CutJoin(p.fragment.value, FirstPayloadSize(p, mtu), mtu - MAX_FRAG_OVERHEAD);
    PayloadsOfFragments(p, cut);
    forall i | 0 <= i < |cut| ensures |cut[i]| > 0 { CutNonEmpty(p, mtu, i); }
  }

  // ---------------------------------------------------------------- the MTU budget

  /** A fragment as sendLpPacket() gets it before any Ack is attached: Sequence and TxSequence may have
      been set, and the congestion mark set to 1. */
  predicate Dressed(f: Packet, g: Packet)
  {
    && g == f.(sequence := g.sequence, txSequence := g.txSequence, congestionMark := g.congestionMark)
    && (g.sequence == f.sequence || g.sequence.Some?)
    && (g.txSequence == f.txSequence || g.txSequence.Some?)
    && (g.congestionMark == f.congestionMark || g.congestionMark == Some(1))
  }

  /** Octets that sendNetPacket() takes off the effective MTU. */
  const TX_SEQUENCE_RESERVE: nat := TX_SEQUENCE_SIZE   // LpReliability::RESERVED_HEADER_SPACE
  const CONGESTION_MARK_RESERVE: nat := 3 + 1 + 8      // CONGESTION_MARK_SIZE

  function Reserve(reliability: bool, marking: bool): nat
  {
    (if reliability then TX_SEQUENCE_RESERVE else 0) + (if marking then CONGESTION_MARK_RESERVE else 0)
  }

  predicate DressedFor(f: Packet, g: Packet, reliability: bool, marking: bool)
  {
    && Dressed(f, g)
    && (!reliability ==> g.txSequence == f.txSequence)
    && (!marking ==> g.congestionMark == f.congestionMark)
  }

  /** Header fields grow by at most the Sequence and the reserved space. */
  lemma DressedHeader(f: Packet, g: Packet, reliability: bool, marking: bool)
    requires DressedFor(f, g, reliability, marking)
    ensures HeaderSize(g) <= HeaderSize(f) + SEQUENCE_SIZE + Reserve(reliability, marking)
  {
  }

  /** A packet is at most its header, its payload and the framing of both. */
  lemma WireBound(p: Packet)
    requires p.fragment.Some?
    ensures WireSize(p) <= HeaderSize(p) + |p.fragment.value| + 20
  {
  }

  lemma SlowFits(p: Packet, mtu: nat, i: nat, g: Packet, reliability: bool, marking: bool)
    requires Unfragmented(p) && !TooSmall(p, mtu) && i < |CutFor(p, mtu)|
    requires DressedFor(Fragments(p, CutFor(p, mtu))[i], g, reliability, marking)
    ensures WireSize(g) <= mtu + Reserve(reliability, marking)
  {
    var cut := CutFor(p, mtu);
    var f := Fragments(p, cut)[i];
    DressedHeader(f, g, reliability, marking);
    WireBound(g);
    assert HeaderSize(f) <= HeaderSize(Base(p, i)) + 20;
    if i > 0 {
      SlicesFit(p.fragment.value[FirstPayloadSize(p, mtu)..], mtu - MAX_FRAG_OVERHEAD, i - 1);
    }
  }

  lemma FastFits(p: Packet, mtu: nat, g: Packet, reliability: bool, marking: bool)
    requires p.fragment.Some? && FastPath(p, mtu) && DressedFor(p, g, reliability, marking)
    ensures WireSize(g) <= mtu + Reserve(reliability, marking)
  {
    DressedHeader(p, g, reliability, marking);
    WireBound(g);
  }

  /** Whatever of Sequence, TxSequence and CongestionMark is added after fragmentation, every fragment
      still fits the effective MTU from which sendNetPacket() took the reserve. */
  lemma MtuBudget(p: Packet, effectiveMtu: nat, nMaxFragments: nat, i: nat, g: Packet, reliability: bool, marking: bool)
    requires Unfragmented(p) && effectiveMtu >= 64
    requires var frags := FragmentPacket(p, effectiveMtu - Reserve(reliability, marking), nMaxFragments);
             frags.Some? && i < |frags.value| && DressedFor(frags.value[i], g, reliability, marking)
    ensures WireSize(g) <= effectiveMtu
  {
    var mtu := effectiveMtu - Reserve(reliability, marking);
    if FastPath(p, mtu) {
      FastFits(p, mtu, g, reliability, marking);
    } else {
      SlowFits(p, mtu, i, g, reliability, marking);
    }
  }

  // ---------------------------------------------------------------- the slicing loop

  lemma {:induction false} SlicesNext(payload: seq<Byte>, begin: nat, size: nat, end: nat)
    requires size > 0 && begin < |payload| && end == Min(|payload|, begin + size)
    ensures Slices(payload[begin..], size) == [payload[begin..end]] + Slices(payload[end..], size)
  {
    if |payload| - begin <= size {
      assert payload[begin..end] == payload[begin..];
    } else {
      assert payload[begin..][..size] == payload[begin..end] && payload[begin..][size..] == payload[end..];
    }
  }

  /** The slices before `end` are done; cutting goes on from `begin`. */
  ghost predicate CutUpTo(cut: seq<seq<Byte>>, fragIndex: nat, payload: seq<Byte>, begin: nat, end: nat, size: nat)
    requires size > 0
  {
    && begin <= end <= |payload| && fragIndex <= |cut|
    && cut[fragIndex..] == (if begin == |payload| then [] else [payload[begin..end]] + Slices(payload[end..], size))
    && (begin < |payload| ==> begin < end)
  }

  lemma CutNext(cut: seq<seq<Byte>>, fragIndex: nat, payload: seq<Byte>, begin: nat, end: nat, size: nat)
    requires size > 0 && begin < |payload| && CutUpTo(cut, fragIndex, payload, begin, end, size)
    ensures fragIndex < |cut| && cut[fragIndex] == payload[begin..end]
    ensures CutUpTo(cut, fragIndex + 1, payload, end, Min(|payload|, end + size), size)
  {
    assert cut[fragIndex] == cut[fragIndex..][0] && cut[fragIndex + 1..] == cut[fragIndex..][1..];
    if end < |payload| {
      SlicesNext(payload, end, size, Min(|payload|, end + size));
    } else {
      assert payload[end..] == [];
    }
  }

  /** The first `n` fragments have been populated. */
  ghost predicate Populated(frags: seq<Packet>, p: Packet, cut: seq<seq<Byte>>, n: nat)
  {
    && |frags| == |cut| && n <= |cut|
    && (forall i :: 0 <= i < n ==> frags[i] == Fragment(p, i, |cut|, cut[i]))
    && (forall i :: n <= i < |cut| ==> frags[i] == Base(p, i))
  }

  lemma PopulateNext(frags: seq<Packet>, p: Packet, cut: seq<seq<Byte>>, n: nat)
    requires Populated(frags, p, cut, n) && n < |cut|
    ensures Populated(frags[n := frags[n].(fragIndex := Some(n), fragCount := Some(|cut|),
                fragment := Some(cut[n]))], p, cut, n + 1)
  {
  }

  /** The loop that populates the fragments. */
  method PopulateFragments(p: Packet, firstPayloadSize: nat, payloadSize: nat, fragCount: nat)
    returns (frags: seq<Packet>)
    requires p.fragment.Some? && 0 < payloadSize && 0 < firstPayloadSize <= |p.fragment.value|
    requires fragCount == FragCount(|p.fragment.value|, firstPayloadSize, payloadSize)
    ensures frags == Fragments(p, Cut(p.fragment.value, firstPayloadSize, payloadSize))
  {
    var netPkt := p.fragment.value;
    ghost var cut := Cut(netPkt, firstPayloadSize, payloadSize);
    CutJoin(netPkt, firstPayloadSize, payloadSize);
    frags := seq(fragCount, i => EMPTY_PACKET);
    frags := frags[0 := p]; // the other NDNLPv2 fields stay on the first fragment
    var fragIndex: nat, fragBegin: nat, fragEnd: nat := 0, 0, firstPayloadSize;
    assert cut[0..] == cut;
    while fragBegin < |netPkt|
      invariant CutUpTo(cut, fragIndex, netPkt, fragBegin, fragEnd, payloadSize)
      invariant Populated(frags, p, cut, fragIndex) && |cut| == fragCount
      decreases |netPkt| - fragBegin
    {
      CutNext(cut, fragIndex, netPkt, fragBegin, fragEnd, payloadSize);
      PopulateNext(frags, p, cut, fragIndex);
      var frag := frags[fragIndex];
      frags := frags[fragIndex := frag.(fragIndex := Some(fragIndex), fragCount := Some(fragCount),
                                        fragment := Some(netPkt[fragBegin..fragEnd]))];
      fragIndex := fragIndex + 1;
      fragBegin := fragEnd;
      fragEnd := Min(|netPkt|, fragBegin + payloadSize);
    }
    assert fragIndex == fragCount;
  }

  /** LpFragmenter::fragmentPacket() */
  method Run(p: Packet, mtu: nat, nMaxFragments: nat) returns (frags: Option<seq<Packet>>)
    requires Unfragmented(p)
    ensures frags == FragmentPacket(p, mtu, nMaxFragments)
  {
    if MAX_SINGLE_FRAG_OVERHEAD + WireSize(p) <= mtu {
      return Some([p]);
    }
    var netPktSize := |p.fragment.value|;
    var firstHeaderSize := HeaderSize(p);
    if MAX_FRAG_OVERHEAD + firstHeaderSize + 1 > mtu {
      return None;
    }
    var firstPayloadSize := Min(netPktSize, mtu - firstHeaderSize - MAX_FRAG_OVERHEAD);
    var payloadSize := mtu - MAX_FRAG_OVERHEAD;
    var fragCount := 1 + (netPktSize - firstPayloadSize) / payloadSize
                     + if (netPktSize - firstPayloadSize) % payloadSize != 0 then 1 else 0;
    CutJoin(p.fragment.value, firstPayloadSize, payloadSize);
    SlowPathSplits(p, mtu);
    if fragCount > nMaxFragments {
      return None;
    }
    var r := PopulateFragments(p, firstPayloadSize, payloadSize, fragCount);
    return Some(r);
  }
}
