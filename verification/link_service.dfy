/** The send path of GenericLinkService around LpReliability: MTU, fragmentation, Sequences, congestion
    marking, and the check before a packet goes to the transport. */
module LinkService {
  import opened Packets
  import opened Arithmetic
  import AckQueue
  import Fragmenter
  import RoundTrip
  import Congestion

  /** `modulus` is 2^64 in the program. */
  datatype Options = Options(
    modulus: nat, overrideMtu: int, isReliable: bool, allowFragmentation: bool, nMaxFragments: nat,
    allowCongestionMarking: bool, congestion: Congestion.Config)

  /** The MTU that sendNetPacket() cuts packets to: space for the feature fields comes off a limited one.
      The result of a subtraction can be MTU_UNLIMITED by accident. */
  function FragmentMtu(o: Options, transportMtu: int): int
  {
    var mtu := Min(o.overrideMtu, transportMtu);
    var mtu' := if o.isReliable && mtu != MTU_UNLIMITED then mtu - Fragmenter.TX_SEQUENCE_RESERVE else mtu;
    if o.allowCongestionMarking && mtu' != MTU_UNLIMITED then mtu' - Fragmenter.CONGESTION_MARK_RESERVE else mtu'
  }

  /** Options and transport MTU as the program accepts them. */
  predicate Usable(o: Options, transportMtu: int)
  {
    o.modulus > 1 && (FragmentMtu(o, transportMtu) == MTU_UNLIMITED || FragmentMtu(o, transportMtu) >= 0)
  }

  /** Whether packets are cut to an MTU at all. */
  predicate Cuts(o: Options, transportMtu: int)
  {
    o.allowFragmentation && FragmentMtu(o, transportMtu) != MTU_UNLIMITED
  }

  /** The fragments of a packet before Sequences are assigned; None when it cannot be fragmented. */
  function Fragmented(o: Options, transportMtu: int, p: Packet): Option<seq<Packet>>
    requires Usable(o, transportMtu) && Fragmenter.Unfragmented(p)
  {
    if Cuts(o, transportMtu) then Fragmenter.FragmentPacket(p, FragmentMtu(o, transportMtu), o.nMaxFragments)
    else Some([p])
  }

  /** A reserve is one octet larger than what is left of the MTU. */
  predicate ReserveLiftsLimit(o: Options, mtu: nat)
  {
    || (mtu == 11 && (o.isReliable || o.allowCongestionMarking))
    || (mtu == 23 && o.isReliable && o.allowCongestionMarking)
  }

  /** These are exactly the limited MTUs that turn into MTU_UNLIMITED. */
  lemma WhenReserveLiftsLimit(o: Options, transportMtu: int)
    requires Min(o.overrideMtu, transportMtu) >= 0
    ensures FragmentMtu(o, transportMtu) == MTU_UNLIMITED <==> ReserveLiftsLimit(o, Min(o.overrideMtu, transportMtu))
  {
    assert Fragmenter.TX_SEQUENCE_RESERVE == 12 && Fragmenter.CONGESTION_MARK_RESERVE == 12;
  }

  /** What follows for a packet on an MTU too small to fragment to: on those MTUs it is passed on uncut, on all
      others it is dropped unless it takes the fast path. */
  lemma SmallMtuOutcome(o: Options, transportMtu: int, p: Packet)
    requires Usable(o, transportMtu) && Fragmenter.Unfragmented(p) && o.allowFragmentation
    requires 0 <= Min(o.overrideMtu, transportMtu) <= Fragmenter.MAX_FRAG_OVERHEAD
    ensures if ReserveLiftsLimit(o, Min(o.overrideMtu, transportMtu)) then
              !Cuts(o, transportMtu) && Fragmented(o, transportMtu, p) == Some([p])
            else
              && Cuts(o, transportMtu)
              && (Fragmented(o, transportMtu, p).Some? <==> Fragmenter.FastPath(p, FragmentMtu(o, transportMtu)))
  {
    WhenReserveLiftsLimit(o, transportMtu);
    assert Fragmenter.MAX_FRAG_OVERHEAD == 50;
  }

  /** The packet let through uncut then fails the check of sendLpPacket() if it was numbered for reliability,
      whatever it carries. */
  lemma LiftedLimitStillDrops(o: Options, transportMtu: int, numbered: Packet)
    requires Min(o.overrideMtu, transportMtu) >= 0 && FragmentMtu(o, transportMtu) == MTU_UNLIMITED
    requires numbered.sequence.Some? && numbered.txSequence.Some?
    ensures WireSize(numbered) > Min(o.overrideMtu, transportMtu)
  {
    WhenReserveLiftsLimit(o, transportMtu);
    assert HeaderSize(numbered) >= SEQUENCE_SIZE + TX_SEQUENCE_SIZE;
  }

  /** The smallest case: an MTU of 11 octets, with marking alone and with reliability alone, and one of 23
      with both. None of them is unlimited. */
  lemma ReserveCanLiftLimit(o: Options)
    requires o.overrideMtu > 23
    ensures FragmentMtu(o.(isReliable := false, allowCongestionMarking := true), 11) == MTU_UNLIMITED
    ensures FragmentMtu(o.(isReliable := true, allowCongestionMarking := false), 11) == MTU_UNLIMITED
    ensures FragmentMtu(o.(isReliable := true, allowCongestionMarking := true), 23) == MTU_UNLIMITED
  {
    WhenReserveLiftsLimit(o.(isReliable := false, allowCongestionMarking := true), 11);
    WhenReserveLiftsLimit(o.(isReliable := true, allowCongestionMarking := false), 11);
    WhenReserveLiftsLimit(o.(isReliable := true, allowCongestionMarking := true), 23);
  }

  /** The packet after checkCongestionLevel(). */
  function Marked(m: Congestion.Marker, cfg: Congestion.Config, c: Congestion.Check, p: Packet): Packet
  {
    if Congestion.Marks(m, cfg, c) then p.(congestionMark := Some(1)) else p
  }

  /** A fragment that has got its Sequence and TxSequence and carries no Ack passes the check against the
      effective MTU, marked or not. */
  lemma FragmentNeverOverMtu(o: Options, transportMtu: int, pkt: Packet, i: nat, frag: Packet,
                             m: Congestion.Marker, c: Congestion.Check)
    requires Usable(o, transportMtu) && Cuts(o, transportMtu) && Min(o.overrideMtu, transportMtu) >= 64
    requires Fragmenter.Unfragmented(pkt)
    requires Fragmented(o, transportMtu, pkt).Some? && i < |Fragmented(o, transportMtu, pkt).value|
    requires Fragmenter.DressedFor(Fragmented(o, transportMtu, pkt).value[i], frag, o.isReliable, false)
    ensures var sent := if o.allowCongestionMarking then Marked(m, o.congestion, c, frag) else frag;
            WireSize(sent) <= Min(o.overrideMtu, transportMtu)
  {
    var mtu := Min(o.overrideMtu, transportMtu);
    var p := if o.allowCongestionMarking then Marked(m, o.congestion, c, frag) else frag;
    Fragmenter.MtuBudget(pkt, mtu, o.nMaxFragments, i, p, o.isReliable, o.allowCongestionMarking);
  }

  /** Sizes at which a mark of five octets makes TLV-LENGTH two octets longer. */
  predicate LengthGrows(size: nat)
  {
    250 <= size <= 254
  }

  /** The mark is put on after the Acks. A packet marked before stays within its size; one without a mark
      fits the MTU after marking exactly when five octets are left in it, or seven if TLV-LENGTH grows. */
  lemma MarkedFits(q: Packet, mtu: nat)
    requires !IsBare(q) && mtu < 0x1_0000
    ensures var marked := q.(congestionMark := Some(1));
            if q.congestionMark.Some? then WireSize(marked) <= WireSize(q)
            else WireSize(marked) <= mtu <==> WireSize(q) + 5 + (if LengthGrows(WireSize(q)) then 2 else 0) <= mtu
  {
    var marked := q.(congestionMark := Some(1));
    assert HeaderSize(marked) == HeaderSize(q) - CongestionMarkSize(q) + 5;
  }

  /** sendLpPacket() as a whole: an unmarked packet of `size` octets that gets `k` Acks and then the mark fits the MTU
      exactly when there is space for all of them and for a TLV-LENGTH that grows from one octet to three. */
  lemma AckedAndMarkedFits(p: Packet, mtu: nat, queue: seq<nat>)
    requires !IsBare(p) && p.congestionMark.None? && mtu < 0x1_0000
    ensures var size := WireSize(p);
            var k := AckQueue.AttachCount(size, mtu, |queue|);
            WireSize(AckQueue.Attach(p, mtu, queue).(congestionMark := Some(1))) <= mtu
            <==> size + ACK_SIZE * k + 5 + (if size <= 254 && size + ACK_SIZE * k >= 250 then 2 else 0) <= mtu
  {
    var k := AckQueue.AttachCount(WireSize(p), mtu, |queue|);
    var marked := AckQueue.Attach(p, mtu, queue).(congestionMark := Some(1));
    assert HeaderSize(marked) == HeaderSize(p) + ACK_SIZE * k + 5;
    MarkedSize(WireSize(p), ValueSize(p), ACK_SIZE * k + 5, mtu);
  }

  /** A packet of `size` octets with TLV-LENGTH `length` that grows by `more` octets. */
  lemma MarkedSize(size: nat, length: nat, more: nat, mtu: nat)
    requires size == ElementSize(1, length) && mtu < 0x1_0000 && more >= 5
    ensures ElementSize(1, length + more) <= mtu
            <==> size + more + (if size <= 254 && size + more >= 255 then 2 else 0) <= mtu
  {
  }

  /** Acks are attached before the mark is: on an MTU of 64, the smallest that can be set, an IDLE packet that
      piggyback() filled with five Acks has 62 octets and fits, and 67 once it is marked. It is then dropped
      together with its Acks. */
  lemma MarkAfterPiggybackCanExceedMtu(queue: seq<nat>)
    requires |queue| == 5
    ensures var p := AckQueue.Attach(EMPTY_PACKET, 64, queue);
            p.acks == queue && WireSize(p) == 62 && WireSize(p.(congestionMark := Some(1))) == 67
  {
    assert AckQueue.AttachCount(2, 64, 5) == 5;
    assert queue[..5] == queue;
  }

  class GenericLinkService {
    const o: Options
    const transportMtu: int

    var lastSeqNo: nat
    var nextMarkTime: Option<nat>          // None is time_point::max()
    var nMarkedSinceInMarkingState: nat
    var nFragmentationErrors: nat
    var nOutOverMtu: nat
    var nCongestionMarked: nat
    var transmitted: seq<Packet>           // packets handed to the transport

    ghost predicate Valid()
      reads this
    {
      Usable(o, transportMtu) && lastSeqNo < o.modulus
    }

    function Marker(): Congestion.Marker
      reads this
    {
      Congestion.Marker(nextMarkTime, nMarkedSinceInMarkingState)
    }

    /** Sequence numbering starts at -2. */
    constructor (options: Options, transportMtu: int)
      requires Usable(options, transportMtu)
      ensures Valid() && o == options && this.transportMtu == transportMtu
      ensures lastSeqNo == options.modulus - 2 && Marker() == Congestion.Init() && transmitted == []
    {
      o, this.transportMtu := options, transportMtu;
      lastSeqNo := options.modulus - 2;
      nextMarkTime, nMarkedSinceInMarkingState := None, 0;
      nFragmentationErrors, nOutOverMtu, nCongestionMarked, transmitted := 0, 0, 0, [];
    }

    /** getEffectiveMtu(): MTU_UNLIMITED is negative, so it prevails over any override. */
    function EffectiveMtu(): int
    {
      Min(o.overrideMtu, transportMtu)
    }

    /** assignSequences() */
    method AssignSequences(pkts: seq<Packet>) returns (r: seq<Packet>)
      requires Valid()
      modifies this`lastSeqNo
      ensures Valid() && lastSeqNo == (old(lastSeqNo) + |pkts|) % o.modulus
      ensures r == RoundTrip.WithSequences(pkts, old(lastSeqNo), o.modulus)
    {
      ghost var last := lastSeqNo;
      DivUnique(last, o.modulus, 0, last);
      r := [];
      for i := 0 to |pkts|
        invariant lastSeqNo == (last + i) % o.modulus && |r| == i
        invariant forall j :: 0 <= j < i ==> r[j] == pkts[j].(sequence := Some((last + 1 + j) % o.modulus))
      {
        ModStep(last + i, 1, o.modulus);
        lastSeqNo := if lastSeqNo + 1 == o.modulus then 0 else lastSeqNo + 1;
        assert last + i + 1 == last + 1 + i;
        r := r + [pkts[i].(sequence := Some(lastSeqNo))];
      }
    }

    /** sendNetPacket() up to handleOutgoing(): no fragments when the packet was dropped. */
    method FragmentNetPacket(pkt: Packet) returns (frags: seq<Packet>)
      requires Valid() && Fragmenter.Unfragmented(pkt)
      modifies this`lastSeqNo, this`nFragmentationErrors
      ensures Valid()
      ensures var r := Fragmented(o, transportMtu, pkt);
              && (r.None? ==>
                    frags == [] && nFragmentationErrors == old(nFragmentationErrors) + 1 && lastSeqNo == old(lastSeqNo))
              && (r.Some? ==>
                    && nFragmentationErrors == old(nFragmentationErrors)
                    && if o.isReliable || |r.value| > 1 then
                         && frags == RoundTrip.WithSequences(r.value, old(lastSeqNo), o.modulus)
                         && lastSeqNo == (old(lastSeqNo) + |r.value|) % o.modulus
                       else frags == r.value && lastSeqNo == old(lastSeqNo))
    {
      var mtu := EffectiveMtu();
      if o.isReliable && mtu != MTU_UNLIMITED {
        mtu := mtu - Fragmenter.TX_SEQUENCE_RESERVE;
      }
      if o.allowCongestionMarking && mtu != MTU_UNLIMITED {
        mtu := mtu - Fragmenter.CONGESTION_MARK_RESERVE;
      }
      if o.allowFragmentation && mtu != MTU_UNLIMITED {
        var r := Fragmenter.Run(pkt, mtu, o.nMaxFragments);
        if r.None? {
          nFragmentationErrors := nFragmentationErrors + 1;
          return [];
        }
        frags := r.value;
      } else {
        frags := [pkt];
      }
      if o.isReliable || |frags| > 1 {
        frags := AssignSequences(frags);
      }
    }

    /** checkCongestionLevel() */
    method CheckCongestionLevel(pkt: Packet, sendQueueLength: int, now: nat) returns (p: Packet)
      modifies this`nextMarkTime, this`nMarkedSinceInMarkingState, this`nCongestionMarked
      ensures var c := Congestion.Check(sendQueueLength, now);
              && Marker() == Congestion.Step(old(Marker()), o.congestion, c)
              && p == Marked(old(Marker()), o.congestion, c, pkt)
              && nCongestionMarked == old(nCongestionMarked)
                                      + if Congestion.Marks(old(Marker()), o.congestion, c) then 1 else 0
    {
      p := pkt;
      if sendQueueLength < 0 {
        return;
      }
      if sendQueueLength > o.congestion.threshold {
        if nextMarkTime.None? {
          nextMarkTime := Some(now + o.congestion.baseInterval);
        } else if now >= nextMarkTime.value {
          p := p.(congestionMark := Some(1));
          nCongestionMarked := nCongestionMarked + 1;
          nMarkedSinceInMarkingState := nMarkedSinceInMarkingState + 1;
          var interval := Congestion.Interval(o.congestion.baseInterval, nMarkedSinceInMarkingState + 1);
          nextMarkTime := Some(nextMarkTime.value + interval);
        }
      } else if nextMarkTime.Some? {
        nextMarkTime := None;
        nMarkedSinceInMarkingState := 0;
      }
    }

    /** sendLpPacket() after piggyback(): mark, then drop the packet if it is over the MTU. */
    method TransmitLpPacket(pkt: Packet, sendQueueLength: int, now: nat)
      requires Valid()
      modifies this
      ensures Valid() && lastSeqNo == old(lastSeqNo)
      ensures var c := Congestion.Check(sendQueueLength, now);
              var p := if o.allowCongestionMarking then Marked(old(Marker()), o.congestion, c, pkt) else pkt;
              && (o.allowCongestionMarking ==> Marker() == Congestion.Step(old(Marker()), o.congestion, c))
              && (!o.allowCongestionMarking ==> Marker() == old(Marker()))
              && if EffectiveMtu() == MTU_UNLIMITED || WireSize(p) <= EffectiveMtu()
                 then transmitted == old(transmitted) + [p] && nOutOverMtu == old(nOutOverMtu)
                 else transmitted == old(transmitted) && nOutOverMtu == old(nOutOverMtu) + 1
    {
      var mtu := EffectiveMtu();
      var p := pkt;
      if o.allowCongestionMarking {
        p := CheckCongestionLevel(p, sendQueueLength, now);
      }
      if mtu != MTU_UNLIMITED && WireSize(p) > mtu {
        nOutOverMtu := nOutOverMtu + 1;
        return;
      }
      transmitted := transmitted + [p];
    }
  }
}
