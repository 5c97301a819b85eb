/** Attaching queued Acks to outgoing packets: how many fit, and what that does to the packet size. */
module AckQueue {
  import opened Packets

  /** Space left for Acks in a packet of `size` octets, after the reserve that is meant to cover a
      growing TLV-LENGTH. */
  function RemainingSpace(size: nat, mtu: int): int
  {
    (if mtu == MTU_UNLIMITED then MAX_NDN_PACKET_SIZE else mtu)
      - (VarNumberSize(MAX_NDN_PACKET_SIZE) - VarNumberSize(size)) - size
  }

  /** How many Acks of a queue of length `queued` go into a packet of `size` octets. */
  function AttachCount(size: nat, mtu: int, queued: nat): (k: nat)
    ensures k <= queued
  {
    var space := RemainingSpace(size, mtu);
    if space < 0 then 0
    else if space / ACK_SIZE < queued then space / ACK_SIZE else queued
  }

  /** The packet after piggyback(): the oldest Acks of the queue are appended to its Ack list. */
  function Attach(p: Packet, mtu: int, queue: seq<nat>): Packet
  {
    p.(acks := p.acks + queue[..AttachCount(WireSize(p), mtu, |queue|)])
  }

  /** The Ack queue after piggyback(). */
  function Rest(p: Packet, mtu: int, queue: seq<nat>): seq<nat>
  {
    queue[AttachCount(WireSize(p), mtu, |queue|)..]
  }

  /** Nothing is lost, duplicated or reordered by attaching. */
  lemma AttachIsFifo(p: Packet, mtu: int, queue: seq<nat>)
    ensures Attach(p, mtu, queue).acks + Rest(p, mtu, queue) == p.acks + queue
    ensures CopyOf(p, Attach(p, mtu, queue))
  {
  }

  // ---------------------------------------------------------------- MTU safety

  /** Sizes at which TLV-LENGTH of the packet is one octet long but that of the whole size is three:
      the reserve in piggyback() is then two octets short. */
  predicate ReserveTooSmall(size: nat)
  {
    size == 253 || size == 254
  }

  /** Piggybacking keeps a packet within its MTU exactly when the starting size is not one of the two
      for which the reserve is miscomputed, or no Ack was attached, or two octets stay unused. */
  lemma PiggybackFits(p: Packet, mtu: int, queue: seq<nat>)
    requires !IsBare(p)
    requires 0 <= mtu < 0x1_0000 || mtu == MTU_UNLIMITED
    requires var limit := if mtu == MTU_UNLIMITED then MAX_NDN_PACKET_SIZE else mtu; WireSize(p) <= limit
    ensures var limit := if mtu == MTU_UNLIMITED then MAX_NDN_PACKET_SIZE else mtu;
            var k := AttachCount(WireSize(p), mtu, |queue|);
            && (WireSize(Attach(p, mtu, queue)) <= limit
                <==> !ReserveTooSmall(WireSize(p)) || k == 0 || WireSize(p) + ACK_SIZE * k + 2 <= limit)
            && WireSize(Attach(p, mtu, queue)) <= limit + 2
  {
    var k := AttachCount(WireSize(p), mtu, |queue|);
    var q := Attach(p, mtu, queue);
    assert HeaderSize(q) == HeaderSize(p) + ACK_SIZE * k;
  }

  /** A fragment as sendLpPacket() gets it from sendNetPacket(). */
  function NumberedFragment(payload: seq<Byte>, sequence: nat, txSequence: nat, index: Option<nat>,
                            count: Option<nat>): Packet
  {
    Packet(Some(payload), Some(sequence), index, count, Some(txSequence), [], None, [])
  }

  /** Packets that go over their MTU. An unfragmented packet of 253 octets with an MTU of 265 and one Ack ends
      at 267; the third and last fragment of a packet, of 253 octets, with an MTU of 289 and three Acks, at 291. */
  lemma PiggybackCanExceedMtu(payload: seq<Byte>, fragment: seq<Byte>, sequence: nat, txSequence: nat, queue: seq<nat>)
    requires |payload| == 227 && |fragment| == 221 && |queue| == 3
    ensures var p := NumberedFragment(payload, sequence, txSequence, None, None);
            && WireSize(p) == 253 && WireSize(Attach(p, 265, queue[..1])) == 267
    ensures var p := NumberedFragment(fragment, sequence, txSequence, Some(2), Some(3));
            && WireSize(p) == 253 && WireSize(Attach(p, 289, queue)) == 291
  {
    assert AttachCount(253, 265, 1) == 1 && AttachCount(253, 289, 3) == 3;
    assert queue[..1][..1] == queue[..1] && queue[..3] == queue;
  }

  // ---------------------------------------------------------------- IDLE packets

  /** Queue left after one IDLE packet. */
  function AfterIdle(mtu: int, queue: seq<nat>): seq<nat>
  {
    Rest(EMPTY_PACKET, mtu, queue)
  }

  /** The loop of the idle-Ack timer makes progress exactly on MTUs of at least 16 octets. */
  lemma IdleProgress(mtu: int, queue: seq<nat>)
    requires queue != []
    ensures |AfterIdle(mtu, queue)| < |queue| <==> mtu >= 16 || mtu == MTU_UNLIMITED
    ensures mtu < 16 && mtu != MTU_UNLIMITED ==> AfterIdle(mtu, queue) == queue
  {
    assert WireSize(EMPTY_PACKET) == 2;
  }
}
