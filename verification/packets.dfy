/** NDNLPv2 packets as records of optional fields, and the sizes their TLV encodings have. */
module Packets {

  datatype Option<+T> = None | Some(value: T)

  type Byte = b: int | 0 <= b < 256

  predicate Distinct(xs: seq<nat>)
  {
    forall i, j :: 0 <= i < j < |xs| ==> xs[i] != xs[j]
  }

  /** The parts one after the other. */
  function Join(parts: seq<seq<Byte>>): seq<Byte>
  {
    if parts == [] then [] else parts[0] + Join(parts[1..])
  }

  /** Largest packet a transport accepts (ndn::MAX_NDN_PACKET_SIZE). */
  const MAX_NDN_PACKET_SIZE: nat := 8800

  /** Value of the MTU that stands for "no limit". */
  const MTU_UNLIMITED: int := -1

  /** An LpPacket. `headers` holds the encodings of all header elements that this model does not
      look inside (Nack, PitToken, HopCountTag and so on). */
  datatype Packet = Packet(
    fragment: Option<seq<Byte>>,
    sequence: Option<nat>,
    fragIndex: Option<nat>,
    fragCount: Option<nat>,
    txSequence: Option<nat>,
    acks: seq<nat>,
    congestionMark: Option<nat>,
    headers: seq<Byte>)

  /** lp::Packet(): the packet with no field at all, also the IDLE packet before Acks are attached. */
  const EMPTY_PACKET := Packet(None, None, None, None, None, [], None, [])

  // ---------------------------------------------------------------- TLV sizes

  /** tlv::sizeOfVarNumber */
  function VarNumberSize(n: nat): nat
  {
    if n < 253 then 1 else if n < 0x1_0000 then 3 else if n < 0x1_0000_0000 then 5 else 9
  }

  /** tlv::sizeOfNonNegativeInteger */
  function NonNegativeIntegerSize(n: nat): nat
  {
    if n < 0x100 then 1 else if n < 0x1_0000 then 2 else if n < 0x1_0000_0000 then 4 else 8
  }

  /** Size of a TLV element whose TLV-TYPE takes `typeSize` octets and whose value takes `length`. */
  function ElementSize(typeSize: nat, length: nat): nat
  {
    typeSize + VarNumberSize(length) + length
  }

  /** Sequence, TxSequence and Ack carry their number in a fixed 8-octet form. */
  const SEQUENCE_SIZE: nat := 10
  const TX_SEQUENCE_SIZE: nat := 12
  const ACK_SIZE: nat := 12

  function SequenceSize(p: Packet): nat
  {
    if p.sequence.Some? then SEQUENCE_SIZE else 0
  }

  function FragIndexSize(p: Packet): nat
  {
    if p.fragIndex.Some? then 2 + NonNegativeIntegerSize(p.fragIndex.value) else 0
  }

  function FragCountSize(p: Packet): nat
  {
    if p.fragCount.Some? then 2 + NonNegativeIntegerSize(p.fragCount.value) else 0
  }

  function TxSequenceSize(p: Packet): nat
  {
    if p.txSequence.Some? then TX_SEQUENCE_SIZE else 0
  }

  function CongestionMarkSize(p: Packet): nat
  {
    if p.congestionMark.Some? then 4 + NonNegativeIntegerSize(p.congestionMark.value) else 0
  }

  function FragmentSize(p: Packet): nat
  {
    if p.fragment.Some? then ElementSize(1, |p.fragment.value|) else 0
  }

  /** Octets taken by all elements other than the Fragment. */
  function HeaderSize(p: Packet): nat
  {
    SequenceSize(p) + FragIndexSize(p) + FragCountSize(p) + TxSequenceSize(p) +
    ACK_SIZE * |p.acks| + CongestionMarkSize(p) + |p.headers|
  }

  /** TLV-LENGTH of the LpPacket element. */
  function ValueSize(p: Packet): nat
  {
    HeaderSize(p) + FragmentSize(p)
  }

  /** Whether wireEncode() yields the bare network packet instead of an LpPacket element. */
  predicate IsBare(p: Packet)
  {
    p.fragment.Some? && HeaderSize(p) == 0
  }

  /** lp::Packet::wireEncode().size() */
  function WireSize(p: Packet): nat
  {
    if IsBare(p) then |p.fragment.value| else ElementSize(1, ValueSize(p))
  }

  /** `c` is a copy of the fragment `f`: a first transmission or a retransmission, with any Acks attached and
      possibly marked for congestion. */
  predicate CopyOf(f: Packet, c: Packet)
  {
    && c == f.(txSequence := c.txSequence, acks := c.acks, congestionMark := c.congestionMark)
    && (c.congestionMark == f.congestionMark || c.congestionMark == Some(1))
  }
}
