/** What LpReliability does, stated on transmission numbers that never wrap around.

    The n-th transmission of a link service (counting first transmissions and retransmissions alike)
    has number n here and TxSequence n modulo `modulus` on the wire. The send window is the sequence
    of unacknowledged transmissions in the order in which they were numbered. The state also keeps
    histories the program does not store: every packet ever handed over, what each transmission
    carried, which transmissions were acknowledged, and what was sent. */
module ReliabilitySpec {
  import opened Packets
  import AckQueue

  /** Options of one link service. `modulus` is 2^64 in the program. */
  datatype Options = Options(modulus: nat, maxRetx: nat, seqNumLossThreshold: nat, mtu: int)

  /** UnackedFrag: a transmitted fragment waiting for its Ack; `netPkt` names its NetPkt. */
  datatype UnackedFrag = UnackedFrag(pkt: Packet, retxCount: nat, nGreaterSeqAcks: nat, netPkt: nat)

  /** An entry of the send window: transmission number, its TxSequence, and the position of the
      fragment in its packet. */
  datatype Tx = Tx(n: nat, key: nat, ord: nat, frag: UnackedFrag)

  datatype Status = InFlight | Acknowledged | Retransmitted | Exhausted

  /** A network packet given to handleOutgoing(), with the fragments it was given as. */
  datatype NetPacket = NetPacket(frags: seq<Packet>, pkt: Packet, isInterest: bool, didRetx: bool, status: Status)

  /** Which fragment a transmission carried. */
  datatype FragId = FragId(pkt: nat, ord: nat)

  /** The sender's side. */
  datatype Ledger = Ledger(
    window: seq<Tx>,
    log: seq<FragId>,        // what transmission n carried; |log| is the number of the next one
    acked: set<nat>,         // numbers of acknowledged transmissions
    pkts: seq<NetPacket>,    // every network packet handed over, in order
    dropped: seq<nat>)       // packets onDroppedInterest was fired for, in order

  datatype State = State(
    ledger: Ledger,
    ackQueue: seq<nat>,      // TxSequences of the peer waiting to be acknowledged
    heard: seq<nat>,         // every TxSequence ever put into ackQueue, in order
    sent: seq<Packet>)       // every packet passed to sendLpPacket, with its Acks attached

  function Init(): State
  {
    State(Ledger([], [], {}, [], []), [], [], [])
  }

  // ---------------------------------------------------------------- the window

  /** assignTxSequence() fails: the next TxSequence is that of the oldest unacknowledged fragment. */
  predicate Full(l: Ledger, o: Options)
  {
    |l.window| > 0 && |l.log| - l.window[0].n >= o.modulus
  }

  /** The window without the transmissions numbered in `gone`. */
  function Without(w: seq<Tx>, gone: set<nat>): (r: seq<Tx>)
    ensures forall tx :: tx in r <==> tx in w && tx.n !in gone
  {
    if w == [] then []
    else
      assert w == w[..|w| - 1] + [w[|w| - 1]];
      var rest := Without(w[..|w| - 1], gone);
      if w[|w| - 1].n in gone then rest else rest + [w[|w| - 1]]
  }

  /** Numbers of the window's transmissions that carry fragments of packet `id`. */
  function NumbersOf(w: seq<Tx>, id: nat): set<nat>
  {
    set tx | tx in w && tx.frag.netPkt == id :: tx.n
  }

  function Bumped(tx: Tx): Tx
  {
    tx.(frag := tx.frag.(nGreaterSeqAcks := tx.frag.nGreaterSeqAcks + 1))
  }

  /** The window after the entries before position `i` each saw one more later Ack. */
  function Bump(w: seq<Tx>, i: nat): (r: seq<Tx>)
    requires i <= |w|
    ensures |r| == |w|
  {
    seq(|w|, j requires 0 <= j < |w| => if j < i then Bumped(w[j]) else w[j])
  }

  /** Whether one more later Ack makes a transmission count as lost. */
  predicate Tips(tx: Tx, threshold: nat)
  {
    tx.frag.nGreaterSeqAcks + 1 >= threshold
  }

  /** Entries before position `i` that one more later Ack makes count as lost, oldest first. */
  function Lost(w: seq<Tx>, i: nat, threshold: nat): seq<Tx>
    requires i <= |w|
  {
    if i == 0 then []
    else if Tips(w[i - 1], threshold) then Lost(w, i - 1, threshold) + [w[i - 1]]
    else Lost(w, i - 1, threshold)
  }

  /** Position of the entry with TxSequence `txSeq`. */
  function FindKey(w: seq<Tx>, txSeq: nat): (r: Option<nat>)
    ensures r.Some? ==> r.value < |w| && w[r.value].key == txSeq
    ensures r.None? ==> forall tx :: tx in w ==> tx.key != txSeq
  {
    if w == [] then None
    else if w[|w| - 1].key == txSeq then Some(|w| - 1)
    else FindKey(w[..|w| - 1], txSeq)
  }

  /** Position of the entry numbered `n`. */
  function FindNumber(w: seq<Tx>, n: nat): (r: Option<nat>)
    ensures r.Some? ==> r.value < |w| && w[r.value].n == n
    ensures r.None? ==> forall tx :: tx in w ==> tx.n != n
  {
    if w == [] then None
    else if w[|w| - 1].n == n then Some(|w| - 1)
    else FindNumber(w[..|w| - 1], n)
  }

  // ---------------------------------------------------------------- steps of the ledger

  /** Every window entry belongs to a known packet. */
  predicate Linked(l: Ledger)
  {
    forall tx :: tx in l.window ==> tx.frag.netPkt < |l.pkts|
  }

  /** Register a packet. */
  function NewPacket(l: Ledger, frags: seq<Packet>, pkt: Packet, isInterest: bool): Ledger
  {
    l.(pkts := l.pkts + [NetPacket(frags, pkt, isInterest, false, InFlight)])
  }

  /** Number the next transmission and put it at the end of the window. */
  function AddTx(l: Ledger, o: Options, id: FragId, pkt: Packet, retxCount: nat): Ledger
    requires o.modulus > 0
  {
    var key := |l.log| % o.modulus;
    var frag := UnackedFrag(pkt.(txSequence := Some(key)), retxCount, 0, id.pkt);
    l.(window := l.window + [Tx(|l.log|, key, id.ord, frag)], log := l.log + [id])
  }

  function SetStatus(l: Ledger, id: nat, status: Status): Ledger
    requires id < |l.pkts|
  {
    l.(pkts := l.pkts[id := l.pkts[id].(status := status)])
  }

  /** onLpPacketAcknowledged(): drop the entry at position `i`; the last fragment settles its packet. */
  function Acknowledge(l: Ledger, i: nat): (r: Ledger)
    requires Linked(l) && i < |l.window|
    ensures Linked(r)
  {
    var tx := l.window[i];
    assert tx in l.window;
    var id := tx.frag.netPkt;
    var m := l.(window := Without(l.window, {tx.n}), acked := l.acked + {tx.n});
    if NumbersOf(m.window, id) != {} then m
    else SetStatus(m, id, if l.pkts[id].didRetx then Retransmitted else Acknowledged)
  }

  /** findLostLpPackets() and onLpPacketAcknowledged() for the entry at position `i`. */
  function AckAt(l: Ledger, i: nat): (r: Ledger)
    requires Linked(l) && i < |l.window|
    ensures Linked(r)
  {
    var m := l.(window := Bump(l.window, i));
    assert forall k :: 0 <= k < |l.window| ==> l.window[k] in l.window;
    Acknowledge(m, i)
  }

  /** onLpPacketLost(), no retransmission left: give up on the whole packet. */
  function Exhaust(l: Ledger, id: nat): Ledger
    requires id < |l.pkts|
  {
    var m := SetStatus(l.(window := Without(l.window, NumbersOf(l.window, id))), id, Exhausted);
    if l.pkts[id].isInterest then m.(dropped := m.dropped + [id]) else m
  }

  /** The entry at position `i` is out of the window and its packet marked as retransmitted. */
  function Release(l: Ledger, i: nat): (r: Ledger)
    requires Linked(l) && i < |l.window|
    ensures Linked(r)
  {
    assert l.window[i] in l.window;
    var id := l.window[i].frag.netPkt;
    l.(window := Without(l.window, {l.window[i].n}), pkts := l.pkts[id := l.pkts[id].(didRetx := true)])
  }

  /** onLpPacketLost(), otherwise: the fragment gets a new number. */
  function Renumber(l: Ledger, o: Options, i: nat): (r: Ledger)
    requires o.modulus > 0 && Linked(l) && i < |l.window|
    ensures Linked(r)
  {
    var tx := l.window[i];
    assert tx in l.window;
    AddTx(Release(l, i), o, FragId(tx.frag.netPkt, tx.ord), tx.frag.pkt, tx.frag.retxCount + 1)
  }

  /** The packet that a retransmission of the entry at position `i` sends. */
  function AgainPacket(l: Ledger, o: Options, i: nat): Packet
    requires o.modulus > 0 && i < |l.window|
  {
    l.window[i].frag.pkt.(txSequence := Some(|l.log| % o.modulus))
  }

  // ---------------------------------------------------------------- operations; None: length_error

  /** sendLpPacket(): attach Acks and hand the packet to the transport. */
  function Transmit(s: State, o: Options, pkt: Packet): State
  {
    s.(sent := s.sent + [AckQueue.Attach(pkt, o.mtu, s.ackQueue)],
       ackQueue := AckQueue.Rest(pkt, o.mtu, s.ackQueue))
  }

  /** onLpPacketLost() for the entry at position `i`. */
  function OnLost(s: State, o: Options, i: nat): (r: Option<State>)
    requires o.modulus > 0 && i < |s.ledger.window| && Linked(s.ledger)
    ensures r.Some? ==> Linked(r.value.ledger)
  {
    var tx := s.ledger.window[i];
    assert tx in s.ledger.window;
    if tx.frag.retxCount >= o.maxRetx then Some(s.(ledger := Exhaust(s.ledger, tx.frag.netPkt)))
    else if Full(s.ledger, o) then None
    else
      Some(Transmit(s.(ledger := Renumber(s.ledger, o, i)), o,
                    AgainPacket(s.ledger, o, i)))
  }

  /** `ok` and `t` are what onLpPacketLost() gives for the entry at position `i`. */
  ghost predicate LostOutcome(s: State, o: Options, i: nat, ok: bool, t: State)
    requires o.modulus > 0 && i < |s.ledger.window| && Linked(s.ledger)
  {
    var l := s.ledger;
    assert l.window[i] in l.window;
    if l.window[i].frag.retxCount >= o.maxRetx then ok && t == s.(ledger := Exhaust(l, l.window[i].frag.netPkt))
    else (ok <==> !Full(l, o)) && (ok ==> t == Transmit(s.(ledger := Renumber(l, o, i)), o, AgainPacket(l, o, i)))
  }

  lemma OutcomeIsOnLost(s: State, o: Options, i: nat, ok: bool, t: State)
    requires o.modulus > 0 && i < |s.ledger.window| && Linked(s.ledger) && LostOutcome(s, o, i, ok, t)
    ensures OnLost(s, o, i) == if ok then Some(t) else None
  {
  }

  /** The loop over the fragments that one Ack declared lost. Fragments that were removed meanwhile,
      because their packet was given up, are skipped. */
  function ProcessLost(s: State, o: Options, lost: seq<Tx>): (r: Option<State>)
    requires o.modulus > 0 && Linked(s.ledger)
    ensures r.Some? ==> Linked(r.value.ledger)
    decreases lost
  {
    if lost == [] then Some(s)
    else
      match FindNumber(s.ledger.window, lost[0].n)
      case None => ProcessLost(s, o, lost[1..])
      case Some(i) =>
        var t := OnLost(s, o, i);
        if t.None? then None else ProcessLost(t.value, o, lost[1..])
  }

  /** The transmissions that the Ack of the entry at position `i` declares lost. */
  function LostBy(l: Ledger, o: Options, i: nat): seq<Tx>
    requires i < |l.window|
  {
    Lost(l.window, i, o.seqNumLossThreshold)
  }

  /** One turn of the loop over the Acks of a received packet. */
  function ProcessAck(s: State, o: Options, txSeq: nat): (r: Option<State>)
    requires o.modulus > 0 && Linked(s.ledger)
    ensures r.Some? ==> Linked(r.value.ledger)
  {
    match FindKey(s.ledger.window, txSeq)
    case None => Some(s)
    case Some(i) => ProcessLost(s.(ledger := AckAt(s.ledger, i)), o, LostBy(s.ledger, o, i))
  }

  function ProcessAcks(s: State, o: Options, acks: seq<nat>): (r: Option<State>)
    requires o.modulus > 0 && Linked(s.ledger)
    ensures r.Some? ==> Linked(r.value.ledger)
    decreases acks
  {
    if acks == [] then Some(s)
    else
      var t := ProcessAck(s, o, acks[0]);
      if t.None? then None else ProcessAcks(t.value, o, acks[1..])
  }

  /** The Ack that a received packet asks for. */
  function AckFor(pkt: Packet): seq<nat>
  {
    if pkt.fragment.Some? && pkt.txSequence.Some? then [pkt.txSequence.value] else []
  }

  /** Queue the Ack for a received fragment. */
  function QueueAck(s: State, p: Packet): State
  {
    if p.fragment.Some? && p.txSequence.Some? then
      s.(ackQueue := s.ackQueue + [p.txSequence.value], heard := s.heard + [p.txSequence.value])
    else s
  }

  /** processIncomingPacket(), without its duplicate filter. */
  function Receive(s: State, o: Options, p: Packet): (r: Option<State>)
    requires o.modulus > 0 && Linked(s.ledger)
    ensures r.Some? ==> Linked(r.value.ledger)
  {
    var t := ProcessAcks(s, o, p.acks);
    if t.None? then None else Some(QueueAck(t.value, p))
  }

  /** The loop of handleOutgoing(), from fragment `j` of packet `id` on. */
  function AddFrags(l: Ledger, o: Options, id: nat, frags: seq<Packet>, j: nat): (r: Option<Ledger>)
    requires o.modulus > 0 && Linked(l) && id < |l.pkts| && j <= |frags|
    ensures r.Some? ==> Linked(r.value)
    decreases |frags| - j
  {
    if j == |frags| then Some(l)
    else if Full(l, o) then None
    else AddFrags(AddTx(l, o, FragId(id, j), frags[j], 0), o, id, frags, j + 1)
  }

  function HandleOutgoing(l: Ledger, o: Options, frags: seq<Packet>, pkt: Packet, isInterest: bool): (r: Option<Ledger>)
    requires o.modulus > 0 && Linked(l)
    ensures r.Some? ==> Linked(r.value)
  {
    AddFrags(NewPacket(l, frags, pkt, isInterest), o, |l.pkts|, frags, 0)
  }

  /** The loop of sendNetPacket() that passes the numbered fragments to sendLpPacket(). */
  function TransmitFrags(s: State, o: Options, first: nat, frags: seq<Packet>, j: nat): (r: State)
    requires o.modulus > 0 && j <= |frags|
    ensures r.ledger == s.ledger
    decreases |frags| - j
  {
    if j == |frags| then s
    else TransmitFrags(Transmit(s, o, frags[j].(txSequence := Some((first + j) % o.modulus))), o, first, frags, j + 1)
  }

  /** sendNetPacket() from handleOutgoing() on. */
  function Send(s: State, o: Options, frags: seq<Packet>, pkt: Packet, isInterest: bool): (r: Option<State>)
    requires o.modulus > 0 && Linked(s.ledger)
    ensures r.Some? ==> Linked(r.value.ledger)
  {
    var l := HandleOutgoing(s.ledger, o, frags, pkt, isInterest);
    if l.None? then None else Some(TransmitFrags(s.(ledger := l.value), o, |s.ledger.log|, frags, 0))
  }

  // ---------------------------------------------------------------- events

  /** What can happen to a link service. An RTO timer fires only for a transmission still in the
      window; an idle event sends one IDLE packet. */
  datatype Event =
    | SendEvent(frags: seq<Packet>, pkt: Packet, isInterest: bool)
    | ReceiveEvent(packet: Packet)
    | RtoEvent(n: nat)
    | IdleEvent

  /** A fragment as the fragmenter hands it over. */
  predicate PlainFrag(f: Packet)
  {
    f.fragment.Some? && f.acks == []
  }

  predicate Enabled(s: State, e: Event)
  {
    match e
    case SendEvent(frags, _, _) => frags != [] && forall f :: f in frags ==> PlainFrag(f)
    case ReceiveEvent(_) => true
    case RtoEvent(n) => exists tx :: tx in s.ledger.window && tx.n == n
    case IdleEvent => true
  }

  function Step(s: State, o: Options, e: Event): (r: Option<State>)
    requires o.modulus > 0 && Linked(s.ledger)
    ensures r.Some? ==> Linked(r.value.ledger)
  {
    match e
    case SendEvent(frags, pkt, isInterest) => Send(s, o, frags, pkt, isInterest)
    case ReceiveEvent(p) => Receive(s, o, p)
    case RtoEvent(n) =>
      (match FindNumber(s.ledger.window, n)
       case None => Some(s)
       case Some(i) => OnLost(s, o, i))
    case IdleEvent => Some(Transmit(s, o, EMPTY_PACKET))
  }

  /** Event `e` can happen in state `s`; it ends normally, in state `t`, exactly when `ok`. */
  ghost predicate Happens(s: State, o: Options, e: Event, ok: bool, t: State)
    requires o.modulus > 0 && Linked(s.ledger)
  {
    Enabled(s, e) && Step(s, o, e) == if ok then Some(t) else None
  }
}
