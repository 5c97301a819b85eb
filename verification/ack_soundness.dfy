/** Two link services joined by a network that loses, duplicates and reorders packets, may mark them for
    congestion, and forges nothing. */
module AckSoundness {
  import opened Packets
  import opened ReliabilitySpec
  import opened ReliabilityInvariants

  /** A link service and every packet passed to its processIncomingPacket(). */
  datatype End = End(state: State, got: seq<Packet>)

  datatype System = System(x: End, y: End)

  /** An event at one of the two ends. */
  datatype SystemEvent = AtX(event: Event) | AtY(event: Event)

  /** `p` is the packet `q` as it may arrive: it can only be marked for congestion on the way. */
  predicate OnWire(q: Packet, p: Packet)
  {
    p == q || p == q.(congestionMark := Some(1))
  }

  /** Every packet of `got` is one of those in `sent`. */
  predicate Carried(sent: seq<Packet>, got: seq<Packet>)
  {
    forall p :: p in got ==> exists q :: q in sent && OnWire(q, p)
  }

  function AddGot(e: End, event: Event, s: State): End
  {
    End(s, if event.ReceiveEvent? then e.got + [event.packet] else e.got)
  }

  /** The event can happen, given what the other end has sent. */
  predicate EndEnabled(e: End, event: Event, sent: seq<Packet>)
  {
    Enabled(e.state, event) && (event.ReceiveEvent? ==> exists q :: q in sent && OnWire(q, event.packet))
  }

  function EndStep(e: End, o: Options, event: Event, sent: seq<Packet>): (r: Option<End>)
    requires o.modulus > 0 && Linked(e.state.ledger)
    ensures r.Some? ==> Linked(r.value.state.ledger)
  {
    if !EndEnabled(e, event, sent) then None
    else
      var s := Step(e.state, o, event);
      if s.None? then None else Some(AddGot(e, event, s.value))
  }

  predicate SystemLinked(sys: System)
  {
    Linked(sys.x.state.ledger) && Linked(sys.y.state.ledger)
  }

  function SystemStep(sys: System, ox: Options, oy: Options, e: SystemEvent): (r: Option<System>)
    requires ox.modulus > 0 && oy.modulus > 0 && SystemLinked(sys)
    ensures r.Some? ==> SystemLinked(r.value)
  {
    match e
    case AtX(event) =>
      var x := EndStep(sys.x, ox, event, sys.y.state.sent);
      if x.None? then None else Some(System(x.value, sys.y))
    case AtY(event) =>
      var y := EndStep(sys.y, oy, event, sys.x.state.sent);
      if y.None? then None else Some(System(sys.x, y.value))
  }

  /** The system after a run; None when an event was not possible or an exception occurred. */
  function SystemRun(ox: Options, oy: Options, events: seq<SystemEvent>): (r: Option<System>)
    requires ox.modulus > 0 && oy.modulus > 0
    ensures r.Some? ==> SystemLinked(r.value)
  {
    if events == [] then Some(System(End(Init(), []), End(Init(), [])))
    else
      var sys := SystemRun(ox, oy, events[..|events| - 1]);
      if sys.None? then None else SystemStep(sys.value, ox, oy, events[|events| - 1])
  }

  // ---------------------------------------------------------------- what one end keeps

  /** A queued or sent Ack is for a fragment that was received. */
  predicate AcksAreForReceived(e: End)
  {
    forall k :: k in e.state.heard ==> exists p :: p in e.got && p.fragment.Some? && p.txSequence == Some(k)
  }

  /** An acknowledged transmission had its Ack in a received packet. */
  predicate AckedWereAcked(e: End, modulus: nat)
    requires modulus > 0
  {
    forall n :: n in e.state.ledger.acked ==> exists p :: p in e.got && n % modulus in p.acks
  }

  ghost predicate EndInv(e: End, o: Options)
  {
    Inv(e.state, o) && AcksAreForReceived(e) && AckedWereAcked(e, o.modulus)
  }

  /** `t` comes after `s`, having heard `heard` and processed `acks`. */
  predicate Grown(s: State, t: State, o: Options, heard: seq<nat>, acks: seq<nat>)
    requires o.modulus > 0
  {
    && s.sent <= t.sent && t.heard == s.heard + heard
    && forall n :: n in t.ledger.acked && n !in s.ledger.acked ==> n % o.modulus in acks
  }

  lemma {:induction false} LostGrows(s: State, o: Options, lost: seq<Tx>)
    requires o.modulus > 0 && Linked(s.ledger)
    ensures var r := ProcessLost(s, o, lost);
            r.Some? ==> s.sent <= r.value.sent && r.value.heard == s.heard && r.value.ledger.acked == s.ledger.acked
    decreases lost
  {
    if lost != [] {
      match FindNumber(s.ledger.window, lost[0].n)
      case None => LostGrows(s, o, lost[1..]);
      case Some(i) =>
        var t := OnLost(s, o, i);
        if t.Some? { LostGrows(t.value, o, lost[1..]); }
    }
  }

  lemma AckGrows(s: State, o: Options, k: nat)
    requires o.modulus > 0 && Linked(s.ledger) && KeyInv(s.ledger.window, o.modulus)
    ensures var r := ProcessAck(s, o, k); r.Some? ==> Grown(s, r.value, o, [], [k])
  {
    match FindKey(s.ledger.window, k)
    case None =>
    case Some(i) =>
      assert s.ledger.window[i] in s.ledger.window;
      LostGrows(s.(ledger := AckAt(s.ledger, i)), o, LostBy(s.ledger, o, i));
  }

  lemma GrownTwice(s: State, t: State, u: State, o: Options, acks: seq<nat>)
    requires o.modulus > 0 && acks != [] && Grown(s, t, o, [], [acks[0]]) && Grown(t, u, o, [], acks[1..])
    ensures Grown(s, u, o, [], acks)
  {
    assert acks == [acks[0]] + acks[1..];
  }

  lemma {:induction false} AcksGrow(s: State, o: Options, acks: seq<nat>)
    requires Inv(s, o) && Linked(s.ledger)
    ensures var r := ProcessAcks(s, o, acks); r.Some? ==> Grown(s, r.value, o, [], acks)
    decreases acks
  {
    if acks != [] {
      AckGrows(s, o, acks[0]);
      ProcessAckInv(s, o, acks[0]);
      var t := ProcessAck(s, o, acks[0]);
      if t.Some? {
        AcksGrow(t.value, o, acks[1..]);
        var u := ProcessAcks(t.value, o, acks[1..]);
        if u.Some? { GrownTwice(s, t.value, u.value, o, acks); }
      }
    }
  }

  lemma {:induction false} FragsGrow(s: State, o: Options, first: nat, frags: seq<Packet>, j: nat)
    requires o.modulus > 0 && j <= |frags|
    ensures var r := TransmitFrags(s, o, first, frags, j);
            s.sent <= r.sent && r.heard == s.heard && r.ledger == s.ledger
    decreases |frags| - j
  {
    if j < |frags| {
      FragsGrow(Transmit(s, o, frags[j].(txSequence := Some((first + j) % o.modulus))), o, first, frags, j + 1);
    }
  }

  lemma {:induction false} AddFragsKeepsAcked(l: Ledger, o: Options, id: nat, frags: seq<Packet>, j: nat)
    requires o.modulus > 0 && Linked(l) && id < |l.pkts| && j <= |frags|
    ensures var r := AddFrags(l, o, id, frags, j); r.Some? ==> r.value.acked == l.acked
    decreases |frags| - j
  {
    if j < |frags| && !Full(l, o) {
      AddFragsKeepsAcked(AddTx(l, o, FragId(id, j), frags[j], 0), o, id, frags, j + 1);
    }
  }

  lemma SendGrows(s: State, o: Options, frags: seq<Packet>, pkt: Packet, isInterest: bool)
    requires o.modulus > 0 && Linked(s.ledger)
    ensures var r := Send(s, o, frags, pkt, isInterest); r.Some? ==> Grown(s, r.value, o, [], [])
  {
    AddFragsKeepsAcked(NewPacket(s.ledger, frags, pkt, isInterest), o, |s.ledger.pkts|, frags, 0);
    var l := HandleOutgoing(s.ledger, o, frags, pkt, isInterest);
    if l.Some? {
      FragsGrow(s.(ledger := l.value), o, |s.ledger.log|, frags, 0);
    }
  }

  /** The Acks of the packet received in an event, and the Ack that it asks for. */
  function AcksIn(e: Event): seq<nat>
  {
    if e.ReceiveEvent? then e.packet.acks else []
  }

  function HeardIn(e: Event): seq<nat>
  {
    if e.ReceiveEvent? then AckFor(e.packet) else []
  }

  lemma StepGrows(s: State, o: Options, e: Event)
    requires Inv(s, o) && Linked(s.ledger)
    ensures var r := Step(s, o, e); r.Some? ==> Grown(s, r.value, o, HeardIn(e), AcksIn(e))
  {
    match e
    case SendEvent(frags, pkt, isInterest) => SendGrows(s, o, frags, pkt, isInterest);
    case ReceiveEvent(p) => ReceiveGrows(s, o, p);
    case RtoEvent(n) => RtoGrows(s, o, n);
    case IdleEvent => TransmitGrows(s, o, EMPTY_PACKET);
  }

  lemma TransmitGrows(s: State, o: Options, p: Packet)
    requires o.modulus > 0
    ensures Grown(s, Transmit(s, o, p), o, [], [])
  {
  }

  lemma ReceiveGrows(s: State, o: Options, p: Packet)
    requires Inv(s, o) && Linked(s.ledger)
    ensures var r := Receive(s, o, p); r.Some? ==> Grown(s, r.value, o, HeardIn(ReceiveEvent(p)), p.acks)
  {
    AcksGrow(s, o, p.acks);
  }

  lemma RtoGrows(s: State, o: Options, n: nat)
    requires o.modulus > 0 && Linked(s.ledger)
    ensures var r := Step(s, o, RtoEvent(n)); r.Some? ==> Grown(s, r.value, o, [], [])
  {
  }

  /** The TxSequences of the fragments received in a run, in the order of their arrival. */
  function HeardBy(events: seq<Event>): seq<nat>
  {
    if events == [] then [] else HeardBy(events[..|events| - 1]) + HeardIn(events[|events| - 1])
  }

  lemma {:induction false} HeardIsHistory(o: Options, events: seq<Event>)
    requires o.modulus > 0 && Run(o, events).Some?
    ensures Run(o, events).value.heard == HeardBy(events)
  {
    if events != [] {
      var before, e := events[..|events| - 1], events[|events| - 1];
      HeardIsHistory(o, before);
      RunInv(o, before);
      StepGrows(Run(o, before).value, o, e);
    }
  }

  /** After every run, the Acks attached to the packets sent, in order, followed by the Acks still queued are the
      TxSequences of the fragments received, in order: each is acknowledged exactly once or still queued. */
  lemma AcksInOrder(o: Options, events: seq<Event>)
    requires o.modulus > 0 && Run(o, events).Some?
    ensures AllAcks(Run(o, events).value.sent) + Run(o, events).value.ackQueue == HeardBy(events)
  {
    RunInv(o, events);
    HeardIsHistory(o, events);
  }

  lemma GrownEndInv(e: End, o: Options, event: Event, t: State)
    requires o.modulus > 0 && AcksAreForReceived(e) && AckedWereAcked(e, o.modulus)
    requires Grown(e.state, t, o, HeardIn(event), AcksIn(event))
    ensures AcksAreForReceived(AddGot(e, event, t)) && AckedWereAcked(AddGot(e, event, t), o.modulus)
  {
    var e' := AddGot(e, event, t);
    assert forall p :: p in e.got ==> p in e'.got;
    assert event.ReceiveEvent? ==> event.packet in e'.got;
    forall n | n in t.ledger.acked ensures exists p :: p in e'.got && n % o.modulus in p.acks {
      if n in e.state.ledger.acked {
        var p :| p in e.got && n % o.modulus in p.acks;
        assert p in e'.got;
      } else {
        assert event.packet in e'.got;
      }
    }
    forall k | k in t.heard ensures exists p :: p in e'.got && p.fragment.Some? && p.txSequence == Some(k) {
      if k in e.state.heard {
        var p :| p in e.got && p.fragment.Some? && p.txSequence == Some(k);
        assert p in e'.got;
      } else {
        assert event.packet in e'.got;
      }
    }
  }

  lemma EndStepInv(e: End, o: Options, event: Event, sent: seq<Packet>)
    requires EndInv(e, o) && Linked(e.state.ledger)
    ensures var r := EndStep(e, o, event, sent);
            r.Some? ==>
              EndInv(r.value, o) && e.state.sent <= r.value.state.sent && r.value == AddGot(e, event, r.value.state)
  {
    var r := EndStep(e, o, event, sent);
    if r.Some? {
      StepInv(e.state, o, event);
      StepGrows(e.state, o, event);
      GrownEndInv(e, o, event, r.value.state);
    }
  }

  // ---------------------------------------------------------------- what the system keeps

  ghost predicate SystemInv(sys: System, ox: Options, oy: Options)
  {
    && EndInv(sys.x, ox) && EndInv(sys.y, oy)
    && Carried(sys.x.state.sent, sys.y.got) && Carried(sys.y.state.sent, sys.x.got)
  }

  lemma CarriedMore(sent: seq<Packet>, sent': seq<Packet>, got: seq<Packet>)
    requires Carried(sent, got) && sent <= sent'
    ensures Carried(sent', got)
  {
    forall p | p in got ensures exists q :: q in sent' && OnWire(q, p) {
      var q :| q in sent && OnWire(q, p);
      assert q in sent';
    }
  }

  lemma CarriedNew(sent: seq<Packet>, e: End, event: Event, s: State)
    requires Carried(sent, e.got) && EndEnabled(e, event, sent)
    ensures Carried(sent, AddGot(e, event, s).got)
  {
  }

  lemma SystemStepInv(sys: System, ox: Options, oy: Options, e: SystemEvent)
    requires SystemInv(sys, ox, oy) && SystemLinked(sys)
    ensures var r := SystemStep(sys, ox, oy, e); r.Some? ==> SystemInv(r.value, ox, oy)
  {
    var r := SystemStep(sys, ox, oy, e);
    if r.Some? {
      match e
      case AtX(event) =>
        EndStepInv(sys.x, ox, event, sys.y.state.sent);
        CarriedMore(sys.x.state.sent, r.value.x.state.sent, sys.y.got);
        CarriedNew(sys.y.state.sent, sys.x, event, r.value.x.state);
      case AtY(event) =>
        EndStepInv(sys.y, oy, event, sys.x.state.sent);
        CarriedMore(sys.y.state.sent, r.value.y.state.sent, sys.x.got);
        CarriedNew(sys.x.state.sent, sys.y, event, r.value.y.state);
    }
  }

  lemma {:induction false} SystemRunInv(ox: Options, oy: Options, events: seq<SystemEvent>)
    requires ox.modulus > 0 && oy.modulus > 0
    ensures var r := SystemRun(ox, oy, events); r.Some? ==> SystemInv(r.value, ox, oy)
  {
    if events == [] {
      InitInv(ox);
      InitInv(oy);
    } else {
      SystemRunInv(ox, oy, events[..|events| - 1]);
      var sys := SystemRun(ox, oy, events[..|events| - 1]);
      if sys.Some? { SystemStepInv(sys.value, ox, oy, events[|events| - 1]); }
    }
  }

  // ---------------------------------------------------------------- Ack soundness

  lemma {:induction false} NonIdleMember(sent: seq<Packet>, q: Packet) returns (k: nat)
    requires q in sent && q.fragment.Some?
    ensures k < |NonIdle(sent)| && NonIdle(sent)[k] == q
  {
    var last := sent[|sent| - 1];
    assert sent == sent[..|sent| - 1] + [last];
    if last == q {
      k := |NonIdle(sent)| - 1;
    } else {
      k := NonIdleMember(sent[..|sent| - 1], q);
    }
  }

  lemma {:induction false} SentAck(sent: seq<Packet>, q: Packet, k: nat)
    requires q in sent && k in q.acks
    ensures k in AllAcks(sent)
  {
    var last := sent[|sent| - 1];
    assert sent == sent[..|sent| - 1] + [last];
    if last != q {
      SentAck(sent[..|sent| - 1], q, k);
    }
  }

  /** `p` is transmission number `n`, as it may arrive. */
  predicate IsArrival(l: Ledger, modulus: nat, p: Packet, n: nat)
    requires modulus > 0 && n < |l.log| && ValidId(l, l.log[n])
  {
    CopyOf(l.pkts[l.log[n].pkt].frags[l.log[n].ord], p) && p.txSequence == Some(n % modulus)
  }

  /** The transmission numbered `n` has reached the other end. */
  predicate Arrived(l: Ledger, modulus: nat, got: seq<Packet>, n: nat)
    requires modulus > 0
  {
    n < |l.log| && ValidId(l, l.log[n]) && exists p :: p in got && IsArrival(l, modulus, p, n)
  }

  /** A packet with a fragment that the other end got is a transmission of this end. */
  lemma GotIsTransmission(s: State, o: Options, got: seq<Packet>, p: Packet) returns (n: nat)
    requires Inv(s, o) && Carried(s.sent, got) && p in got && p.fragment.Some?
    ensures n < |s.ledger.log| && ValidId(s.ledger, s.ledger.log[n]) && IsArrival(s.ledger, o.modulus, p, n)
  {
    var q :| q in s.sent && OnWire(q, p);
    n := NonIdleMember(s.sent, q);
    var l := s.ledger;
    assert ValidId(l, l.log[n]) && IsTransmission(l, o, q, n);
  }

  lemma SmallIsOwnResidue(a: nat, b: nat, modulus: nat)
    requires a < modulus && b < modulus && a % modulus == b % modulus
    ensures a == b
  {
  }

  /** While the TxSequences last, an acknowledged transmission has arrived. */
  lemma AckedArrived(e: End, o: Options, f: End, n: nat)
    requires EndInv(e, o) && AcksAreForReceived(f) && FifoInv(f.state)
    requires Carried(e.state.sent, f.got) && Carried(f.state.sent, e.got)
    requires |e.state.ledger.log| <= o.modulus && n in e.state.ledger.acked
    ensures Arrived(e.state.ledger, o.modulus, f.got, n)
  {
    var p :| p in e.got && n % o.modulus in p.acks;
    var q :| q in f.state.sent && OnWire(q, p);
    SentAck(f.state.sent, q, n % o.modulus);
    assert n % o.modulus in f.state.heard;
    var r :| r in f.got && r.fragment.Some? && r.txSequence == Some(n % o.modulus);
    var m := GotIsTransmission(e.state, o, f.got, r);
    SmallIsOwnResidue(m, n, o.modulus);
  }

  /** The peer has a copy of every fragment of packet `id`. */
  predicate PeerHasAll(l: Ledger, got: seq<Packet>, id: nat)
    requires id < |l.pkts|
  {
    forall f :: f in l.pkts[id].frags ==> exists p :: p in got && CopyOf(f, p)
  }

  lemma CountedArrived(e: End, o: Options, f: End, id: nat)
    requires EndInv(e, o) && AcksAreForReceived(f) && FifoInv(f.state)
    requires Carried(e.state.sent, f.got) && Carried(f.state.sent, e.got)
    requires |e.state.ledger.log| <= o.modulus && id < |e.state.ledger.pkts| && Received(e.state.ledger.pkts[id].status)
    ensures PeerHasAll(e.state.ledger, f.got, id)
  {
    var l := e.state.ledger;
    forall g | g in l.pkts[id].frags ensures exists p :: p in f.got && CopyOf(g, p) {
      var ord :| 0 <= ord < |l.pkts[id].frags| && l.pkts[id].frags[ord] == g;
      assert ValidId(l, FragId(id, ord)) && Covered(l, FragId(id, ord));
      var a :| a in l.acked && a < |l.log| && l.log[a] == FragId(id, ord);
      AckedArrived(e, o, f, a);
      var p :| p in f.got && IsArrival(l, o.modulus, p, a);
    }
  }

  /** In every run in which an end has used at most `modulus` TxSequences, whenever it counts a packet as
      acknowledged or retransmitted, its peer's processIncomingPacket() has received a copy of every
      fragment of it. */
  lemma AckSoundness(ox: Options, oy: Options, events: seq<SystemEvent>, id: nat)
    requires ox.modulus > 0 && oy.modulus > 0 && SystemRun(ox, oy, events).Some?
    ensures var sys := SystemRun(ox, oy, events).value;
            && (var l := sys.x.state.ledger;
                |l.log| <= ox.modulus && id < |l.pkts| && Received(l.pkts[id].status) ==> PeerHasAll(l, sys.y.got, id))
            && (var l := sys.y.state.ledger;
                |l.log| <= oy.modulus && id < |l.pkts| && Received(l.pkts[id].status) ==> PeerHasAll(l, sys.x.got, id))
  {
    SystemRunInv(ox, oy, events);
    var sys := SystemRun(ox, oy, events).value;
    var l := sys.x.state.ledger;
    if |l.log| <= ox.modulus && id < |l.pkts| && Received(l.pkts[id].status) {
      CountedArrived(sys.x, ox, sys.y, id);
    }
    l := sys.y.state.ledger;
    if |l.log| <= oy.modulus && id < |l.pkts| && Received(l.pkts[id].status) {
      CountedArrived(sys.y, oy, sys.x, id);
    }
  }
}
