/** What the invariant of LpReliability means for its users: conservation of packets, the loss rule,
    the retransmission bound and the draining of the window. */
module ReliabilityTheorems {
  import opened Packets
  import opened ReliabilitySpec
  import opened ReliabilityInvariants

  // ---------------------------------------------------------------- conservation

  function CountStatus(pkts: seq<NetPacket>, status: Status): nat
  {
    if pkts == [] then 0
    else CountStatus(pkts[..|pkts| - 1], status) + if pkts[|pkts| - 1].status == status then 1 else 0
  }

  /** The packets that have a fragment in the send window. */
  function PacketsInWindow(w: seq<Tx>): set<nat>
  {
    set tx | tx in w :: tx.frag.netPkt
  }

  function IdsWithStatus(pkts: seq<NetPacket>, status: Status): set<nat>
  {
    set k | 0 <= k < |pkts| && pkts[k].status == status
  }

  lemma {:induction false} CountIsCardinality(pkts: seq<NetPacket>, status: Status)
    ensures |IdsWithStatus(pkts, status)| == CountStatus(pkts, status)
  {
    if pkts == [] {
      assert IdsWithStatus(pkts, status) == {};
    } else {
      CountIsCardinality(pkts[..|pkts| - 1], status);
      IdsWithStatusLast(pkts, status);
    }
  }

  lemma IdsWithStatusLast(pkts: seq<NetPacket>, status: Status)
    requires pkts != []
    ensures IdsWithStatus(pkts, status) == IdsWithStatus(pkts[..|pkts| - 1], status) +
                                           if pkts[|pkts| - 1].status == status then {|pkts| - 1} else {}
  {
    var v := pkts[..|pkts| - 1];
    forall k ensures k in IdsWithStatus(pkts, status) <==>
                     k in IdsWithStatus(v, status) || (k == |v| && pkts[|v|].status == status)
    {
      if 0 <= k < |v| { assert pkts[k] == v[k]; }
    }
  }

  lemma {:induction false} StatusesPartition(pkts: seq<NetPacket>)
    ensures |pkts| == CountStatus(pkts, Acknowledged) + CountStatus(pkts, Retransmitted)
                      + CountStatus(pkts, Exhausted) + CountStatus(pkts, InFlight)
  {
    if pkts != [] {
      StatusesPartition(pkts[..|pkts| - 1]);
    }
  }

  /** After every run: packets given to handleOutgoing() = nAcknowledged + nRetransmitted +
      nRetxExhausted + packets with a fragment in the window. */
  lemma PacketConservation(o: Options, events: seq<Event>)
    requires o.modulus > 0 && Run(o, events).Some?
    ensures var l := Run(o, events).value.ledger;
            |l.pkts| == CountStatus(l.pkts, Acknowledged) + CountStatus(l.pkts, Retransmitted)
                        + CountStatus(l.pkts, Exhausted) + |PacketsInWindow(l.window)|
  {
    RunInv(o, events);
    var l := Run(o, events).value.ledger;
    StatusesPartition(l.pkts);
    CountIsCardinality(l.pkts, InFlight);
    WindowIsInFlight(l, o);
  }

  lemma WindowIsInFlight(l: Ledger, o: Options)
    requires o.modulus > 0 && TxInv(l, o) && FlightInv(l)
    ensures PacketsInWindow(l.window) == IdsWithStatus(l.pkts, InFlight)
  {
    forall k ensures k in PacketsInWindow(l.window) <==> k in IdsWithStatus(l.pkts, InFlight) {
      if k in PacketsInWindow(l.window) {
        var tx :| tx in l.window && tx.frag.netPkt == k;
        assert LinkedTx(l, o, tx);
      }
      if k in IdsWithStatus(l.pkts, InFlight) {
        var n :| n in NumbersOf(l.window, k);
        var tx :| tx in l.window && tx.frag.netPkt == k && tx.n == n;
      }
    }
  }

  /** After every run: onDroppedInterest fired exactly once per exhausted Interest, never for a packet
      counted as received; and a packet counted as received had every fragment acknowledged. */
  lemma OutcomesAreSound(o: Options, events: seq<Event>, id: nat)
    requires o.modulus > 0 && Run(o, events).Some? && id < |Run(o, events).value.ledger.pkts|
    ensures var l := Run(o, events).value.ledger;
            && multiset(l.dropped)[id] == (if l.pkts[id].status == Exhausted && l.pkts[id].isInterest then 1 else 0)
            && (Received(l.pkts[id].status) ==>
                  forall ord :: 0 <= ord < |l.pkts[id].frags| ==> AckedFrag(l, FragId(id, ord)))
  {
    RunInv(o, events);
    var l := Run(o, events).value.ledger;
    DistinctCount(l.dropped, id);
    if Received(l.pkts[id].status) {
      forall ord | 0 <= ord < |l.pkts[id].frags| ensures AckedFrag(l, FragId(id, ord)) {
        assert ValidId(l, FragId(id, ord)) && Covered(l, FragId(id, ord));
      }
    }
  }

  lemma {:induction false} DistinctCount(xs: seq<nat>, x: nat)
    requires Distinct(xs)
    ensures multiset(xs)[x] == if x in xs then 1 else 0
  {
    if xs != [] {
      var v := xs[..|xs| - 1];
      assert xs == v + [xs[|xs| - 1]];
      DistinctCount(v, x);
    }
  }

  // ---------------------------------------------------------------- retransmission bound

  /** After every run, the packets passed to sendLpPacket() that carry a fragment are the logged
      transmissions in order, and no fragment is among them more than maxRetx + 1 times. */
  lemma RetransmissionBound(o: Options, events: seq<Event>, id: FragId)
    requires o.modulus > 0 && Run(o, events).Some?
    ensures var s := Run(o, events).value;
            && |NonIdle(s.sent)| == |s.ledger.log|
            && LogInv(s.ledger)
            && (forall k :: 0 <= k < |s.ledger.log| ==> IsTransmission(s.ledger, o, NonIdle(s.sent)[k], k))
            && Transmissions(s.ledger.log, id) <= o.maxRetx + 1
  {
    RunInv(o, events);
  }

  // ---------------------------------------------------------------- loss rule

  /** The Ack of the entry at position `i` declares an entry lost exactly when that entry was numbered
      before it and it is the threshold-th distinct later transmission acknowledged. */
  lemma LossRule(s: State, o: Options, i: nat, tx: Tx)
    requires Inv(s, o) && i < |s.ledger.window| && o.seqNumLossThreshold > 0 && tx in s.ledger.window
    ensures var a := s.ledger.window[i].n;
            tx in LostBy(s.ledger, o, i) <==>
              tx.n < a && |Later(s.ledger.acked + {a}, tx.n)| == o.seqNumLossThreshold
  {
    var l := s.ledger;
    assert l.window[i] in l.window;
    LostMembers(l.window, i, o.seqNumLossThreshold);
    LaterGrows(l.acked, l.window[i].n, tx.n);
    BeforeIsSmaller(l.window, i, tx);
    assert !Among([], tx.n);
  }

  lemma BeforeIsSmaller(w: seq<Tx>, i: nat, tx: Tx)
    requires Increasing(w) && i < |w| && tx in w
    ensures tx in w[..i] <==> tx.n < w[i].n
  {
    var j :| 0 <= j < |w| && w[j] == tx;
    if j < i { assert w[..i][j] == tx; }
  }

  // ---------------------------------------------------------------- draining

  function Weight(tx: Tx, o: Options): nat
  {
    if tx.frag.retxCount <= o.maxRetx then o.maxRetx + 1 - tx.frag.retxCount else 0
  }

  /** Transmissions and Acks the window can still cause. */
  function Potential(w: seq<Tx>, o: Options): nat
  {
    if w == [] then 0 else Potential(w[..|w| - 1], o) + Weight(w[|w| - 1], o)
  }

  lemma PotentialAppend(w: seq<Tx>, tx: Tx, o: Options)
    ensures Potential(w + [tx], o) == Potential(w, o) + Weight(tx, o)
  {
    assert (w + [tx])[..|w + [tx]| - 1] == w;
  }

  lemma {:induction false} PotentialWithout(w: seq<Tx>, gone: set<nat>, o: Options)
    ensures Potential(Without(w, gone), o) <= Potential(w, o)
    ensures forall tx :: tx in w && tx.n in gone ==> Potential(Without(w, gone), o) + Weight(tx, o) <= Potential(w, o)
  {
    if w != [] {
      var v, last := w[..|w| - 1], w[|w| - 1];
      assert w == v + [last];
      PotentialWithout(v, gone, o);
      if last.n !in gone { PotentialAppend(Without(v, gone), last, o); }
    }
  }

  lemma {:induction false} PotentialBump(w: seq<Tx>, i: nat, o: Options)
    requires i <= |w|
    ensures Potential(Bump(w, i), o) == Potential(w, o)
  {
    if w != [] {
      var v := w[..|w| - 1];
      var k := if i <= |v| then i else |v|;
      PotentialBump(v, k, o);
      assert Bump(w, i)[..|w| - 1] == Bump(v, k);
    }
  }

  /** What draining needs of a state: known packets and bounded retransmission counts. */
  predicate Bounded(l: Ledger, o: Options)
  {
    Linked(l) && forall tx :: tx in l.window ==> tx.frag.retxCount <= o.maxRetx
  }

  lemma OnLostDrains(s: State, o: Options, i: nat)
    requires o.modulus > 0 && Bounded(s.ledger, o) && i < |s.ledger.window| && OnLost(s, o, i).Some?
    ensures var l := OnLost(s, o, i).value.ledger;
            Bounded(l, o) && Potential(l.window, o) < Potential(s.ledger.window, o)
  {
    var l := s.ledger;
    var tx := l.window[i];
    assert tx in l.window;
    if tx.frag.retxCount >= o.maxRetx {
      assert tx.n in NumbersOf(l.window, tx.frag.netPkt);
      PotentialWithout(l.window, NumbersOf(l.window, tx.frag.netPkt), o);
    } else {
      PotentialWithout(l.window, {tx.n}, o);
      var again := Renumber(l, o, i).window[|Release(l, i).window|];
      PotentialAppend(Release(l, i).window, again, o);
    }
  }

  lemma {:induction false} ProcessLostDrains(s: State, o: Options, lost: seq<Tx>)
    requires o.modulus > 0 && Bounded(s.ledger, o) && ProcessLost(s, o, lost).Some?
    ensures Potential(ProcessLost(s, o, lost).value.ledger.window, o) <= Potential(s.ledger.window, o)
    decreases lost
  {
    if lost != [] {
      match FindNumber(s.ledger.window, lost[0].n)
      case None =>
        ProcessLostDrains(s, o, lost[1..]);
      case Some(i) =>
        OnLostDrains(s, o, i);
        ProcessLostDrains(OnLost(s, o, i).value, o, lost[1..]);
    }
  }

  predicate Matches(s: State, ack: nat)
  {
    exists tx :: tx in s.ledger.window && tx.key == ack
  }

  lemma ProcessAckDrains(s: State, o: Options, ack: nat)
    requires Inv(s, o) && Linked(s.ledger) && ProcessAck(s, o, ack).Some?
    ensures var t := ProcessAck(s, o, ack).value;
            if Matches(s, ack) then Potential(t.ledger.window, o) < Potential(s.ledger.window, o) else t == s
  {
    match FindKey(s.ledger.window, ack)
    case None =>
    case Some(i) =>
      assert s.ledger.window[i] in s.ledger.window;
      AckAtDrains(s.ledger, o, i);
      ProcessLostDrains(s.(ledger := AckAt(s.ledger, i)), o, LostBy(s.ledger, o, i));
  }

  lemma AckAtDrains(l: Ledger, o: Options, i: nat)
    requires Bounded(l, o) && i < |l.window|
    ensures var m := AckAt(l, i); Bounded(m, o) && Potential(m.window, o) < Potential(l.window, o)
  {
    var b := Bump(l.window, i);
    assert b[i] in b && b[i] == l.window[i];
    PotentialBump(l.window, i, o);
    PotentialWithout(b, {l.window[i].n}, o);
    forall tx | tx in b ensures tx.frag.retxCount <= o.maxRetx {
      var j :| 0 <= j < |b| && b[j] == tx;
      assert l.window[j] in l.window;
    }
  }

  lemma {:induction false} ProcessAcksDrain(s: State, o: Options, acks: seq<nat>)
    requires Inv(s, o) && Linked(s.ledger) && ProcessAcks(s, o, acks).Some?
    ensures var t := ProcessAcks(s, o, acks).value;
            if exists a :: a in acks && Matches(s, a)
            then Potential(t.ledger.window, o) < Potential(s.ledger.window, o) else t == s
    decreases acks
  {
    if acks != [] {
      assert acks == [acks[0]] + acks[1..];
      ProcessAckDrains(s, o, acks[0]);
      ProcessAckInv(s, o, acks[0]);
      ProcessAcksDrain(ProcessAck(s, o, acks[0]).value, o, acks[1..]);
    }
  }

  /** An event that concerns the window: a timer firing, or an Ack of a transmission in the window. */
  predicate Effective(s: State, e: Event)
  {
    match e
    case SendEvent(_, _, _) => false
    case ReceiveEvent(p) => exists a :: a in p.acks && Matches(s, a)
    case RtoEvent(_) => true
    case IdleEvent => false
  }

  /** Without new traffic, every timer firing and every matching Ack strictly lowers the potential,
      and nothing raises it. */
  lemma StepDrains(s: State, o: Options, e: Event)
    requires Inv(s, o) && Linked(s.ledger) && Enabled(s, e) && !e.SendEvent? && Step(s, o, e).Some?
    ensures var t := Step(s, o, e).value;
            if Effective(s, e) then Potential(t.ledger.window, o) < Potential(s.ledger.window, o)
            else t.ledger == s.ledger
  {
    match e
    case ReceiveEvent(p) => ProcessAcksDrain(s, o, p.acks);
    case RtoEvent(n) =>
      match FindNumber(s.ledger.window, n) {
        case Some(i) => OnLostDrains(s, o, i);
        case None =>
      }
    case IdleEvent =>
  }

  /** Continuing from `s`; None as for Run. */
  function Continue(s: State, o: Options, events: seq<Event>): (r: Option<State>)
    requires o.modulus > 0 && Linked(s.ledger)
    ensures r.Some? ==> Linked(r.value.ledger)
    decreases events
  {
    if events == [] then Some(s)
    else if !Enabled(s, events[0]) then None
    else
      var t := Step(s, o, events[0]);
      if t.None? then None else Continue(t.value, o, events[1..])
  }

  function EffectiveEvents(s: State, o: Options, events: seq<Event>): nat
    requires o.modulus > 0 && Linked(s.ledger)
    decreases events
  {
    if events == [] then 0
    else
      var t := Step(s, o, events[0]);
      (if Effective(s, events[0]) then 1 else 0) +
      if t.None? then 0 else EffectiveEvents(t.value, o, events[1..])
  }

  /** With no new traffic, the timer firings and matching Acks of any run are bounded by the potential
      of the window it starts with, and a run that uses all of it ends with the window empty. */
  lemma {:induction false} WindowDrains(s: State, o: Options, events: seq<Event>)
    requires Inv(s, o) && Linked(s.ledger) && Continue(s, o, events).Some?
    requires forall e :: e in events ==> !e.SendEvent?
    ensures var t := Continue(s, o, events).value;
            && EffectiveEvents(s, o, events) + Potential(t.ledger.window, o) <= Potential(s.ledger.window, o)
            && (EffectiveEvents(s, o, events) == Potential(s.ledger.window, o) ==> t.ledger.window == [])
    decreases events
  {
    if events != [] {
      assert events[0] in events;
      StepDrains(s, o, events[0]);
      StepInv(s, o, events[0]);
      WindowDrains(Step(s, o, events[0]).value, o, events[1..]);
    }
    ContinueInv(s, o, events);
    var t := Continue(s, o, events).value;
    if t.ledger.window != [] {
      var tx := t.ledger.window[|t.ledger.window| - 1];
      assert tx in t.ledger.window;
      assert Weight(tx, o) > 0;
    }
  }

  lemma {:induction false} ContinueInv(s: State, o: Options, events: seq<Event>)
    requires Inv(s, o) && Linked(s.ledger) && Continue(s, o, events).Some?
    ensures Inv(Continue(s, o, events).value, o)
    decreases events
  {
    if events != [] {
      StepInv(s, o, events[0]);
      ContinueInv(Step(s, o, events[0]).value, o, events[1..]);
    }
  }
}
