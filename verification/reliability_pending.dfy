/** The loop of processIncomingPacket() over the fragments one Ack declared lost: a fragment whose packet
    was given up earlier in the same loop must be skipped, and the program recognises it by its TxSequence. */
module ReliabilityPending {
  import opened Packets
  import opened ReliabilitySpec
  import opened ReliabilityInvariants
  import opened ReliabilityStore
  import opened TxWindow
  import AckQueue

  /** Of the fragments still to be handled, `removed` holds the TxSequences of exactly those that have
      left the window. */
  ghost predicate Pending(l: Ledger, o: Options, rest: seq<Tx>, removed: set<nat>)
    requires o.modulus > 0
  {
    forall tx :: tx in rest ==>
      tx.n < |l.log| && tx.key == tx.n % o.modulus && (tx.key in removed <==> !Among(l.window, tx.n))
  }

  /** `m` holds no number of `l`'s past that `l` does not hold. */
  ghost predicate NoneBack(l: Ledger, m: Ledger)
  {
    |l.log| <= |m.log| && forall tx :: tx in m.window && tx.n < |l.log| ==> Among(l.window, tx.n)
  }

  lemma ExhaustShape(l: Ledger, o: Options, id: nat)
    requires Shape(l, o) && id < |l.pkts|
    ensures Shape(Exhaust(l, id), o)
    ensures NoneBack(l, Exhaust(l, id))
  {
    ExhaustWindow(l, o, id);
  }

  lemma RenumberShape(l: Ledger, o: Options, i: nat)
    requires Shape(l, o) && i < |l.window| && !Full(l, o)
    ensures Shape(Renumber(l, o, i), o)
    ensures NoneBack(l, Renumber(l, o, i))
  {
    RenumberWindow(l, o, i);
    RenumberKeys(l, o, i);
    RenumberTx(l, o, i);
    var m := Renumber(l, o, i);
    assert forall tx :: tx in m.window ==> tx in l.window || tx.n == |l.log|;
  }

  /** After onLpPacketLost() the window is still well-formed, and holds no old number it did not hold before. */
  lemma LostKeepsShape(s: State, o: Options, i: nat, t: State)
    requires Shape(s.ledger, o) && i < |s.ledger.window| && LostOutcome(s, o, i, true, t)
    ensures Shape(t.ledger, o) && NoneBack(s.ledger, t.ledger)
  {
    assert s.ledger.window[i] in s.ledger.window;
    if s.ledger.window[i].frag.retxCount >= o.maxRetx {
      ExhaustShape(s.ledger, o, s.ledger.window[i].frag.netPkt);
    } else {
      RenumberShape(s.ledger, o, i);
    }
  }

  lemma AckAtShape(l: Ledger, o: Options, i: nat)
    requires Shape(l, o) && i < |l.window|
    ensures Shape(AckAt(l, i), o)
  {
    AckAtWindow(l, o, i);
    AckAtKeys(l, o, i);
    AckAtTx(l, o, i);
  }

  /** The fragments an Ack declares lost are all in the window that the Ack leaves. */
  lemma PendingStart(l: Ledger, o: Options, i: nat)
    requires Shape(l, o) && i < |l.window|
    ensures Pending(AckAt(l, i), o, LostBy(l, o, i), {})
  {
    LostMembers(l.window, i, o.seqNumLossThreshold);
    AckAtMembers(l, i);
    forall tx | tx in LostBy(l, o, i)
      ensures tx.n < |l.log| && tx.key == tx.n % o.modulus && Among(AckAt(l, i).window, tx.n)
    {
      assert tx in l.window[..i];
      var j :| 0 <= j < i && l.window[j] == tx;
      assert tx in l.window;
      assert Bump(l.window, i)[j] in AckAt(l, i).window;
    }
  }

  lemma SameNumberSameKey(w: seq<Tx>, tx: Tx, modulus: nat) returns (u: Tx)
    requires modulus > 0 && KeyInv(w, modulus) && tx.key == tx.n % modulus && Among(w, tx.n)
    ensures u in w && u.n == tx.n && u.key == tx.key
  {
    u :| u in w && u.n == tx.n;
  }

  lemma PendingStep(l: Ledger, m: Ledger, o: Options, rest: seq<Tx>, removed: set<nat>, more: set<nat>)
    requires o.modulus > 0 && Pending(l, o, rest, removed) && KeyInv(l.window, o.modulus)
    requires RemovedKeys(l.window, m.window, more) && NoneBack(l, m)
    ensures Pending(m, o, rest, removed + more)
  {
    forall tx | tx in rest ensures tx.key in removed + more <==> !Among(m.window, tx.n) {
      if Among(l.window, tx.n) {
        var u := SameNumberSameKey(l.window, tx, o.modulus);
      }
    }
  }

  lemma PendingRest(l: Ledger, o: Options, rest: seq<Tx>, removed: set<nat>)
    requires o.modulus > 0 && Pending(l, o, rest, removed) && rest != []
    ensures Pending(l, o, rest[1..], removed)
  {
  }

  /** `ok` and `t` are what one turn of the loop makes of `s`: the rest of the loop goes on from `t`. */
  ghost predicate LostStep(s: State, o: Options, rest: seq<Tx>, ok: bool, t: State)
    requires o.modulus > 0 && Linked(s.ledger) && rest != []
  {
    if ok then Shape(t.ledger, o) && ProcessLost(s, o, rest) == ProcessLost(t, o, rest[1..])
    else ProcessLost(s, o, rest) == None
  }

  lemma SkipLost(s: State, o: Options, rest: seq<Tx>)
    requires Shape(s.ledger, o) && rest != [] && !Among(s.ledger.window, rest[0].n)
    ensures LostStep(s, o, rest, true, s)
  {
    assert FindNumber(s.ledger.window, rest[0].n).None?;
  }

  lemma HandleLost(s: State, o: Options, rest: seq<Tx>, i: nat, ok: bool, t: State, removed: set<nat>, more: set<nat>)
    requires Shape(s.ledger, o) && rest != [] && Pending(s.ledger, o, rest, removed)
    requires FindNumber(s.ledger.window, rest[0].n) == Some(i) && LostOutcome(s, o, i, ok, t)
    requires ok ==> RemovedKeys(s.ledger.window, t.ledger.window, more)
    ensures LostStep(s, o, rest, ok, t)
    ensures ok ==> Pending(t.ledger, o, rest[1..], removed + more)
  {
    OutcomeIsOnLost(s, o, i, ok, t);
    if ok {
      LostKeepsShape(s, o, i, t);
      PendingRest(s.ledger, o, rest, removed);
      PendingStep(s.ledger, t.ledger, o, rest[1..], removed, more);
    }
  }

  /** The position of a fragment that is still in the window. */
  lemma FindPending(l: Ledger, o: Options, rest: seq<Tx>, removed: set<nat>) returns (i: nat)
    requires o.modulus > 0 && KeyInv(l.window, o.modulus) && Pending(l, o, rest, removed)
    requires rest != [] && rest[0].key !in removed
    ensures i < |l.window| && FindNumber(l.window, rest[0].n) == Some(i) && l.window[i].key == rest[0].key
  {
    assert rest[0] in rest;
    i := FindNumber(l.window, rest[0].n).value;
    assert l.window[i] in l.window;
  }

  // ---------------------------------------------------------------- Acks

  /** `ok` and `t` are what one Ack makes of `s`. */
  ghost predicate AckStep(s: State, o: Options, ackTxSeq: nat, ok: bool, t: State)
    requires o.modulus > 0 && Linked(s.ledger)
  {
    ProcessAck(s, o, ackTxSeq) == (if ok then Some(t) else None) && (ok ==> Shape(t.ledger, o))
  }

  lemma KnownAck(st: Store, l: Ledger, k: nat) returns (i: nat)
    requires Represents(st.frags, st.first, l.window) && k in st.frags
    ensures i < |l.window| && l.window[i].key == k && FindKey(l.window, k) == Some(i)
  {
    var tx :| tx in l.window && tx.key == k;
    i := FindKey(l.window, k).value;
  }

  lemma UnknownAck(st: Store, s: State, o: Options, k: nat)
    requires Represents(st.frags, st.first, s.ledger.window) && Shape(s.ledger, o) && k !in st.frags
    ensures AckStep(s, o, k, true, s)
  {
    var i := FindKey(s.ledger.window, k);
    assert forall tx :: tx in s.ledger.window ==> tx.key in st.frags;
    assert i.None?;
  }

  /** The same for an Ack of the entry at position `i`. */
  ghost predicate AckTaken(s: State, o: Options, i: nat, ok: bool, t: State)
    requires o.modulus > 0 && Linked(s.ledger) && i < |s.ledger.window|
  {
    ProcessLost(s.(ledger := AckAt(s.ledger, i)), o, LostBy(s.ledger, o, i)) == (if ok then Some(t) else None)
  }

  lemma KnownAckStep(s: State, o: Options, k: nat, i: nat, ok: bool, t: State)
    requires o.modulus > 0 && Linked(s.ledger) && i < |s.ledger.window| && FindKey(s.ledger.window, k) == Some(i)
    requires AckTaken(s, o, i, ok, t) && (ok ==> Shape(t.ledger, o))
    ensures AckStep(s, o, k, ok, t)
  {
  }

  /** What the loop over lost fragments starts from. */
  ghost predicate AckLeft(s: State, o: Options, i: nat, t: State, lost: seq<Tx>)
    requires Linked(s.ledger) && i < |s.ledger.window|
  {
    t == s.(ledger := AckAt(s.ledger, i)) && lost == LostBy(s.ledger, o, i)
  }

  lemma AckLeaves(s: State, o: Options, i: nat) returns (t: State, lost: seq<Tx>)
    requires Shape(s.ledger, o) && i < |s.ledger.window|
    ensures AckLeft(s, o, i, t, lost)
    ensures t.ledger == AckAt(s.ledger, i) && t.ackQueue == s.ackQueue && t.sent == s.sent
    ensures Shape(t.ledger, o) && Pending(t.ledger, o, lost, {})
  {
    t, lost := s.(ledger := AckAt(s.ledger, i)), LostBy(s.ledger, o, i);
    AckAtShape(s.ledger, o, i);
    PendingStart(s.ledger, o, i);
  }

  lemma AckDone(s: State, o: Options, i: nat, s': State, lost: seq<Tx>, ok: bool, t: State)
    requires o.modulus > 0 && Linked(s.ledger) && i < |s.ledger.window| && AckLeft(s, o, i, s', lost)
    requires Linked(s'.ledger) && ProcessLost(s', o, lost) == if ok then Some(t) else None
    ensures AckTaken(s, o, i, ok, t)
  {
  }

  /** The loop over the Acks of a packet: `s` with all of `acks` comes to the same as `t` with `todo`. */
  ghost predicate AcksLeft(s: State, o: Options, acks: seq<nat>, t: State, todo: seq<nat>)
    requires o.modulus > 0 && Linked(s.ledger)
  {
    Shape(t.ledger, o) && ProcessAcks(s, o, acks) == ProcessAcks(t, o, todo)
  }

  ghost predicate AcksDone(s: State, o: Options, acks: seq<nat>, ok: bool, t: State)
    requires o.modulus > 0 && Linked(s.ledger)
  {
    ProcessAcks(s, o, acks) == if ok then Some(t) else None
  }

  lemma NextAck(s: State, o: Options, acks: seq<nat>, u: State, todo: seq<nat>, ok: bool, t: State)
    requires o.modulus > 0 && Linked(s.ledger) && AcksLeft(s, o, acks, u, todo) && todo != []
    requires AckStep(u, o, todo[0], ok, t)
    ensures if ok then AcksLeft(s, o, acks, t, todo[1..]) else AcksDone(s, o, acks, ok, t)
  {
  }

  // Acks leave the queue while lost fragments are sent again; none enters it.

  lemma {:induction false} LostQueue(s: State, o: Options, lost: seq<Tx>)
    requires o.modulus > 0 && Linked(s.ledger)
    ensures var r := ProcessLost(s, o, lost); r.Some? ==> |r.value.ackQueue| <= |s.ackQueue|
    decreases lost
  {
    if lost != [] {
      match FindNumber(s.ledger.window, lost[0].n)
      case None => LostQueue(s, o, lost[1..]);
      case Some(i) =>
        var t := OnLost(s, o, i);
        if t.Some? { LostQueue(t.value, o, lost[1..]); }
    }
  }

  lemma {:induction false} AcksQueue(s: State, o: Options, acks: seq<nat>)
    requires o.modulus > 0 && Linked(s.ledger)
    ensures var r := ProcessAcks(s, o, acks); r.Some? ==> |r.value.ackQueue| <= |s.ackQueue|
    decreases acks
  {
    if acks != [] {
      match FindKey(s.ledger.window, acks[0])
      case None => AcksQueue(s, o, acks[1..]);
      case Some(i) =>
        var u := s.(ledger := AckAt(s.ledger, i));
        LostQueue(u, o, LostBy(s.ledger, o, i));
        var t := ProcessAck(s, o, acks[0]);
        if t.Some? { AcksQueue(t.value, o, acks[1..]); }
    }
  }

  lemma ReceiveResult(s: State, o: Options, p: Packet, ok: bool, u: State) returns (t: State)
    requires o.modulus > 0 && Linked(s.ledger) && AcksDone(s, o, p.acks, ok, u)
    ensures Happens(s, o, ReceiveEvent(p), ok, t)
    ensures t.ledger == u.ledger && t.sent == u.sent && t.ackQueue == u.ackQueue + AckFor(p)
    ensures ok ==> |u.ackQueue| <= |s.ackQueue|
  {
    t := QueueAck(u, p);
    AcksQueue(s, o, p.acks);
  }

  // ---------------------------------------------------------------- outgoing packets

  /** Fragments with consecutive TxSequences. */
  function WithTxSequences(frags: seq<Packet>, first: nat, modulus: nat): seq<Packet>
    requires modulus > 0
  {
    seq(|frags|, j requires 0 <= j < |frags| => frags[j].(txSequence := Some((first + j) % modulus)))
  }

  lemma WithTxSequencesNext(frags: seq<Packet>, j: nat, first: nat, modulus: nat)
    requires modulus > 0 && j < |frags|
    ensures WithTxSequences(frags[..j + 1], first, modulus)
            == WithTxSequences(frags[..j], first, modulus) + [frags[j].(txSequence := Some((first + j) % modulus))]
  {
  }

  /** The loop of handleOutgoing() before fragment `j`, when `m` is the ledger so far. */
  ghost predicate FragsLeft(l: Ledger, o: Options, frags: seq<Packet>, pkt: Packet, isInterest: bool, m: Ledger, j: nat)
    requires o.modulus > 0 && Linked(l) && Linked(m)
  {
    && j <= |frags| && |l.pkts| < |m.pkts| && |m.log| == |l.log| + j
    && HandleOutgoing(l, o, frags, pkt, isInterest) == AddFrags(m, o, |l.pkts|, frags, j)
  }

  lemma NextFrag(l: Ledger, o: Options, frags: seq<Packet>, pkt: Packet, isInterest: bool, m: Ledger, j: nat)
    requires o.modulus > 0 && Linked(l) && Linked(m) && j < |frags| && FragsLeft(l, o, frags, pkt, isInterest, m, j)
    ensures Full(m, o) ==> HandleOutgoing(l, o, frags, pkt, isInterest) == None
    ensures var m' := AddTx(m, o, FragId(|l.pkts|, j), frags[j], 0);
            Linked(m') && (!Full(m, o) ==> FragsLeft(l, o, frags, pkt, isInterest, m', j + 1))
    ensures WithTxSequences(frags[..j + 1], |l.log|, o.modulus)
            == WithTxSequences(frags[..j], |l.log|, o.modulus) + [frags[j].(txSequence := Some(|m.log| % o.modulus))]
  {
    WithTxSequencesNext(frags, j, |l.log|, o.modulus);
  }

  /** The ledger after fragment `j`. */
  lemma NextLedger(l: Ledger, o: Options, frags: seq<Packet>, pkt: Packet, isInterest: bool, m: Ledger, j: nat)
    returns (m': Ledger)
    requires o.modulus > 0 && Linked(l) && Linked(m) && j < |frags| && FragsLeft(l, o, frags, pkt, isInterest, m, j)
    ensures m' == AddTx(m, o, FragId(|l.pkts|, j), frags[j], 0) && Linked(m') && |m'.pkts| == |m.pkts|
    ensures if Full(m, o) then HandleOutgoing(l, o, frags, pkt, isInterest).None?
            else FragsLeft(l, o, frags, pkt, isInterest, m', j + 1)
    ensures WithTxSequences(frags[..j + 1], |l.log|, o.modulus)
            == WithTxSequences(frags[..j], |l.log|, o.modulus) + [frags[j].(txSequence := Some(|m.log| % o.modulus))]
  {
    m' := AddTx(m, o, FragId(|l.pkts|, j), frags[j], 0);
    NextFrag(l, o, frags, pkt, isInterest, m, j);
  }

  lemma AllFrags(l: Ledger, o: Options, frags: seq<Packet>, pkt: Packet, isInterest: bool, m: Ledger)
    requires o.modulus > 0 && Linked(l) && Linked(m) && FragsLeft(l, o, frags, pkt, isInterest, m, |frags|)
    ensures HandleOutgoing(l, o, frags, pkt, isInterest) == Some(m) && frags[..|frags|] == frags
  {
  }

  lemma SendResult(s: State, o: Options, frags: seq<Packet>, pkt: Packet, isInterest: bool, ok: bool, m: Ledger)
    returns (t: State)
    requires o.modulus > 0 && Linked(s.ledger)
    requires HandleOutgoing(s.ledger, o, frags, pkt, isInterest) == if ok then Some(m) else None
    requires frags != [] && forall f :: f in frags ==> PlainFrag(f)
    ensures Happens(s, o, SendEvent(frags, pkt, isInterest), ok, t)
    ensures t == TransmitFrags(s.(ledger := m), o, |s.ledger.log|, frags, 0) && t.ledger == m
  {
    t := TransmitFrags(s.(ledger := m), o, |s.ledger.log|, frags, 0);
  }

  // ---------------------------------------------------------------- timers

  lemma NumberFound(w: seq<Tx>, i: nat)
    requires Increasing(w) && i < |w|
    ensures FindNumber(w, w[i].n) == Some(i)
  {
    assert w[i] in w;
    var j := FindNumber(w, w[i].n).value;
    assert !(j < i) && !(i < j);
  }

  lemma RtoResult(s: State, o: Options, txSeq: nat, i: nat, ok: bool, t: State)
    requires Shape(s.ledger, o) && i < |s.ledger.window| && s.ledger.window[i].key == txSeq
    requires LostOutcome(s, o, i, ok, t)
    ensures s.ledger.window[i].n % o.modulus == txSeq && Happens(s, o, RtoEvent(s.ledger.window[i].n), ok, t)
    ensures ok ==> |t.ackQueue| <= |s.ackQueue|
  {
    var tx := s.ledger.window[i];
    assert tx in s.ledger.window;
    NumberFound(s.ledger.window, i);
    OutcomeIsOnLost(s, o, i, ok, t);
  }

  /** The state after `n` IDLE packets. */
  function SendIdles(s: State, o: Options, n: nat): State
  {
    if n == 0 then s else Transmit(SendIdles(s, o, n - 1), o, EMPTY_PACKET)
  }

  lemma {:induction false} IdlesStuck(s: State, o: Options, n: nat)
    requires o.mtu != MTU_UNLIMITED && o.mtu < 16 && |s.ackQueue| > 0
    ensures SendIdles(s, o, n).ackQueue == s.ackQueue
  {
    if n > 0 {
      IdlesStuck(s, o, n - 1);
      AckQueue.IdleProgress(o.mtu, s.ackQueue);
      assert SendIdles(s, o, n).ackQueue == AckQueue.AfterIdle(o.mtu, SendIdles(s, o, n - 1).ackQueue);
    }
  }

  lemma {:induction false} IdlesProgress(s: State, o: Options, n: nat)
    requires (o.mtu == MTU_UNLIMITED || o.mtu >= 16) && n <= |s.ackQueue|
    ensures |SendIdles(s, o, n).ackQueue| <= |s.ackQueue| - n
  {
    if n > 0 {
      IdlesProgress(s, o, n - 1);
      var queue := SendIdles(s, o, n - 1).ackQueue;
      if queue != [] { AckQueue.IdleProgress(o.mtu, queue); }
    }
  }

  /** The loop of the idle-Ack timer, which sends IDLE packets until no Ack is queued, ends exactly when the MTU
      is unlimited or at least 16. */
  lemma IdleLoopEnds(s: State, o: Options)
    requires |s.ackQueue| > 0
    ensures (exists n: nat :: |SendIdles(s, o, n).ackQueue| == 0) <==> o.mtu == MTU_UNLIMITED || o.mtu >= 16
  {
    if o.mtu == MTU_UNLIMITED || o.mtu >= 16 {
      IdlesProgress(s, o, |s.ackQueue|);
    } else {
      forall n: nat ensures |SendIdles(s, o, n).ackQueue| > 0 {
        IdlesStuck(s, o, n);
      }
    }
  }

  lemma {:induction false} SendIdlesInv(s: State, o: Options, n: nat)
    requires Inv(s, o)
    ensures var t := SendIdles(s, o, n); Inv(t, o) && t.ledger == s.ledger && t.heard == s.heard
  {
    if n > 0 {
      SendIdlesInv(s, o, n - 1);
      IdleStepInv(SendIdles(s, o, n - 1), SendIdles(s, o, n), o);
    }
  }

  lemma IdleStepInv(s: State, t: State, o: Options)
    requires Inv(s, o) && t == Transmit(s, o, EMPTY_PACKET)
    ensures Inv(t, o) && t.ledger == s.ledger && t.heard == s.heard
  {
    TransmitIdleInv(s, o);
  }

  // ---------------------------------------------------------------- runs

  lemma RanShape(o: Options, h: History, s: State)
    requires Ran(o, h, s)
    ensures Shape(s.ledger, o)
  {
    RanInv(o, h, s);
    InvShape(s.ledger, o);
  }

  lemma RanNumbering(o: Options, h: History, s: State)
    requires Ran(o, h, s)
    ensures Numbering(s.ledger, o) && forall k :: k in s.ledger.dropped ==> k < |s.ledger.pkts|
  {
    RanInv(o, h, s);
  }

  lemma RanNext(o: Options, h: History, s: State, e: Event, ok: bool, t: State) returns (h': History)
    requires Ran(o, h, s) && Happens(s, o, e, ok, t)
    ensures ok ==> Ran(o, h', t) && h'.events == h.events + [e]
  {
    h' := History(h.events + [e], h.states + [t]);
    if ok {
      assert Follows(o, s, e, t);
      forall k {:trigger h'.events[k]} | 0 <= k < |h'.events|
        ensures Follows(o, h'.states[k], h'.events[k], h'.states[k + 1])
      {
        if k < |h.events| { assert h'.events[k] == h.events[k]; }
      }
    }
  }

  /** IDLE packets until the queue is empty carry all that was in it. */
  lemma IdlesSendAll(o: Options, h: History, s: State, n: nat)
    requires Ran(o, h, s)
    ensures SendIdles(s, o, n).ledger == s.ledger
    ensures var t := SendIdles(s, o, n); |t.ackQueue| == 0 ==> AllAcks(t.sent) == AllAcks(s.sent) + s.ackQueue
  {
    RanInv(o, h, s);
    SendIdlesInv(s, o, n);
    var t := SendIdles(s, o, n);
    assert FifoInv(s) && FifoInv(t);
    assert |t.ackQueue| == 0 ==> AllAcks(t.sent) + t.ackQueue == AllAcks(t.sent);
  }

  lemma IdleHappens(o: Options, s: State, n: nat)
    requires o.modulus > 0 && Linked(SendIdles(s, o, n).ledger)
    ensures Happens(SendIdles(s, o, n), o, IdleEvent, true, SendIdles(s, o, n + 1))
  {
  }

  lemma {:induction false} RanIdles(o: Options, h: History, s: State, n: nat) returns (h': History)
    requires Ran(o, h, s)
    ensures Ran(o, h', SendIdles(s, o, n))
  {
    h' := h;
    if n > 0 {
      h' := RanIdles(o, h, s, n - 1);
      IdleHappens(o, s, n - 1);
      h' := RanNext(o, h', SendIdles(s, o, n - 1), IdleEvent, true, SendIdles(s, o, n));
    }
  }
}
