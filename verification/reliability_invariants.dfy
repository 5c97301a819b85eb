/** What every operation of LpReliability keeps, for every run in which assignTxSequence() did not throw. */
module ReliabilityInvariants {
  import opened Packets
  import opened ReliabilitySpec
  import AckQueue

  // ---------------------------------------------------------------- the invariant, by concern

  predicate Increasing(w: seq<Tx>)
  {
    forall i, j :: 0 <= i < j < |w| ==> w[i].n < w[j].n
  }

  /** Transmission numbers ascend and span less than the modulus. */
  predicate WindowInv(l: Ledger, o: Options)
  {
    && Increasing(l.window)
    && forall tx :: tx in l.window ==> tx.n < |l.log| <= tx.n + o.modulus
  }

  /** The TxSequence of an entry is its number modulo the modulus. */
  predicate KeyInv(w: seq<Tx>, modulus: nat)
    requires modulus > 0
  {
    forall tx :: tx in w ==> tx.key == tx.n % modulus
  }

  /** A window entry is the transmission of the fragment its number says, of a packet still in flight. */
  predicate LinkedTx(l: Ledger, o: Options, tx: Tx)
    requires o.modulus > 0
  {
    && tx.frag.netPkt < |l.pkts|
    && l.pkts[tx.frag.netPkt].status == InFlight
    && tx.ord < |l.pkts[tx.frag.netPkt].frags|
    && tx.n < |l.log|
    && l.log[tx.n] == FragId(tx.frag.netPkt, tx.ord)
    && tx.frag.pkt == l.pkts[tx.frag.netPkt].frags[tx.ord].(txSequence := Some(tx.key))
  }

  predicate TxInv(l: Ledger, o: Options)
    requires o.modulus > 0
  {
    forall tx :: tx in l.window ==> LinkedTx(l, o, tx)
  }

  /** No fragment is in the window twice. */
  predicate UniqueInv(w: seq<Tx>)
  {
    forall t, u :: t in w && u in w && t.frag.netPkt == u.frag.netPkt && t.ord == u.ord ==> t == u
  }

  /** A packet in flight has a fragment in the window. */
  predicate FlightInv(l: Ledger)
  {
    forall k :: 0 <= k < |l.pkts| && l.pkts[k].status == InFlight ==> NumbersOf(l.window, k) != {}
  }

  /** Acknowledged transmissions exist and have left the window. */
  predicate AckedInv(l: Ledger)
  {
    && (forall a :: a in l.acked ==> a < |l.log|)
    && (forall tx :: tx in l.window ==> tx.n !in l.acked)
  }

  predicate ValidId(l: Ledger, id: FragId)
  {
    id.pkt < |l.pkts| && id.ord < |l.pkts[id.pkt].frags|
  }

  predicate LogInv(l: Ledger)
  {
    forall k :: 0 <= k < |l.log| ==> ValidId(l, l.log[k])
  }

  predicate InWindow(l: Ledger, id: FragId)
  {
    exists tx :: tx in l.window && tx.frag.netPkt == id.pkt && tx.ord == id.ord
  }

  /** Some transmission of the fragment was acknowledged. */
  predicate AckedFrag(l: Ledger, id: FragId)
  {
    exists a :: a in l.acked && a < |l.log| && l.log[a] == id
  }

  predicate Received(status: Status)
  {
    status == Acknowledged || status == Retransmitted
  }

  /** While a packet is in flight every fragment is acknowledged or in the window; a packet counted
      as received had all its fragments acknowledged. */
  predicate Covered(l: Ledger, id: FragId)
    requires ValidId(l, id)
  {
    && (l.pkts[id.pkt].status == InFlight ==> InWindow(l, id) || AckedFrag(l, id))
    && (Received(l.pkts[id.pkt].status) ==> AckedFrag(l, id))
  }

  ghost predicate CoverInv(l: Ledger)
  {
    forall id: FragId :: ValidId(l, id) ==> Covered(l, id)
  }

  /** Number of transmissions of a fragment. */
  function Transmissions(log: seq<FragId>, id: FragId): nat
  {
    multiset(log)[id]
  }

  /** No fragment is transmitted more than maxRetx + 1 times. */
  ghost predicate RetxInv(l: Ledger, o: Options)
  {
    && (forall tx :: tx in l.window ==>
          && tx.frag.retxCount <= o.maxRetx
          && Transmissions(l.log, FragId(tx.frag.netPkt, tx.ord)) == tx.frag.retxCount + 1)
    && (forall id: FragId :: Transmissions(l.log, id) <= o.maxRetx + 1)
  }

  function Later(acked: set<nat>, n: nat): set<nat>
  {
    set a | a in acked && a > n
  }

  /** nGreaterSeqAcks counts the distinct later transmissions that were acknowledged. */
  predicate LossCount(l: Ledger)
  {
    forall tx :: tx in l.window ==> tx.frag.nGreaterSeqAcks == |Later(l.acked, tx.n)|
  }

  /** No stored count has reached the threshold, except of the transmissions in `pending`. */
  predicate LossBound(l: Ledger, o: Options, pending: seq<Tx>)
  {
    o.seqNumLossThreshold > 0 ==>
      forall tx :: tx in l.window && !Among(pending, tx.n) ==> tx.frag.nGreaterSeqAcks < o.seqNumLossThreshold
  }

  predicate Among(txs: seq<Tx>, n: nat)
  {
    exists tx :: tx in txs && tx.n == n
  }

  /** onDroppedInterest fired exactly once for each exhausted Interest and for nothing else. */
  predicate DropInv(l: Ledger)
  {
    && Distinct(l.dropped)
    && (forall k :: k in l.dropped ==> k < |l.pkts|)
    && forall k :: 0 <= k < |l.pkts| ==> (k in l.dropped <==> l.pkts[k].status == Exhausted && l.pkts[k].isInterest)
  }

  predicate PlainFrags(p: NetPacket)
  {
    forall f :: f in p.frags ==> PlainFrag(f)
  }

  predicate PlainInv(l: Ledger)
  {
    forall k :: 0 <= k < |l.pkts| ==> PlainFrags(l.pkts[k])
  }

  ghost predicate LedgerInv(l: Ledger, o: Options)
  {
    && o.modulus > 0
    && WindowInv(l, o) && KeyInv(l.window, o.modulus) && TxInv(l, o) && UniqueInv(l.window) && FlightInv(l) &&
      AckedInv(l) && LogInv(l)
    && CoverInv(l) && RetxInv(l, o) && LossCount(l) && DropInv(l) && PlainInv(l)
  }

  /** The packets passed to sendLpPacket() that carry a fragment, in order. */
  function NonIdle(sent: seq<Packet>): (r: seq<Packet>)
  {
    if sent == [] then []
    else if sent[|sent| - 1].fragment.Some? then NonIdle(sent[..|sent| - 1]) + [sent[|sent| - 1]]
    else NonIdle(sent[..|sent| - 1])
  }

  /** `p` is transmission number `k` as the log describes it, whatever Acks it carries. */
  predicate IsTransmission(l: Ledger, o: Options, p: Packet, k: nat)
    requires o.modulus > 0 && k < |l.log| && ValidId(l, l.log[k])
  {
    p.(acks := []) == l.pkts[l.log[k].pkt].frags[l.log[k].ord].(txSequence := Some(k % o.modulus), acks := [])
  }

  /** The k-th fragment sent is transmission k: fragments go out in the order of their TxSequences. */
  predicate SentInv(l: Ledger, o: Options, sent: seq<Packet>, n: nat)
    requires o.modulus > 0 && LogInv(l) && n <= |l.log|
  {
    && |NonIdle(sent)| == n
    && (forall k :: 0 <= k < n ==> IsTransmission(l, o, NonIdle(sent)[k], k))
  }

  /** All Acks attached to sent packets, in sending order. */
  function AllAcks(sent: seq<Packet>): seq<nat>
  {
    if sent == [] then [] else AllAcks(sent[..|sent| - 1]) + sent[|sent| - 1].acks
  }

  /** Every TxSequence heard is in exactly one sent packet or in the queue, in the order of arrival. */
  predicate FifoInv(s: State)
  {
    AllAcks(s.sent) + s.ackQueue == s.heard
  }

  ghost predicate CoreInv(s: State, o: Options)
  {
    LedgerInv(s.ledger, o) && SentInv(s.ledger, o, s.sent, |s.ledger.log|) && FifoInv(s)
  }

  ghost predicate Inv(s: State, o: Options)
  {
    CoreInv(s, o) && LossBound(s.ledger, o, [])
  }

  lemma InitInv(o: Options)
    requires o.modulus > 0
    ensures Inv(Init(), o)
  {
  }

  lemma InvLinked(l: Ledger, o: Options)
    requires LedgerInv(l, o)
    ensures Linked(l)
  {
    forall tx | tx in l.window ensures tx.frag.netPkt < |l.pkts| { assert LinkedTx(l, o, tx); }
  }

  // ---------------------------------------------------------------- window lemmas

  lemma AppendIncreasing(w: seq<Tx>, tx: Tx)
    requires Increasing(w) && forall u :: u in w ==> u.n < tx.n
    ensures Increasing(w + [tx])
  {
    assert forall i :: 0 <= i < |w| ==> w[i] in w;
  }

  lemma LastIsLargest(w: seq<Tx>)
    requires Increasing(w) && w != []
    ensures Increasing(w[..|w| - 1]) && forall u :: u in w[..|w| - 1] ==> u.n < w[|w| - 1].n
  {
  }

  lemma {:induction false} WithoutIncreasing(w: seq<Tx>, gone: set<nat>)
    requires Increasing(w)
    ensures Increasing(Without(w, gone))
  {
    if w != [] {
      LastIsLargest(w);
      WithoutIncreasing(w[..|w| - 1], gone);
      AppendIncreasing(Without(w[..|w| - 1], gone), w[|w| - 1]);
    }
  }

  lemma NumbersDistinct(w: seq<Tx>, t: Tx, u: Tx)
    requires Increasing(w) && t in w && u in w && t != u
    ensures t.n != u.n
  {
  }

  // ---------------------------------------------------------------- sending

  lemma AppendSent(sent: seq<Packet>, p: Packet)
    ensures AllAcks(sent + [p]) == AllAcks(sent) + p.acks
    ensures NonIdle(sent + [p]) == if p.fragment.Some? then NonIdle(sent) + [p] else NonIdle(sent)
  {
    assert (sent + [p])[..|sent + [p]| - 1] == sent;
  }

  lemma TransmitFifo(s: State, o: Options, p: Packet)
    requires FifoInv(s) && p.acks == []
    ensures FifoInv(Transmit(s, o, p))
  {
    AppendSent(s.sent, AckQueue.Attach(p, o.mtu, s.ackQueue));
    AckQueue.AttachIsFifo(p, o.mtu, s.ackQueue);
  }

  lemma TransmissionHasFragment(l: Ledger, o: Options, p: Packet, k: nat)
    requires o.modulus > 0 && LogInv(l) && PlainInv(l) && k < |l.log| && IsTransmission(l, o, p, k)
    ensures p.fragment.Some?
  {
    var id := l.log[k];
    assert PlainFrags(l.pkts[id.pkt]) && l.pkts[id.pkt].frags[id.ord] in l.pkts[id.pkt].frags;
    assert p.(acks := []).fragment.Some?;
  }

  /** Sending transmission `n` extends the sent transmissions by it. */
  lemma NextSent(l: Ledger, o: Options, sent: seq<Packet>, q: Packet, n: nat)
    requires o.modulus > 0 && LogInv(l) && n < |l.log| && SentInv(l, o, sent, n)
    requires q.fragment.Some? && ValidId(l, l.log[n]) && IsTransmission(l, o, q, n)
    ensures SentInv(l, o, sent + [q], n + 1)
  {
    AppendSent(sent, q);
    NextTransmission(l, o, NonIdle(sent), q, n);
  }

  lemma NextTransmission(l: Ledger, o: Options, all: seq<Packet>, q: Packet, n: nat)
    requires o.modulus > 0 && LogInv(l) && n < |l.log| && |all| == n
    requires (forall k :: 0 <= k < n ==> IsTransmission(l, o, all[k], k)) && IsTransmission(l, o, q, n)
    ensures forall k :: 0 <= k < n + 1 ==> IsTransmission(l, o, (all + [q])[k], k)
  {
  }

  lemma TransmitSent(s: State, o: Options, p: Packet, n: nat)
    requires o.modulus > 0 && LogInv(s.ledger) && PlainInv(s.ledger) && n < |s.ledger.log|
    requires SentInv(s.ledger, o, s.sent, n) && IsTransmission(s.ledger, o, p, n)
    ensures SentInv(s.ledger, o, Transmit(s, o, p).sent, n + 1)
  {
    var q := AckQueue.Attach(p, o.mtu, s.ackQueue);
    TransmissionHasFragment(s.ledger, o, p, n);
    assert q.(acks := []) == p.(acks := []);
    NextSent(s.ledger, o, s.sent, q, n);
  }

  /** Later ledgers describe earlier transmissions the same way. */
  lemma SentKept(l: Ledger, m: Ledger, o: Options, sent: seq<Packet>, n: nat)
    requires o.modulus > 0 && LogInv(l) && LogInv(m) && n <= |l.log|
    requires l.log <= m.log && |l.pkts| <= |m.pkts|
    requires forall k :: 0 <= k < |l.pkts| ==> m.pkts[k].frags == l.pkts[k].frags
    requires SentInv(l, o, sent, n)
    ensures SentInv(m, o, sent, n)
  {
    forall k | 0 <= k < n ensures IsTransmission(m, o, NonIdle(sent)[k], k) {
      assert IsTransmission(l, o, NonIdle(sent)[k], k);
      assert ValidId(l, l.log[k]);
    }
  }

  /** IDLE packets do not count as transmissions. */
  lemma TransmitIdleInv(s: State, o: Options)
    requires CoreInv(s, o)
    ensures CoreInv(Transmit(s, o, EMPTY_PACKET), o)
  {
    TransmitFifo(s, o, EMPTY_PACKET);
    AppendSent(s.sent, AckQueue.Attach(EMPTY_PACKET, o.mtu, s.ackQueue));
  }

  // ---------------------------------------------------------------- retransmitting

  /** Adding a transmission keeps the shape of the window. */
  lemma AddTxWindow(l: Ledger, o: Options, id: FragId, pkt: Packet, retx: nat)
    requires o.modulus > 0 && WindowInv(l, o) && !Full(l, o)
    ensures WindowInv(AddTx(l, o, id, pkt, retx), o)
  {
    var m := AddTx(l, o, id, pkt, retx);
    forall tx | tx in m.window ensures tx.n < |m.log| <= tx.n + o.modulus {
      if tx in l.window {
        assert l.window[0] in l.window;
        assert l.window[0].n <= tx.n;
      }
    }
    forall i, j | 0 <= i < j < |m.window| ensures m.window[i].n < m.window[j].n {
      assert m.window[i] in l.window;
    }
  }

  lemma RenumberWindow(l: Ledger, o: Options, i: nat)
    requires o.modulus > 0 && WindowInv(l, o) && Linked(l) && i < |l.window| && !Full(l, o)
    ensures WindowInv(Renumber(l, o, i), o)
  {
    var m := Release(l, i);
    WithoutIncreasing(l.window, {l.window[i].n});
    if m.window != [] {
      assert m.window[0] in m.window;
      assert m.window[0] in l.window;
      assert l.window[0].n <= m.window[0].n;
    }
    var tx := l.window[i];
    AddTxWindow(m, o, FragId(tx.frag.netPkt, tx.ord), tx.frag.pkt, tx.frag.retxCount + 1);
  }

  lemma RenumberKeys(l: Ledger, o: Options, i: nat)
    requires o.modulus > 0 && KeyInv(l.window, o.modulus) && Linked(l) && i < |l.window|
    ensures KeyInv(Renumber(l, o, i).window, o.modulus)
  {
  }

  lemma RenumberTx(l: Ledger, o: Options, i: nat)
    requires o.modulus > 0 && TxInv(l, o) && Linked(l) && i < |l.window|
    ensures TxInv(Renumber(l, o, i), o)
  {
    var m := Renumber(l, o, i);
    assert l.window[i] in l.window && LinkedTx(l, o, l.window[i]);
    forall v | v in m.window ensures LinkedTx(m, o, v) {
      if v != m.window[|m.window| - 1] { assert v in l.window && LinkedTx(l, o, v); }
    }
  }

  lemma RenumberAcked(l: Ledger, o: Options, i: nat)
    requires o.modulus > 0 && AckedInv(l) && Linked(l) && i < |l.window|
    ensures AckedInv(Renumber(l, o, i))
  {
  }

  lemma RenumberUnique(l: Ledger, o: Options, i: nat)
    requires o.modulus > 0 && UniqueInv(l.window) && Linked(l) && i < |l.window|
    ensures UniqueInv(Renumber(l, o, i).window)
  {
    var w := Release(l, i).window;
    var tx := l.window[i];
    assert forall v :: v in w ==> v in l.window && v != tx;
    assert forall v :: v in w ==> v.frag.netPkt != tx.frag.netPkt || v.ord != tx.ord;
  }

  lemma RenumberFlight(l: Ledger, o: Options, i: nat)
    requires o.modulus > 0 && FlightInv(l) && Increasing(l.window) && Linked(l) && i < |l.window|
    ensures FlightInv(Renumber(l, o, i))
  {
    var m := Renumber(l, o, i);
    var tx := l.window[i];
    var again := m.window[|m.window| - 1];
    assert again in m.window;
    forall k | 0 <= k < |m.pkts| && m.pkts[k].status == InFlight ensures NumbersOf(m.window, k) != {} {
      if k == tx.frag.netPkt {
        assert again.n in NumbersOf(m.window, k);
      } else {
        var n :| n in NumbersOf(l.window, k);
        var v :| v in l.window && v.frag.netPkt == k && v.n == n;
        NumbersDistinct(l.window, v, tx);
        assert v in m.window && v.n in NumbersOf(m.window, k);
      }
    }
  }

  lemma RenumberLog(l: Ledger, o: Options, i: nat)
    requires o.modulus > 0 && TxInv(l, o) && LogInv(l) && PlainInv(l) && DropInv(l) && Linked(l) && i < |l.window|
    ensures LogInv(Renumber(l, o, i)) && PlainInv(Renumber(l, o, i)) && DropInv(Renumber(l, o, i))
  {
    var m := Renumber(l, o, i);
    assert l.window[i] in l.window && LinkedTx(l, o, l.window[i]);
    forall k | 0 <= k < |m.log| ensures ValidId(m, m.log[k]) {
      if k < |l.log| { assert ValidId(l, l.log[k]); }
    }
    forall k | 0 <= k < |m.pkts| ensures PlainFrags(m.pkts[k]) {
      assert PlainFrags(l.pkts[k]);
    }
  }

  lemma RenumberCover(l: Ledger, o: Options, i: nat)
    requires o.modulus > 0 && CoverInv(l) && Increasing(l.window) && Linked(l) && i < |l.window|
    ensures CoverInv(Renumber(l, o, i))
  {
    var m := Renumber(l, o, i);
    var tx := l.window[i];
    var again := m.window[|m.window| - 1];
    assert again in m.window;
    forall id: FragId | ValidId(m, id) ensures Covered(m, id) {
      assert ValidId(l, id) && Covered(l, id);
      if AckedFrag(l, id) {
        var a :| a in l.acked && a < |l.log| && l.log[a] == id;
        assert m.log[a] == id;
      } else if InWindow(l, id) {
        var v :| v in l.window && v.frag.netPkt == id.pkt && v.ord == id.ord;
        if v != tx {
          NumbersDistinct(l.window, v, tx);
          assert v in m.window;
        }
      }
    }
  }

  lemma RenumberRetx(l: Ledger, o: Options, i: nat)
    requires o.modulus > 0 && UniqueInv(l.window) && RetxInv(l, o) && Linked(l) && i < |l.window|
    requires l.window[i].frag.retxCount < o.maxRetx
    ensures RetxInv(Renumber(l, o, i), o)
  {
    var m := Renumber(l, o, i);
    var tx := l.window[i];
    var id := FragId(tx.frag.netPkt, tx.ord);
    assert multiset(m.log) == multiset(l.log) + multiset{id};
    assert tx in l.window;
    forall f: FragId ensures Transmissions(m.log, f) <= o.maxRetx + 1 {
      assert Transmissions(l.log, f) <= o.maxRetx + 1;
    }
    forall v | v in m.window
      ensures v.frag.retxCount <= o.maxRetx
      ensures Transmissions(m.log, FragId(v.frag.netPkt, v.ord)) == v.frag.retxCount + 1
    {
      if v != m.window[|m.window| - 1] {
        assert v in l.window;
        assert v != tx;
      }
    }
  }

  lemma RenumberLoss(l: Ledger, o: Options, i: nat, pending: seq<Tx>)
    requires o.modulus > 0 && LossCount(l) && AckedInv(l) && LossBound(l, o, pending)
    requires Linked(l) && i < |l.window|
    requires pending != [] && pending[0].n == l.window[i].n
    ensures LossCount(Renumber(l, o, i)) && LossBound(Renumber(l, o, i), o, pending[1..])
  {
    var m := Renumber(l, o, i);
    var tx := l.window[i];
    assert pending == [pending[0]] + pending[1..];
    forall v | v in m.window
      ensures v.frag.nGreaterSeqAcks == |Later(m.acked, v.n)|
      ensures o.seqNumLossThreshold > 0 && !Among(pending[1..], v.n) ==> v.frag.nGreaterSeqAcks < o.seqNumLossThreshold
    {
      if v != m.window[|m.window| - 1] {
        assert v in l.window && v.n != tx.n;
      } else {
        assert Later(m.acked, v.n) == {};
      }
    }
  }

  lemma RenumberInv(l: Ledger, o: Options, i: nat, pending: seq<Tx>)
    requires LedgerInv(l, o) && LossBound(l, o, pending) && Linked(l)
    requires i < |l.window| && l.window[i].frag.retxCount < o.maxRetx && !Full(l, o)
    requires pending != [] && pending[0].n == l.window[i].n
    ensures LedgerInv(Renumber(l, o, i), o) && LossBound(Renumber(l, o, i), o, pending[1..])
  {
    RenumberWindow(l, o, i);
    RenumberKeys(l, o, i);
    RenumberTx(l, o, i);
    RenumberAcked(l, o, i);
    RenumberUnique(l, o, i);
    RenumberFlight(l, o, i);
    RenumberLog(l, o, i);
    RenumberCover(l, o, i);
    RenumberRetx(l, o, i);
    RenumberLoss(l, o, i, pending);
  }

  /** Transmissions already sent keep their description; the new one is described by the new log entry. */
  lemma RenumberSent(s: State, o: Options, i: nat)
    requires CoreInv(s, o) && Linked(s.ledger) && i < |s.ledger.window|
    requires LogInv(Renumber(s.ledger, o, i))
    ensures SentInv(Renumber(s.ledger, o, i), o, s.sent, |s.ledger.log|)
    ensures IsTransmission(Renumber(s.ledger, o, i), o,
              s.ledger.window[i].frag.pkt.(txSequence := Some(|s.ledger.log| % o.modulus)), |s.ledger.log|)
    ensures s.ledger.window[i].frag.pkt.acks == []
  {
    var l := s.ledger;
    var m := Renumber(l, o, i);
    var tx := l.window[i];
    assert tx in l.window && LinkedTx(l, o, tx);
    assert PlainFrags(l.pkts[tx.frag.netPkt]) && l.pkts[tx.frag.netPkt].frags[tx.ord] in l.pkts[tx.frag.netPkt].frags;
    SentKept(l, m, o, s.sent, |l.log|);
  }

  lemma RetransmitInv(s: State, o: Options, i: nat, pending: seq<Tx>)
    requires CoreInv(s, o) && LossBound(s.ledger, o, pending) && Linked(s.ledger)
    requires i < |s.ledger.window| && s.ledger.window[i].frag.retxCount < o.maxRetx && !Full(s.ledger, o)
    requires pending != [] && pending[0].n == s.ledger.window[i].n
    ensures var t := Transmit(s.(ledger := Renumber(s.ledger, o, i)), o, AgainPacket(s.ledger, o, i));
            CoreInv(t, o) && LossBound(t.ledger, o, pending[1..])
  {
    RenumberInv(s.ledger, o, i, pending);
    RenumberSent(s, o, i);
    var u := s.(ledger := Renumber(s.ledger, o, i));
    var p := AgainPacket(s.ledger, o, i);
    TransmitSent(u, o, p, |s.ledger.log|);
    TransmitFifo(u, o, p);
  }

  // ---------------------------------------------------------------- giving up on a packet

  lemma ExhaustWindow(l: Ledger, o: Options, id: nat)
    requires o.modulus > 0 && id < |l.pkts| && WindowInv(l, o) && KeyInv(l.window, o.modulus) && TxInv(l, o)
    ensures var m := Exhaust(l, id); WindowInv(m, o) && KeyInv(m.window, o.modulus) && TxInv(m, o)
  {
    var m := Exhaust(l, id);
    WithoutIncreasing(l.window, NumbersOf(l.window, id));
    forall v | v in m.window ensures LinkedTx(m, o, v) {
      assert v in l.window && LinkedTx(l, o, v);
      assert v.frag.netPkt != id;
    }
  }

  /** Entries of other packets stay. */
  lemma ExhaustKeeps(l: Ledger, id: nat, v: Tx)
    requires id < |l.pkts| && Increasing(l.window) && v in l.window && v.frag.netPkt != id
    ensures v in Exhaust(l, id).window
  {
    if v.n in NumbersOf(l.window, id) {
      var u :| u in l.window && u.frag.netPkt == id && u.n == v.n;
      NumbersDistinct(l.window, u, v);
    }
  }

  lemma ExhaustFlight(l: Ledger, id: nat)
    requires id < |l.pkts| && Increasing(l.window) && FlightInv(l)
    ensures FlightInv(Exhaust(l, id))
  {
    var m := Exhaust(l, id);
    forall k | 0 <= k < |m.pkts| && m.pkts[k].status == InFlight ensures NumbersOf(m.window, k) != {} {
      var n :| n in NumbersOf(l.window, k);
      var v :| v in l.window && v.frag.netPkt == k && v.n == n;
      ExhaustKeeps(l, id, v);
      assert v.n in NumbersOf(m.window, k);
    }
  }

  lemma ExhaustCover(l: Ledger, id: nat)
    requires id < |l.pkts| && Increasing(l.window) && CoverInv(l)
    ensures CoverInv(Exhaust(l, id))
  {
    var m := Exhaust(l, id);
    forall f: FragId | ValidId(m, f) ensures Covered(m, f) {
      assert ValidId(l, f) && Covered(l, f);
      if AckedFrag(l, f) {
        var a :| a in l.acked && a < |l.log| && l.log[a] == f;
        assert m.log[a] == f;
      } else if InWindow(l, f) && f.pkt != id {
        var v :| v in l.window && v.frag.netPkt == f.pkt && v.ord == f.ord;
        ExhaustKeeps(l, id, v);
      }
    }
  }

  lemma ExhaustLog(l: Ledger, o: Options, id: nat)
    requires id < |l.pkts| && l.pkts[id].status == InFlight && LogInv(l) && PlainInv(l) && DropInv(l) && RetxInv(l, o)
    ensures var m := Exhaust(l, id); LogInv(m) && PlainInv(m) && DropInv(m) && RetxInv(m, o)
  {
    var m := Exhaust(l, id);
    forall k | 0 <= k < |m.log| ensures ValidId(m, m.log[k]) { assert ValidId(l, l.log[k]); }
    forall k | 0 <= k < |m.pkts| ensures PlainFrags(m.pkts[k]) { assert PlainFrags(l.pkts[k]); }
    assert id !in l.dropped;
  }

  lemma ExhaustLoss(l: Ledger, o: Options, i: nat, pending: seq<Tx>)
    requires Linked(l) && i < |l.window| && LossCount(l) && LossBound(l, o, pending)
    requires l.window[i].frag.netPkt < |l.pkts| && pending != [] && pending[0].n == l.window[i].n
    ensures var m := Exhaust(l, l.window[i].frag.netPkt); LossCount(m) && LossBound(m, o, pending[1..])
  {
    var id := l.window[i].frag.netPkt;
    assert pending == [pending[0]] + pending[1..];
    assert l.window[i].n in NumbersOf(l.window, id);
  }

  lemma ExhaustLedger(l: Ledger, o: Options, i: nat, pending: seq<Tx>)
    requires LedgerInv(l, o) && LossBound(l, o, pending) && Linked(l) && i < |l.window|
    requires pending != [] && pending[0].n == l.window[i].n
    ensures l.window[i].frag.netPkt < |l.pkts|
    ensures var m := Exhaust(l, l.window[i].frag.netPkt); LedgerInv(m, o) && LossBound(m, o, pending[1..])
  {
    assert l.window[i] in l.window && LinkedTx(l, o, l.window[i]);
    var id := l.window[i].frag.netPkt;
    ExhaustWindow(l, o, id);
    assert UniqueInv(Exhaust(l, id).window) && AckedInv(Exhaust(l, id));
    ExhaustFlight(l, id);
    ExhaustCover(l, id);
    ExhaustLog(l, o, id);
    ExhaustLoss(l, o, i, pending);
  }

  lemma ExhaustSent(l: Ledger, o: Options, id: nat, sent: seq<Packet>)
    requires o.modulus > 0 && id < |l.pkts| && LogInv(l) && LogInv(Exhaust(l, id)) && SentInv(l, o, sent, |l.log|)
    ensures SentInv(Exhaust(l, id), o, sent, |l.log|)
  {
    SentKept(l, Exhaust(l, id), o, sent, |l.log|);
  }

  lemma ExhaustInv(s: State, o: Options, i: nat, pending: seq<Tx>)
    requires CoreInv(s, o) && LossBound(s.ledger, o, pending) && Linked(s.ledger)
    requires i < |s.ledger.window| && s.ledger.window[i].frag.retxCount >= o.maxRetx
    requires pending != [] && pending[0].n == s.ledger.window[i].n
    ensures s.ledger.window[i].frag.netPkt < |s.ledger.pkts|
    ensures var t := s.(ledger := Exhaust(s.ledger, s.ledger.window[i].frag.netPkt));
            CoreInv(t, o) && LossBound(t.ledger, o, pending[1..])
  {
    var l := s.ledger;
    ExhaustLedger(l, o, i, pending);
    ExhaustSent(l, o, l.window[i].frag.netPkt, s.sent);
  }

  // ---------------------------------------------------------------- acknowledging

  /** Where the entries of the window are after the Ack of position `i`. */
  lemma AckAtMembers(l: Ledger, i: nat)
    requires Linked(l) && Increasing(l.window) && i < |l.window|
    ensures forall j :: 0 <= j < |l.window| && j != i ==> Bump(l.window, i)[j] in AckAt(l, i).window
    ensures forall v :: v in AckAt(l, i).window ==>
              exists j :: 0 <= j < |l.window| && j != i && v == Bump(l.window, i)[j]
    ensures Increasing(AckAt(l, i).window)
  {
    var b := Bump(l.window, i);
    assert AckAt(l, i).window == Without(b, {l.window[i].n});
    OthersStay(b, i);
  }

  lemma OthersStay(w: seq<Tx>, i: nat)
    requires Increasing(w) && i < |w|
    ensures var v := Without(w, {w[i].n});
            && (forall j :: 0 <= j < |w| && j != i ==> w[j] in v)
            && (forall t :: t in v ==> exists j :: 0 <= j < |w| && j != i && t == w[j])
            && Increasing(v)
  {
    WithoutIncreasing(w, {w[i].n});
    forall j | 0 <= j < |w| && j != i ensures w[j] in Without(w, {w[i].n}) {
      assert w[j] in w && w[j].n != w[i].n;
    }
  }

  /** Where an entry of the window comes from that the Ack of the entry at position `i` leaves. */
  lemma AckAtOrigin(l: Ledger, i: nat, v: Tx) returns (j: nat)
    requires Linked(l) && Increasing(l.window) && i < |l.window| && v in AckAt(l, i).window
    ensures j < |l.window| && j != i && v == (if j < i then Bumped(l.window[j]) else l.window[j])
    ensures l.window[j] in l.window && l.window[j].n != l.window[i].n
  {
    AckAtMembers(l, i);
    j :| 0 <= j < |l.window| && j != i && v == Bump(l.window, i)[j];
  }

  lemma AckAtWindow(l: Ledger, o: Options, i: nat)
    requires Linked(l) && i < |l.window| && WindowInv(l, o)
    ensures WindowInv(AckAt(l, i), o)
  {
    AckAtMembers(l, i);
    forall v | v in AckAt(l, i).window ensures v.n < |l.log| <= v.n + o.modulus {
      var j := AckAtOrigin(l, i, v);
    }
  }

  lemma AckAtAcked(l: Ledger, i: nat)
    requires Linked(l) && i < |l.window| && Increasing(l.window) && AckedInv(l) && l.window[i].n < |l.log|
    ensures AckedInv(AckAt(l, i))
  {
    forall v | v in AckAt(l, i).window ensures v.n !in AckAt(l, i).acked {
      var j := AckAtOrigin(l, i, v);
    }
  }

  lemma AckAtRetx(l: Ledger, o: Options, i: nat)
    requires Linked(l) && i < |l.window| && Increasing(l.window) && RetxInv(l, o)
    ensures RetxInv(AckAt(l, i), o)
  {
    var m := AckAt(l, i);
    forall v | v in m.window
      ensures v.frag.retxCount <= o.maxRetx
      ensures Transmissions(m.log, FragId(v.frag.netPkt, v.ord)) == v.frag.retxCount + 1
    {
      var j := AckAtOrigin(l, i, v);
    }
  }

  lemma SameFragSameEntry(w: seq<Tx>, j: nat, k: nat)
    requires UniqueInv(w) && Increasing(w) && j < |w| && k < |w|
    requires w[j].frag.netPkt == w[k].frag.netPkt && w[j].ord == w[k].ord
    ensures j == k
  {
    assert w[j] in w && w[k] in w;
  }

  lemma AckAtKeys(l: Ledger, o: Options, i: nat)
    requires o.modulus > 0 && Linked(l) && Increasing(l.window) && i < |l.window| && KeyInv(l.window, o.modulus)
    ensures KeyInv(AckAt(l, i).window, o.modulus)
  {
    forall v | v in AckAt(l, i).window ensures v.key == v.n % o.modulus {
      var j := AckAtOrigin(l, i, v);
    }
  }

  lemma AckAtUnique(l: Ledger, i: nat)
    requires Linked(l) && Increasing(l.window) && i < |l.window| && UniqueInv(l.window)
    ensures UniqueInv(AckAt(l, i).window)
  {
    AckAtMembers(l, i);
    var w, b := l.window, Bump(l.window, i);
    forall j, k | 0 <= j < |w| && 0 <= k < |w| && b[j].frag.netPkt == b[k].frag.netPkt && b[j].ord == b[k].ord
      ensures j == k
    {
      SameFragSameEntry(w, j, k);
    }
  }

  /** The settled packet has no entry left. */
  lemma AckAtTx(l: Ledger, o: Options, i: nat)
    requires o.modulus > 0 && Linked(l) && Increasing(l.window) && i < |l.window| && TxInv(l, o)
    ensures TxInv(AckAt(l, i), o)
  {
    var m := AckAt(l, i);
    forall v | v in m.window ensures LinkedTx(m, o, v) {
      var j := AckAtOrigin(l, i, v);
      assert LinkedTx(l, o, l.window[j]);
      assert v.n in NumbersOf(m.window, v.frag.netPkt);
    }
  }

  lemma AckAtFlight(l: Ledger, i: nat)
    requires Linked(l) && Increasing(l.window) && i < |l.window| && FlightInv(l)
    ensures FlightInv(AckAt(l, i))
  {
    var m := AckAt(l, i);
    AckAtMembers(l, i);
    forall k | 0 <= k < |m.pkts| && m.pkts[k].status == InFlight ensures NumbersOf(m.window, k) != {} {
      assert l.window[i] in l.window;
      if k != l.window[i].frag.netPkt {
        var n :| n in NumbersOf(l.window, k);
        var j :| 0 <= j < |l.window| && l.window[j].frag.netPkt == k && l.window[j].n == n;
        assert Bump(l.window, i)[j] in m.window;
        assert n in NumbersOf(m.window, k);
      }
    }
  }

  lemma AckAtCover(l: Ledger, o: Options, i: nat)
    requires o.modulus > 0 && Linked(l) && Increasing(l.window) && i < |l.window| && TxInv(l, o) && CoverInv(l)
    ensures CoverInv(AckAt(l, i))
  {
    var m := AckAt(l, i);
    var tx := l.window[i];
    AckAtMembers(l, i);
    assert tx in l.window && LinkedTx(l, o, tx);
    forall f: FragId | ValidId(m, f) ensures Covered(m, f) {
      assert ValidId(l, f) && Covered(l, f);
      if AckedFrag(l, f) {
        var a :| a in l.acked && a < |l.log| && l.log[a] == f;
        assert a in m.acked && m.log[a] == f;
      } else if InWindow(l, f) {
        var j :| 0 <= j < |l.window| && l.window[j].frag.netPkt == f.pkt && l.window[j].ord == f.ord;
        if j == i {
          assert tx.n in m.acked && m.log[tx.n] == f;
        } else {
          var v := Bump(l.window, i)[j];
          assert v in m.window;
          assert v.n in NumbersOf(m.window, f.pkt);
        }
      }
    }
  }

  lemma AckAtLog(l: Ledger, o: Options, i: nat)
    requires o.modulus > 0 && Linked(l) && i < |l.window| && LogInv(l) && PlainInv(l) && DropInv(l) && TxInv(l, o)
    ensures var m := AckAt(l, i); LogInv(m) && PlainInv(m) && DropInv(m)
  {
    var m := AckAt(l, i);
    assert l.window[i] in l.window && LinkedTx(l, o, l.window[i]);
    forall k | 0 <= k < |m.log| ensures ValidId(m, m.log[k]) { assert ValidId(l, l.log[k]); }
    forall k | 0 <= k < |m.pkts| ensures PlainFrags(m.pkts[k]) { assert PlainFrags(l.pkts[k]); }
  }

  lemma LaterGrows(acked: set<nat>, a: nat, n: nat)
    requires a !in acked
    ensures |Later(acked + {a}, n)| == |Later(acked, n)| + (if a > n then 1 else 0)
  {
    if a > n {
      assert Later(acked + {a}, n) == Later(acked, n) + {a};
    } else {
      assert Later(acked + {a}, n) == Later(acked, n);
    }
  }

  lemma AckAtLossCount(l: Ledger, o: Options, i: nat)
    requires o.modulus > 0 && Linked(l) && Increasing(l.window) && i < |l.window| && LossCount(l) && AckedInv(l)
    ensures LossCount(AckAt(l, i))
  {
    var m, tx := AckAt(l, i), l.window[i];
    assert tx in l.window;
    forall v | v in m.window ensures v.frag.nGreaterSeqAcks == |Later(m.acked, v.n)| {
      var j := AckAtOrigin(l, i, v);
      LaterGrows(l.acked, tx.n, v.n);
    }
  }

  /** findLostLpPackets() returns the entries before position `i` with a count at the threshold. */
  lemma {:induction false} LostMembers(w: seq<Tx>, i: nat, threshold: nat)
    requires i <= |w|
    ensures forall tx :: tx in Lost(w, i, threshold) <==> tx in w[..i] && Tips(tx, threshold)
  {
    if i > 0 {
      LostMembers(w, i - 1, threshold);
      assert w[..i] == w[..i - 1] + [w[i - 1]];
    }
  }

  lemma AckAtLossBound(l: Ledger, o: Options, i: nat)
    requires Linked(l) && Increasing(l.window) && i < |l.window| && LossBound(l, o, [])
    ensures LossBound(AckAt(l, i), o, LostBy(l, o, i))
  {
    var m := AckAt(l, i);
    LostMembers(l.window, i, o.seqNumLossThreshold);
    forall v | v in m.window && !Among(LostBy(l, o, i), v.n) && o.seqNumLossThreshold > 0
      ensures v.frag.nGreaterSeqAcks < o.seqNumLossThreshold
    {
      var j := AckAtOrigin(l, i, v);
      if j < i { assert l.window[j] in l.window[..i]; }
    }
  }

  lemma AckAtSent(l: Ledger, o: Options, i: nat, sent: seq<Packet>)
    requires o.modulus > 0 && Linked(l) && i < |l.window| && LogInv(l) && LogInv(AckAt(l, i)) &&
             SentInv(l, o, sent, |l.log|)
    ensures SentInv(AckAt(l, i), o, sent, |l.log|)
  {
    SentKept(l, AckAt(l, i), o, sent, |l.log|);
  }

  lemma AckAtInv(s: State, o: Options, i: nat)
    requires Inv(s, o) && Linked(s.ledger) && i < |s.ledger.window|
    ensures var t := s.(ledger := AckAt(s.ledger, i));
            CoreInv(t, o) && LossBound(t.ledger, o, LostBy(s.ledger, o, i))
  {
    var l := s.ledger;
    assert l.window[i] in l.window;
    AckAtWindow(l, o, i);
    AckAtAcked(l, i);
    AckAtRetx(l, o, i);
    AckAtKeys(l, o, i);
    AckAtUnique(l, i);
    AckAtTx(l, o, i);
    AckAtFlight(l, i);
    AckAtCover(l, o, i);
    AckAtLog(l, o, i);
    AckAtLossCount(l, o, i);
    AckAtLossBound(l, o, i);
    AckAtSent(l, o, i, s.sent);
  }

  // ---------------------------------------------------------------- sending a new packet

  /** The window entries of the first `j` fragments of packet `id`, numbered from `base`. */
  function FirstTxs(o: Options, base: nat, id: nat, frags: seq<Packet>, j: nat): (r: seq<Tx>)
    requires o.modulus > 0 && j <= |frags|
    ensures |r| == j
  {
    seq(j, k requires 0 <= k < j =>
      var key := (base + k) % o.modulus;
      Tx(base + k, key, k, UnackedFrag(frags[k].(txSequence := Some(key)), 0, 0, id)))
  }

  function FirstIds(id: nat, j: nat): (r: seq<FragId>)
    ensures |r| == j
  {
    seq(j, k requires 0 <= k < j => FragId(id, k))
  }

  /** `m` is `l` after handleOutgoing() numbered the first `j` fragments. */
  predicate Numbered(l: Ledger, m: Ledger, o: Options, p: NetPacket, j: nat)
    requires o.modulus > 0 && j <= |p.frags|
  {
    m == Ledger(l.window + FirstTxs(o, |l.log|, |l.pkts|, p.frags, j), l.log + FirstIds(|l.pkts|, j),
                l.acked, l.pkts + [p], l.dropped)
  }

  /** handleOutgoing() as one step: the fragments follow each other at the end of the window. */
  lemma {:induction false} AddFragsResult(l: Ledger, m: Ledger, o: Options, p: NetPacket, j: nat)
    requires o.modulus > 0 && j <= |p.frags| && Numbered(l, m, o, p, j) && WindowInv(m, o) && Linked(m)
    ensures var r := AddFrags(m, o, |l.pkts|, p.frags, j);
            r.Some? ==> Numbered(l, r.value, o, p, |p.frags|) && WindowInv(r.value, o)
    decreases |p.frags| - j
  {
    if j < |p.frags| && !Full(m, o) {
      var id := FragId(|l.pkts|, j);
      var m' := AddTx(m, o, id, p.frags[j], 0);
      AddTxWindow(m, o, id, p.frags[j], 0);
      assert m'.window == l.window + FirstTxs(o, |l.log|, |l.pkts|, p.frags, j + 1);
      assert m'.log == l.log + FirstIds(|l.pkts|, j + 1);
      AddFragsResult(l, m', o, p, j + 1);
    }
  }

  lemma NumberedTx(l: Ledger, m: Ledger, o: Options, p: NetPacket)
    requires o.modulus > 0 && Numbered(l, m, o, p, |p.frags|) && p.status == InFlight && TxInv(l, o) && AckedInv(l) &&
             LogInv(l)
    ensures TxInv(m, o) && AckedInv(m) && LogInv(m)
  {
    var new_ := FirstTxs(o, |l.log|, |l.pkts|, p.frags, |p.frags|);
    forall v | v in m.window ensures LinkedTx(m, o, v) && v.n !in m.acked {
      if v in l.window {
        assert LinkedTx(l, o, v);
      } else {
        var k :| 0 <= k < |new_| && v == new_[k];
        assert m.log[v.n] == FirstIds(|l.pkts|, |p.frags|)[k];
      }
    }
    forall k | 0 <= k < |m.log| ensures ValidId(m, m.log[k]) {
      if k < |l.log| { assert ValidId(l, l.log[k]); }
    }
  }

  lemma NumberedKeys(l: Ledger, m: Ledger, o: Options, p: NetPacket)
    requires o.modulus > 0 && Numbered(l, m, o, p, |p.frags|) && KeyInv(l.window, o.modulus)
    ensures KeyInv(m.window, o.modulus)
  {
  }

  lemma NumberedUnique(l: Ledger, m: Ledger, o: Options, p: NetPacket)
    requires o.modulus > 0 && Numbered(l, m, o, p, |p.frags|) && Linked(l) && UniqueInv(l.window)
    ensures UniqueInv(m.window)
  {
    var new_ := FirstTxs(o, |l.log|, |l.pkts|, p.frags, |p.frags|);
    assert forall v :: v in new_ ==> v.frag.netPkt == |l.pkts|;
    assert forall v :: v in new_ ==> 0 <= v.ord < |new_| && v == new_[v.ord];
  }

  lemma NumberedFlight(l: Ledger, m: Ledger, o: Options, p: NetPacket)
    requires o.modulus > 0 && Numbered(l, m, o, p, |p.frags|) && p.frags != [] && FlightInv(l)
    ensures FlightInv(m)
  {
    forall k | 0 <= k < |m.pkts| && m.pkts[k].status == InFlight ensures NumbersOf(m.window, k) != {} {
      if k < |l.pkts| {
        var n :| n in NumbersOf(l.window, k);
        assert n in NumbersOf(m.window, k);
      } else {
        var first := m.window[|l.window|];
        assert first in m.window && first.n in NumbersOf(m.window, k);
      }
    }
  }

  lemma NumberedCover(l: Ledger, m: Ledger, o: Options, p: NetPacket)
    requires o.modulus > 0 && Numbered(l, m, o, p, |p.frags|) && p.status == InFlight && CoverInv(l)
    ensures CoverInv(m)
  {
    forall f: FragId | ValidId(m, f) ensures Covered(m, f) {
      if f.pkt < |l.pkts| {
        assert ValidId(l, f) && Covered(l, f);
        if AckedFrag(l, f) {
          var a :| a in l.acked && a < |l.log| && l.log[a] == f;
          assert m.log[a] == f;
        } else if InWindow(l, f) {
          var v :| v in l.window && v.frag.netPkt == f.pkt && v.ord == f.ord;
          assert v in m.window;
        }
      } else {
        assert m.window[|l.window| + f.ord] in m.window;
      }
    }
  }

  lemma {:induction false} FirstIdsOnce(id: nat, j: nat, f: FragId)
    ensures multiset(FirstIds(id, j))[f] == if f.pkt == id && f.ord < j then 1 else 0
  {
    if j > 0 {
      FirstIdsOnce(id, j - 1, f);
      assert FirstIds(id, j) == FirstIds(id, j - 1) + [FragId(id, j - 1)];
    }
  }

  lemma NumberedRetx(l: Ledger, m: Ledger, o: Options, p: NetPacket)
    requires o.modulus > 0 && Numbered(l, m, o, p, |p.frags|) && LogInv(l) && Linked(l) && RetxInv(l, o)
    ensures RetxInv(m, o)
  {
    var ids := FirstIds(|l.pkts|, |p.frags|);
    assert multiset(m.log) == multiset(l.log) + multiset(ids);
    forall f: FragId
      ensures Transmissions(m.log, f) ==
              Transmissions(l.log, f) + if f.pkt == |l.pkts| && f.ord < |p.frags| then 1 else 0
      ensures f.pkt == |l.pkts| ==> Transmissions(l.log, f) == 0
    {
      FirstIdsOnce(|l.pkts|, |p.frags|, f);
      if f in l.log {
        var k :| 0 <= k < |l.log| && l.log[k] == f;
        assert ValidId(l, l.log[k]);
      }
    }
    forall v | v in m.window
      ensures v.frag.retxCount <= o.maxRetx
      ensures Transmissions(m.log, FragId(v.frag.netPkt, v.ord)) == v.frag.retxCount + 1
    {
      if v !in l.window {
        var new_ := FirstTxs(o, |l.log|, |l.pkts|, p.frags, |p.frags|);
        var k :| 0 <= k < |new_| && v == new_[k];
      }
    }
  }

  lemma NumberedLoss(l: Ledger, m: Ledger, o: Options, p: NetPacket)
    requires o.modulus > 0 && Numbered(l, m, o, p, |p.frags|) && AckedInv(l) && LossCount(l) && LossBound(l, o, [])
    ensures LossCount(m) && LossBound(m, o, [])
  {
    forall v | v in m.window && v !in l.window
      ensures v.frag.nGreaterSeqAcks == 0 && Later(m.acked, v.n) == {}
    {
      var new_ := FirstTxs(o, |l.log|, |l.pkts|, p.frags, |p.frags|);
      var k :| 0 <= k < |new_| && v == new_[k];
    }
  }

  lemma NumberedInv(l: Ledger, m: Ledger, o: Options, p: NetPacket)
    requires LedgerInv(l, o) && LossBound(l, o, []) && WindowInv(m, o) && Numbered(l, m, o, p, |p.frags|)
    requires p.frags != [] && p.status == InFlight && PlainFrags(p)
    ensures LedgerInv(m, o) && LossBound(m, o, [])
  {
    InvLinked(l, o);
    NumberedTx(l, m, o, p);
    NumberedKeys(l, m, o, p);
    NumberedUnique(l, m, o, p);
    NumberedFlight(l, m, o, p);
    NumberedCover(l, m, o, p);
    NumberedRetx(l, m, o, p);
    NumberedLoss(l, m, o, p);
  }

  /** The loop that sends the numbered fragments. */
  lemma {:induction false} TransmitFragsInv(s: State, o: Options, first: nat, p: NetPacket, id: nat, j: nat)
    requires o.modulus > 0 && LogInv(s.ledger) && PlainInv(s.ledger) && FifoInv(s) && j <= |p.frags|
    requires first + |p.frags| == |s.ledger.log| && id < |s.ledger.pkts| && s.ledger.pkts[id] == p
    requires forall k :: 0 <= k < |p.frags| ==> s.ledger.log[first + k] == FragId(id, k)
    requires SentInv(s.ledger, o, s.sent, first + j)
    ensures var r := TransmitFrags(s, o, first, p.frags, j); FifoInv(r) && SentInv(r.ledger, o, r.sent, |r.ledger.log|)
    decreases |p.frags| - j
  {
    if j < |p.frags| {
      assert PlainFrags(s.ledger.pkts[id]) && p.frags[j] in p.frags;
      assert s.ledger.log[first + j] == FragId(id, j);
      var q := p.frags[j].(txSequence := Some((first + j) % o.modulus));
      TransmitSent(s, o, q, first + j);
      TransmitFifo(s, o, q);
      TransmitFragsInv(Transmit(s, o, q), o, first, p, id, j + 1);
    }
  }

  lemma HandleOutgoingResult(l: Ledger, o: Options, frags: seq<Packet>, pkt: Packet, isInterest: bool)
    requires o.modulus > 0 && WindowInv(l, o) && Linked(l)
    ensures var r := HandleOutgoing(l, o, frags, pkt, isInterest);
            r.Some? ==> && Numbered(l, r.value, o, NetPacket(frags, pkt, isInterest, false, InFlight), |frags|)
                        && WindowInv(r.value, o)
  {
    var start := NewPacket(l, frags, pkt, isInterest);
    assert start.window == l.window + FirstTxs(o, |l.log|, |l.pkts|, frags, 0);
    assert start.log == l.log + FirstIds(|l.pkts|, 0);
    AddFragsResult(l, start, o, NetPacket(frags, pkt, isInterest, false, InFlight), 0);
  }

  lemma NumberedSent(s: State, m: Ledger, o: Options, p: NetPacket)
    requires o.modulus > 0 && LogInv(s.ledger) && LogInv(m) && PlainInv(m) && Numbered(s.ledger, m, o, p, |p.frags|)
    requires FifoInv(s) && SentInv(s.ledger, o, s.sent, |s.ledger.log|)
    ensures var r := TransmitFrags(s.(ledger := m), o, |s.ledger.log|, p.frags, 0);
            FifoInv(r) && SentInv(r.ledger, o, r.sent, |r.ledger.log|)
  {
    SentKept(s.ledger, m, o, s.sent, |s.ledger.log|);
    TransmitFragsInv(s.(ledger := m), o, |s.ledger.log|, p, |s.ledger.pkts|, 0);
  }

  lemma NumberedLog(l: Ledger, m: Ledger, o: Options, p: NetPacket)
    requires o.modulus > 0 && LogInv(l) && PlainInv(l) && PlainFrags(p) && Numbered(l, m, o, p, |p.frags|)
    ensures LogInv(m) && PlainInv(m)
  {
    forall k | 0 <= k < |m.log| ensures ValidId(m, m.log[k]) {
      if k < |l.log| { assert ValidId(l, l.log[k]); }
    }
  }

  lemma SendInv(s: State, o: Options, frags: seq<Packet>, pkt: Packet, isInterest: bool)
    requires Inv(s, o) && Linked(s.ledger) && frags != [] && forall f :: f in frags ==> PlainFrag(f)
    ensures var r := Send(s, o, frags, pkt, isInterest); r.Some? ==> Inv(r.value, o)
  {
    var p := NetPacket(frags, pkt, isInterest, false, InFlight);
    HandleOutgoingResult(s.ledger, o, frags, pkt, isInterest);
    var m := HandleOutgoing(s.ledger, o, frags, pkt, isInterest);
    if m.Some? {
      NumberedInv(s.ledger, m.value, o, p);
      NumberedLog(s.ledger, m.value, o, p);
      NumberedSent(s, m.value, o, p);
    }
  }

  lemma OnLostInv(s: State, o: Options, i: nat, pending: seq<Tx>)
    requires CoreInv(s, o) && LossBound(s.ledger, o, pending) && Linked(s.ledger) && i < |s.ledger.window|
    requires pending != [] && pending[0].n == s.ledger.window[i].n
    ensures var r := OnLost(s, o, i); r.Some? ==> CoreInv(r.value, o) && LossBound(r.value.ledger, o, pending[1..])
  {
    if s.ledger.window[i].frag.retxCount >= o.maxRetx {
      ExhaustInv(s, o, i, pending);
    } else if !Full(s.ledger, o) {
      RetransmitInv(s, o, i, pending);
    }
  }

  lemma {:induction false} ProcessLostInv(s: State, o: Options, lost: seq<Tx>)
    requires CoreInv(s, o) && LossBound(s.ledger, o, lost) && Linked(s.ledger)
    ensures var r := ProcessLost(s, o, lost); r.Some? ==> Inv(r.value, o)
    decreases lost
  {
    if lost != [] {
      assert lost == [lost[0]] + lost[1..];
      match FindNumber(s.ledger.window, lost[0].n)
      case None =>
        assert LossBound(s.ledger, o, lost[1..]);
        ProcessLostInv(s, o, lost[1..]);
      case Some(i) =>
        OnLostInv(s, o, i, lost);
        var t := OnLost(s, o, i);
        if t.Some? { ProcessLostInv(t.value, o, lost[1..]); }
    }
  }

  lemma ProcessAckInv(s: State, o: Options, txSeq: nat)
    requires Inv(s, o) && Linked(s.ledger)
    ensures var r := ProcessAck(s, o, txSeq); r.Some? ==> Inv(r.value, o)
  {
    match FindKey(s.ledger.window, txSeq)
    case None =>
    case Some(i) =>
      AckAtInv(s, o, i);
      ProcessLostInv(s.(ledger := AckAt(s.ledger, i)), o, LostBy(s.ledger, o, i));
  }

  lemma {:induction false} ProcessAcksInv(s: State, o: Options, acks: seq<nat>)
    requires Inv(s, o) && Linked(s.ledger)
    ensures var r := ProcessAcks(s, o, acks); r.Some? ==> Inv(r.value, o)
    decreases acks
  {
    if acks != [] {
      ProcessAckInv(s, o, acks[0]);
      var t := ProcessAck(s, o, acks[0]);
      if t.Some? { ProcessAcksInv(t.value, o, acks[1..]); }
    }
  }

  lemma QueueAckInv(s: State, o: Options, p: Packet)
    requires Inv(s, o)
    ensures Inv(QueueAck(s, p), o)
  {
  }

  lemma ReceiveInv(s: State, o: Options, p: Packet)
    requires Inv(s, o) && Linked(s.ledger)
    ensures var r := Receive(s, o, p); r.Some? ==> Inv(r.value, o)
  {
    ProcessAcksInv(s, o, p.acks);
    var t := ProcessAcks(s, o, p.acks);
    if t.Some? { QueueAckInv(t.value, o, p); }
  }

  lemma RtoInv(s: State, o: Options, n: nat)
    requires Inv(s, o) && Linked(s.ledger)
    ensures var r := Step(s, o, RtoEvent(n)); r.Some? ==> Inv(r.value, o)
  {
    match FindNumber(s.ledger.window, n)
    case None =>
    case Some(i) =>
      var tx := s.ledger.window[i];
      assert [tx][1..] == [];
      OnLostInv(s, o, i, [tx]);
  }

  /** Every event keeps the invariant. */
  lemma StepInv(s: State, o: Options, e: Event)
    requires Inv(s, o) && Linked(s.ledger) && Enabled(s, e)
    ensures var r := Step(s, o, e); r.Some? ==> Inv(r.value, o)
  {
    match e
    case SendEvent(frags, pkt, isInterest) => SendInv(s, o, frags, pkt, isInterest);
    case ReceiveEvent(p) => ReceiveInv(s, o, p);
    case RtoEvent(n) => RtoInv(s, o, n);
    case IdleEvent => TransmitIdleInv(s, o);
  }

  /** The state a run of events leads to; None if an event was not possible or a length_error was thrown. */
  function Run(o: Options, events: seq<Event>): (r: Option<State>)
    requires o.modulus > 0
    ensures r.Some? ==> Linked(r.value.ledger)
  {
    if events == [] then Some(Init())
    else
      var e := events[|events| - 1];
      var s := Run(o, events[..|events| - 1]);
      if s.Some? && Enabled(s.value, e) then Step(s.value, o, e) else None
  }

  /** The invariant holds after every run. */
  lemma {:induction false} RunInv(o: Options, events: seq<Event>)
    requires o.modulus > 0
    ensures var s := Run(o, events); s.Some? ==> Inv(s.value, o)
  {
    if events == [] {
      InitInv(o);
    } else {
      var e := events[|events| - 1];
      RunInv(o, events[..|events| - 1]);
      var s := Run(o, events[..|events| - 1]);
      if s.Some? && Enabled(s.value, e) { StepInv(s.value, o, e); }
    }
  }

  /** A run with the states it goes through. */
  datatype History = History(events: seq<Event>, states: seq<State>)

  function Start(): History
  {
    History([], [Init()])
  }

  /** Event `e` leads from `s` to `t`. */
  ghost predicate Follows(o: Options, s: State, e: Event, t: State)
    requires o.modulus > 0
  {
    Linked(s.ledger) && Happens(s, o, e, true, t)
  }

  /** `h` is the history of a run that ends in `s`. */
  ghost predicate Ran(o: Options, h: History, s: State)
  {
    && o.modulus > 0 && |h.states| == |h.events| + 1 && h.states[0] == Init() && h.states[|h.events|] == s &&
      Linked(s.ledger)
    && forall k {:trigger h.events[k]} :: 0 <= k < |h.events| ==> Follows(o, h.states[k], h.events[k], h.states[k + 1])
  }

  lemma RunNext(o: Options, events: seq<Event>, k: nat, s: State, t: State)
    requires o.modulus > 0 && k < |events| && Run(o, events[..k]) == Some(s) && Follows(o, s, events[k], t)
    ensures Run(o, events[..k + 1]) == Some(t)
  {
    assert events[..k + 1][..k] == events[..k];
  }

  lemma RanStep(o: Options, h: History, s: State, k: nat)
    requires Ran(o, h, s) && k < |h.events|
    ensures Follows(o, h.states[k], h.events[k], h.states[k + 1])
  {
  }

  lemma RanRunNext(o: Options, h: History, s: State, k: nat)
    requires Ran(o, h, s) && k < |h.events| && Run(o, h.events[..k]) == Some(h.states[k])
    ensures Run(o, h.events[..k + 1]) == Some(h.states[k + 1])
  {
    RanStep(o, h, s, k);
    RunNext(o, h.events, k, h.states[k], h.states[k + 1]);
  }

  lemma RanStart(o: Options, h: History, s: State)
    requires Ran(o, h, s)
    ensures Run(o, h.events[..0]) == Some(h.states[0])
  {
    assert h.events[..0] == [];
  }

  lemma {:induction false} RanRun(o: Options, h: History, s: State, k: nat)
    requires Ran(o, h, s) && k <= |h.events|
    ensures Run(o, h.events[..k]) == Some(h.states[k])
  {
    if k == 0 {
      RanStart(o, h, s);
    } else {
      RanRun(o, h, s, k - 1);
      RanRunNext(o, h, s, k - 1);
    }
  }

  /** A history is a run of its events. */
  lemma RanInv(o: Options, h: History, s: State)
    requires Ran(o, h, s)
    ensures Run(o, h.events) == Some(s) && Inv(s, o) && Linked(s.ledger)
  {
    RanRun(o, h, s, |h.events|);
    assert h.events[..|h.events|] == h.events;
    RunInv(o, h.events);
  }
}
