/** LpReliability as a class: a sorted map of unacknowledged fragments, an iterator to the oldest one,
    NetPkt objects that list their fragments, RTO timers, the Ack queue and the duplicate filter. Every
    public method is proved to do what ReliabilitySpec says. */
module Reliability {
  import opened Packets
  import opened ReliabilitySpec
  import opened ReliabilityInvariants
  import opened ReliabilityStore
  import opened ReliabilityPending
  import opened TxWindow
  import AckQueue
  import DuplicateFilter

  /** What a received packet does to the filter of recent Sequences, and whether it counts as new. */
  predicate FilterStep(pkt: Packet, now: nat, rto: nat, before: DuplicateFilter.Filter, isNew: bool,
                       after: DuplicateFilter.Filter)
  {
    if pkt.fragment.Some? && pkt.txSequence.Some? && pkt.sequence.Some? then
      && (isNew <==> pkt.sequence.value !in before.seqs)
      && after == DuplicateFilter.Arrive(before, DuplicateFilter.Arrival(pkt.sequence.value, now, rto))
    else isNew && after == before
  }

  class LpReliability {
    const o: Options

    var unackedFrags: map<nat, UnackedFrag>
    var rtoTimers: map<nat, nat>          // armed RTO timers: TxSequence to deadline
    var firstUnackedFrag: Option<nat>     // iterator; None is end()
    var lastTxSeqNo: nat
    var netPkts: map<nat, NetPkt>         // live NetPkt objects by identity
    var nNetPkts: nat                     // NetPkt objects created so far
    var ackQueue: seq<nat>
    var recentRecvSeqs: map<nat, nat>
    var recentRecvSeqsQueue: seq<nat>
    var idleAckTimer: bool                // whether the idle-Ack timer is armed

    // counters and outputs of the link service
    var nAcknowledged: nat
    var nRetransmitted: nat
    var nRetxExhausted: nat
    var droppedInterests: seq<Packet>     // packets onDroppedInterest was fired with
    var sent: seq<Packet>                 // packets passed to sendLpPacket, with Acks attached

    ghost function Fields(): Store
      reads this`unackedFrags, this`rtoTimers, this`firstUnackedFrag, this`lastTxSeqNo, this`netPkts, this`nNetPkts,
            this`nAcknowledged, this`nRetransmitted, this`nRetxExhausted, this`droppedInterests
    {
      Store(unackedFrags, rtoTimers, firstUnackedFrag, lastTxSeqNo, netPkts, nNetPkts,
            nAcknowledged, nRetransmitted, nRetxExhausted, droppedInterests)
    }

    function Out(): Outgoing
      reads this`ackQueue, this`sent
    {
      Outgoing(ackQueue, sent)
    }

    function RecentSeqs(): DuplicateFilter.Filter
      reads this`recentRecvSeqs, this`recentRecvSeqsQueue
    {
      DuplicateFilter.Filter(recentRecvSeqs, recentRecvSeqsQueue)
    }

    /** The stored fields hold the state `s`. */
    ghost predicate HoldsState(s: State)
      reads this`unackedFrags, this`rtoTimers, this`firstUnackedFrag, this`lastTxSeqNo, this`netPkts, this`nNetPkts,
            this`nAcknowledged, this`nRetransmitted, this`nRetxExhausted, this`droppedInterests, this`ackQueue,
            this`sent
    {
      Holds(Fields(), s.ledger, o) && Out() == Outgoing(s.ackQueue, s.sent)
    }

    /** Between events: after the run `h` the fields hold the state `s` that it leads to, and the idle-Ack
        timer is armed whenever an Ack is waiting. */
    ghost predicate Valid(h: History, s: State)
      reads this
    {
      Ran(o, h, s) && HoldsState(s) && (|ackQueue| > 0 ==> idleAckTimer)
    }

    constructor (options: Options)
      requires options.modulus > 0
      ensures Valid(Start(), Init()) && o == options
    {
      o := options;
      unackedFrags, rtoTimers, firstUnackedFrag, lastTxSeqNo := map[], map[], None, options.modulus - 1;
      netPkts, nNetPkts, ackQueue := map[], 0, [];
      recentRecvSeqs, recentRecvSeqsQueue, idleAckTimer := map[], [], false;
      nAcknowledged, nRetransmitted, nRetxExhausted, droppedInterests, sent := 0, 0, 0, [], [];
    }

    // -------------------------------------------------------------- window primitives

    /** assignTxSequence(): the counter advances even when the range is exhausted. */
    method AssignTxSequence() returns (ok: bool, txSeq: nat)
      requires o.modulus > 0
      modifies this`lastTxSeqNo
      ensures txSeq == lastTxSeqNo == Next(old(lastTxSeqNo), o.modulus)
      ensures ok <==> !(unackedFrags != map[] && firstUnackedFrag == Some(txSeq))
    {
      lastTxSeqNo := Next(lastTxSeqNo, o.modulus);
      txSeq := lastTxSeqNo;
      ok := unackedFrags == map[] || firstUnackedFrag != Some(lastTxSeqNo);
    }

    /** deleteUnackedFrag(): erase the fragment, and with it its timer; move the window start if needed. */
    method DeleteUnackedFrag(txSeq: nat)
      requires firstUnackedFrag.Some?
      modifies this`unackedFrags, this`rtoTimers, this`firstUnackedFrag
      ensures unackedFrags == old(unackedFrags) - {txSeq} && rtoTimers == old(rtoTimers) - {txSeq}
      ensures firstUnackedFrag == FirstAfterErase(old(unackedFrags), old(firstUnackedFrag), txSeq)
    {
      var firstUnackedTxSeq := firstUnackedFrag.value;
      unackedFrags := unackedFrags - {txSeq};
      rtoTimers := rtoTimers - {txSeq};
      assert unackedFrags.Keys == old(unackedFrags.Keys) - {txSeq};
      var nextFrag := Successor(unackedFrags.Keys, txSeq);
      if unackedFrags != map[] && firstUnackedTxSeq == txSeq {
        if nextFrag.None? {
          firstUnackedFrag := Begin(unackedFrags.Keys);
        } else {
          firstUnackedFrag := nextFrag;
        }
      } else if unackedFrags == map[] {
        firstUnackedFrag := None;
      }
    }

    /** The body of the loop in findLostLpPackets(). */
    method CountGreaterAck(txSeq: nat, ghost w: seq<Tx>, ghost j: nat, ghost b: seq<Tx>)
      returns (isLost: bool, ghost b': seq<Tx>)
      requires j < |w| && w[j].key == txSeq && b == Bump(w, j) && Represents(unackedFrags, firstUnackedFrag, b)
      modifies this`unackedFrags
      ensures b' == Bump(w, j + 1) && Represents(unackedFrags, firstUnackedFrag, b')
      ensures isLost <==> Tips(w[j], o.seqNumLossThreshold)
      ensures BumpedFrom(old(unackedFrags), unackedFrags)
    {
      BumpRepresents(unackedFrags, firstUnackedFrag, w, j);
      b' := Bump(w, j + 1);
      var frag := unackedFrags[txSeq];
      frag := frag.(nGreaterSeqAcks := frag.nGreaterSeqAcks + 1);
      unackedFrags := unackedFrags[txSeq := frag];
      isLost := frag.nGreaterSeqAcks >= o.seqNumLossThreshold;
    }

    /** One turn of the loop in findLostLpPackets(), at position `j` of the window `w`; the map holds the
        window `b`, in which the entries before `j` have been counted. */
    method FindLostStep(it: Option<nat>, ackTxSeq: nat, lost: seq<nat>, ghost w: seq<Tx>, ghost i: nat, ghost j: nat,
                        ghost b: seq<Tx>, ghost reports: seq<seq<nat>>)
      returns (done: bool, it': Option<nat>, lost': seq<nat>, ghost b': seq<Tx>)
      requires j <= i < |w| && w[i].key == ackTxSeq && At(it, w, j) && DistinctKeys(w) && WalkOrder(w)
      requires b == Bump(w, j) && Represents(unackedFrags, firstUnackedFrag, b)
      requires Reports(reports, w, o.seqNumLossThreshold) && lost == reports[j]
      modifies this`unackedFrags
      ensures Represents(unackedFrags, firstUnackedFrag, b') && BumpedFrom(old(unackedFrags), unackedFrags)
      ensures done ==> j == i && b' == b && lost' == lost
      ensures !done ==> j < i && b' == Bump(w, j + 1) && At(it', w, j + 1) && lost' == reports[j + 1]
    {
      IteratorAt(unackedFrags, firstUnackedFrag, w, j, b, it);
      done, it', lost', b' := false, it, lost, b;
      if it'.None? {
        it' := Begin(unackedFrags.Keys);
      }
      assert it' == Some(w[j].key);
      if it'.value == ackTxSeq {
        KeyAt(w, j, i);
        done := true;
        return;
      }
      var isLost;
      isLost, b' := CountGreaterAck(it'.value, w, j, b);
      if isLost {
        lost' := lost' + [it'.value];
      }
      NextReport(reports, w, j, o.seqNumLossThreshold);
      IteratorMoves(unackedFrags, firstUnackedFrag, w, j, b');
      it' := Successor(unackedFrags.Keys, it'.value);
    }

    /** findLostLpPackets(): walk from the oldest fragment to the acknowledged one, with wraparound; `b` is the
        window that the map then holds. */
    method FindLostLpPackets(ackTxSeq: nat, ghost w: seq<Tx>, ghost i: nat) returns (lost: seq<nat>, ghost b: seq<Tx>)
      requires Represents(unackedFrags, firstUnackedFrag, w) && WalkOrder(w)
      requires i < |w| && w[i].key == ackTxSeq
      modifies this`unackedFrags
      ensures b == Bump(w, i) && Represents(unackedFrags, firstUnackedFrag, b)
      ensures lost == KeysOf(Lost(w, i, o.seqNumLossThreshold))
      ensures BumpedFrom(old(unackedFrags), unackedFrags)
    {
      BumpNone(w);
      ghost var reports := AllReports(w, o.seqNumLossThreshold);
      ghost var j := 0;
      assert ReportAt(reports[0], w, 0, o.seqNumLossThreshold) && ReportAt(reports[i], w, i, o.seqNumLossThreshold);
      lost, b := [], w;
      var it, done := firstUnackedFrag, false;
      while true
        invariant 0 <= j <= i && b == Bump(w, j) && At(it, w, j) && lost == reports[j]
        invariant Represents(unackedFrags, firstUnackedFrag, b)
        invariant BumpedFrom(old(unackedFrags), unackedFrags)
        decreases i - j
      {
        ghost var frags := unackedFrags;
        done, it, lost, b := FindLostStep(it, ackTxSeq, lost, w, i, j, b, reports);
        BumpedTwice(old(unackedFrags), frags, unackedFrags);
        if done {
          break;
        }
        j := j + 1;
      }
    }

    // -------------------------------------------------------------- sending

    /** piggyback(): attach as many queued Acks as fit. */
    method Piggyback(pkt: Packet) returns (p: Packet)
      requires !IsBare(pkt)
      modifies this`ackQueue
      ensures p == AckQueue.Attach(pkt, o.mtu, old(ackQueue))
      ensures ackQueue == AckQueue.Rest(pkt, o.mtu, old(ackQueue))
    {
      var pktSize := WireSize(pkt);
      var reservedSpace := VarNumberSize(MAX_NDN_PACKET_SIZE) - VarNumberSize(pktSize);
      var remainingSpace: int := (if o.mtu == MTU_UNLIMITED then MAX_NDN_PACKET_SIZE else o.mtu) - reservedSpace;
      remainingSpace := remainingSpace - pktSize;
      ghost var q, k := ackQueue, 0;
      ghost var space := remainingSpace;
      p := pkt;
      while ackQueue != []
        invariant 0 <= k <= |q| && ackQueue == q[k..] && p == pkt.(acks := pkt.acks + q[..k])
        invariant remainingSpace == space - ACK_SIZE * k && (k > 0 ==> ACK_SIZE * k <= space)
        decreases |ackQueue|
      {
        if ACK_SIZE > remainingSpace {
          break;
        }
        p := p.(acks := p.acks + [ackQueue[0]]);
        assert q[..k + 1] == q[..k] + [q[k]];
        ackQueue := ackQueue[1..];
        remainingSpace := remainingSpace - ACK_SIZE;
        k := k + 1;
      }
    }

    /** sendLpPacket(), up to the hand-over to the transport. */
    method SendLpPacket(pkt: Packet)
      requires !IsBare(pkt)
      modifies this`ackQueue, this`sent
      ensures sent == old(sent) + [AckQueue.Attach(pkt, o.mtu, old(ackQueue))]
      ensures ackQueue == AckQueue.Rest(pkt, o.mtu, old(ackQueue))
    {
      var p := Piggyback(pkt);
      sent := sent + [p];
    }

    // -------------------------------------------------------------- acknowledging

    /** onLpPacketAcknowledged() */
    method OnLpPacketAcknowledged(txSeq: nat)
      requires CanAck(Fields(), unackedFrags, txSeq)
      modifies this`unackedFrags, this`rtoTimers, this`firstUnackedFrag, this`netPkts, this`nAcknowledged,
               this`nRetransmitted
      ensures Fields() == AckStore(old(Fields()), old(unackedFrags), txSeq)
    {
      UnlinkFrag(txSeq, unackedFrags[txSeq].netPkt);
      DeleteUnackedFrag(txSeq);
    }

    /** Take a fragment off the list of its NetPkt; the last one settles the packet. */
    method UnlinkFrag(txSeq: nat, id: nat)
      requires id in netPkts && txSeq in netPkts[id].unackedFrags
      modifies this`netPkts, this`nAcknowledged, this`nRetransmitted
      ensures netPkts == Unlink(old(netPkts), id, txSeq)
      ensures var last, retx := |old(netPkts)[id].unackedFrags| == 1, old(netPkts)[id].didRetx;
              && nAcknowledged == old(nAcknowledged) + (if last && !retx then 1 else 0)
              && nRetransmitted == old(nRetransmitted) + (if last && retx then 1 else 0)
    {
      var netPkt := netPkts[id];
      var list := SwapRemove(netPkt.unackedFrags, txSeq);
      if list == [] {
        if netPkt.didRetx {
          nRetransmitted := nRetransmitted + 1;
        } else {
          nAcknowledged := nAcknowledged + 1;
        }
        // the NetPkt object goes with its last fragment
        netPkts := netPkts - {id};
      } else {
        netPkts := netPkts[id := netPkt.(unackedFrags := list)];
      }
    }

    // -------------------------------------------------------------- losing

    /** The loop of onLpPacketLost() that erases the other fragments of a packet. */
    method EraseOthers(list: seq<nat>, txSeq: nat) returns (removed: set<nat>)
      requires Distinct(list) && SetOf(list) <= unackedFrags.Keys && firstUnackedFrag.Some?
      modifies this`unackedFrags, this`rtoTimers, this`firstUnackedFrag
      ensures removed == SetOf(list) - {txSeq}
      ensures unackedFrags == old(unackedFrags) - removed && rtoTimers == old(rtoTimers) - removed
      ensures firstUnackedFrag == FirstAfterErasing(old(unackedFrags), old(firstUnackedFrag), list, txSeq)
      ensures unackedFrags.Keys != {} ==> firstUnackedFrag.Some?
    {
      removed := {};
      assert SetOf(list[..0]) - {txSeq} == {};
      for i := 0 to |list|
        invariant removed == SetOf(list[..i]) - {txSeq}
        invariant unackedFrags == old(unackedFrags) - removed && rtoTimers == old(rtoTimers) - removed
        invariant firstUnackedFrag == FirstAfterErasing(old(unackedFrags), old(firstUnackedFrag), list[..i], txSeq)
        invariant unackedFrags.Keys != {} ==> firstUnackedFrag.Some?
      {
        NextInSet(list, i);
        if list[i] != txSeq {
          MinusTwice(old(unackedFrags), removed, list[i]);
          MinusTwice(old(rtoTimers), removed, list[i]);
          assert list[i] in unackedFrags;
          DeleteUnackedFrag(list[i]);
          removed := removed + {list[i]};
        }
        assert list[..i + 1][..i] == list[..i];
      }
      assert list[..|list|] == list;
    }

    /** The branch of onLpPacketLost() without retransmissions left: all fragments of the packet go. */
    method GiveUp(txSeq: nat, id: nat) returns (removed: set<nat>)
      requires id in netPkts && txSeq in netPkts[id].unackedFrags && firstUnackedFrag.Some?
      requires Distinct(netPkts[id].unackedFrags) && SetOf(netPkts[id].unackedFrags) <= unackedFrags.Keys
      modifies this`unackedFrags, this`rtoTimers, this`firstUnackedFrag, this`netPkts, this`nRetxExhausted,
               this`droppedInterests
      ensures var list := old(netPkts)[id].unackedFrags;
              && removed == SetOf(list)
              && unackedFrags == old(unackedFrags) - removed && rtoTimers == old(rtoTimers) - removed
              && firstUnackedFrag == FirstAfterGivingUp(old(unackedFrags), old(firstUnackedFrag), list, txSeq)
      ensures netPkts == old(netPkts) - {id} && nRetxExhausted == old(nRetxExhausted) + 1
      ensures droppedInterests == old(droppedInterests)
                                  + if old(netPkts)[id].isInterest then [old(netPkts)[id].pkt] else []
    {
      var netPkt := netPkts[id];
      removed := EraseOthers(netPkt.unackedFrags, txSeq);
      nRetxExhausted := nRetxExhausted + 1;
      if netPkt.isInterest {
        droppedInterests := droppedInterests + [netPkt.pkt];
      }
      assert txSeq in SetOf(netPkt.unackedFrags) && txSeq in unackedFrags;
      MinusTwice(old(unackedFrags), removed, txSeq);
      MinusTwice(old(rtoTimers), removed, txSeq);
      DeleteUnackedFrag(txSeq);
      removed := removed + {txSeq};
      netPkts := netPkts - {id}; // released with its last fragment
    }

    /** Move a fragment to its new TxSequence, in the map and in the list of its NetPkt. */
    method MoveFrag(txSeq: nat, newTxSeq: nat)
      requires CanLose(Fields(), txSeq)
      modifies this`unackedFrags, this`rtoTimers, this`firstUnackedFrag, this`netPkts
      ensures var st := ResendStore(old(Fields()), txSeq, newTxSeq, 0);
              unackedFrags == st.frags && firstUnackedFrag == st.first && netPkts == st.netPkts
      ensures rtoTimers == old(rtoTimers) - {txSeq}
    {
      var txFrag := unackedFrags[txSeq];
      var id := txFrag.netPkt;
      var list := netPkts[id].unackedFrags;
      unackedFrags := unackedFrags[newTxSeq := Again(txFrag, newTxSeq)];
      netPkts := netPkts[id := netPkts[id].(unackedFrags := list[IndexIn(list, txSeq) := newTxSeq], didRetx := true)];
      DeleteUnackedFrag(txSeq);
    }

    /** The branch of onLpPacketLost() that sends the fragment again. */
    method Resend(txSeq: nat, deadline: nat) returns (ok: bool)
      requires o.modulus > 0 && CanLose(Fields(), txSeq)
      modifies this`unackedFrags, this`rtoTimers, this`firstUnackedFrag, this`lastTxSeqNo, this`netPkts,
               this`ackQueue, this`sent
      ensures var k := Next(old(lastTxSeqNo), o.modulus);
              var pkt := Again(old(unackedFrags)[txSeq], k).pkt;
              && (ok <==> old(firstUnackedFrag) != Some(k))
              && (ok ==> && Fields() == ResendStore(old(Fields()), txSeq, k, deadline)
                         && sent == old(sent) + [AckQueue.Attach(pkt, o.mtu, old(ackQueue))]
                         && ackQueue == AckQueue.Rest(pkt, o.mtu, old(ackQueue)))
    {
      var txFrag := unackedFrags[txSeq];
      var newTxSeq;
      ok, newTxSeq := AssignTxSequence();
      if ok {
        MoveFrag(txSeq, newTxSeq);
        SendLpPacket(Again(txFrag, newTxSeq).pkt);
        rtoTimers := rtoTimers[newTxSeq := deadline];
      }
    }

    /** onLpPacketLost(): resend or give up on a fragment that is in the map. */
    method OnLpPacketLost(txSeq: nat, deadline: nat) returns (ok: bool, removed: set<nat>)
      requires o.modulus > 0 && CanLose(Fields(), txSeq)
      modifies this`unackedFrags, this`rtoTimers, this`firstUnackedFrag, this`lastTxSeqNo, this`netPkts,
               this`nRetxExhausted, this`droppedInterests, this`ackQueue, this`sent
      ensures LostCall(old(Fields()), old(Out()), o, txSeq, deadline, ok, Fields(), Out(), removed)
    {
      if unackedFrags[txSeq].retxCount >= o.maxRetx {
        removed := GiveUp(txSeq, unackedFrags[txSeq].netPkt);
        ok := true;
      } else {
        ok := Resend(txSeq, deadline);
        removed := {txSeq};
      }
    }

    /** onLpPacketLost() for the entry at position `i` of the window. */
    method LoseEntry(txSeq: nat, deadline: nat, ghost s: State, ghost i: nat)
      returns (ok: bool, removed: set<nat>, ghost t: State)
      requires HoldsState(s) && Shape(s.ledger, o)
      requires i < |s.ledger.window| && s.ledger.window[i].key == txSeq
      modifies this`unackedFrags, this`rtoTimers, this`firstUnackedFrag, this`lastTxSeqNo, this`netPkts,
               this`nRetxExhausted, this`droppedInterests, this`ackQueue, this`sent
      ensures LostOutcome(s, o, i, ok, t)
      ensures ok ==> HoldsState(t) && RemovedKeys(s.ledger.window, t.ledger.window, removed)
    {
      ghost var st, out := Fields(), Out();
      EntryCanBeLost(st, s.ledger, o, i);
      ok, removed := OnLpPacketLost(txSeq, deadline);
      t := LostCallRefines(st, out, s, o, i, deadline, ok, Fields(), Out(), removed);
    }

    // -------------------------------------------------------------- receiving

    /** findLostLpPackets() for the entry at position `i` of the window: acknowledging it is what remains. */
    method FindLostEntries(ackTxSeq: nat, ghost l: Ledger, ghost i: nat) returns (lost: seq<nat>)
      requires Holds(Fields(), l, o) && Shape(l, o)
      requires i < |l.window| && l.window[i].key == ackTxSeq
      modifies this`unackedFrags
      ensures ReadyToAck(Fields(), l, o, i)
      ensures lost == KeysOf(LostBy(l, o, i))
    {
      ghost var st := Fields();
      EntryCanBeAcked(st, l, o, i);
      ghost var b;
      lost, b := FindLostLpPackets(ackTxSeq, l.window, i);
      AckCallRefines(st, Fields(), l, o, i, b);
    }

    /** findLostLpPackets() and onLpPacketAcknowledged() for the entry at position `i` of the window. */
    method AckEntry(ackTxSeq: nat, ghost l: Ledger, ghost i: nat) returns (lost: seq<nat>)
      requires Holds(Fields(), l, o) && Shape(l, o)
      requires i < |l.window| && l.window[i].key == ackTxSeq
      modifies this`unackedFrags, this`rtoTimers, this`firstUnackedFrag, this`netPkts, this`nAcknowledged,
               this`nRetransmitted
      ensures Holds(Fields(), AckAt(l, i), o)
      ensures lost == KeysOf(LostBy(l, o, i))
    {
      lost := FindLostEntries(ackTxSeq, l, i);
      OnLpPacketAcknowledged(ackTxSeq);
    }

    /** One turn of the loop over the fragments that an Ack declared lost. */
    method HandleLostPacket(txSeq: nat, removed: set<nat>, deadline: nat, ghost s: State, ghost rest: seq<Tx>)
      returns (ok: bool, removed': set<nat>, ghost t: State)
      requires HoldsState(s) && Shape(s.ledger, o)
      requires Pending(s.ledger, o, rest, removed) && rest != [] && rest[0].key == txSeq
      modifies this`unackedFrags, this`rtoTimers, this`firstUnackedFrag, this`lastTxSeqNo, this`netPkts,
               this`nRetxExhausted, this`droppedInterests, this`ackQueue, this`sent
      ensures LostStep(s, o, rest, ok, t)
      ensures ok ==> HoldsState(t) && Pending(t.ledger, o, rest[1..], removed')
    {
      ok, removed', t := true, removed, s;
      if txSeq in removed {
        SkipLost(s, o, rest);
      } else {
        ghost var i := FindPending(s.ledger, o, rest, removed);
        var more;
        ok, more, t := LoseEntry(txSeq, deadline, s, i);
        HandleLost(s, o, rest, i, ok, t, removed, more);
        removed' := removed + more;
      }
    }

    /** The loop over the fragments that an Ack declared lost. */
    method HandleLostPackets(lostTxSeqs: seq<nat>, deadline: nat, ghost s: State, ghost lost: seq<Tx>)
      returns (ok: bool, ghost t: State)
      requires HoldsState(s) && Shape(s.ledger, o)
      requires lostTxSeqs == KeysOf(lost) && Pending(s.ledger, o, lost, {})
      modifies this`unackedFrags, this`rtoTimers, this`firstUnackedFrag, this`lastTxSeqNo, this`netPkts,
               this`nRetxExhausted, this`droppedInterests, this`ackQueue, this`sent
      ensures ProcessLost(s, o, lost) == if ok then Some(t) else None
      ensures ok ==> HoldsState(t) && Shape(t.ledger, o)
    {
      var removed: set<nat> := {};
      var todo := lostTxSeqs;
      ghost var rest := lost;
      ok, t := true, s;
      while todo != []
        invariant todo == KeysOf(rest)
        invariant HoldsState(t) && Shape(t.ledger, o) && Pending(t.ledger, o, rest, removed)
        invariant ok && ProcessLost(s, o, lost) == ProcessLost(t, o, rest)
        decreases |todo|
      {
        KeysOfTail(rest);
        ok, removed, t := HandleLostPacket(todo[0], removed, deadline, t, rest);
        if !ok {
          return;
        }
        todo, rest := todo[1..], rest[1..];
      }
    }

    /** findLostLpPackets() and onLpPacketAcknowledged() for an Ack; `s'` and `lost'` are what the loop over the
        lost fragments starts from. */
    method TakeAck(ackTxSeq: nat, ghost s: State, ghost i: nat)
      returns (lost: seq<nat>, ghost s': State, ghost lost': seq<Tx>)
      requires HoldsState(s) && Shape(s.ledger, o)
      requires i < |s.ledger.window| && s.ledger.window[i].key == ackTxSeq
      modifies this`unackedFrags, this`rtoTimers, this`firstUnackedFrag, this`netPkts, this`nAcknowledged,
               this`nRetransmitted
      ensures AckLeft(s, o, i, s', lost') && lost == KeysOf(lost')
      ensures HoldsState(s') && Shape(s'.ledger, o) && Pending(s'.ledger, o, lost', {})
    {
      lost := AckEntry(ackTxSeq, s.ledger, i);
      s', lost' := AckLeaves(s, o, i);
    }

    /** An Ack for the entry at position `i` of the window. */
    method ProcessKnownAck(ackTxSeq: nat, deadline: nat, ghost s: State, ghost i: nat)
      returns (ok: bool, ghost t: State)
      requires HoldsState(s) && Shape(s.ledger, o)
      requires i < |s.ledger.window| && s.ledger.window[i].key == ackTxSeq
      modifies this`unackedFrags, this`rtoTimers, this`firstUnackedFrag, this`lastTxSeqNo, this`netPkts,
               this`nAcknowledged, this`nRetransmitted, this`nRetxExhausted, this`droppedInterests, this`ackQueue,
               this`sent
      ensures AckTaken(s, o, i, ok, t)
      ensures ok ==> HoldsState(t) && Shape(t.ledger, o)
    {
      var lost;
      ghost var s', lost';
      lost, s', lost' := TakeAck(ackTxSeq, s, i);
      ok, t := HandleLostPackets(lost, deadline, s', lost');
      AckDone(s, o, i, s', lost', ok, t);
    }

    /** One turn of the loop over the Acks of a received packet. */
    method ProcessAck(ackTxSeq: nat, deadline: nat, ghost s: State) returns (ok: bool, ghost t: State)
      requires HoldsState(s) && Shape(s.ledger, o)
      modifies this`unackedFrags, this`rtoTimers, this`firstUnackedFrag, this`lastTxSeqNo, this`netPkts,
               this`nAcknowledged, this`nRetransmitted, this`nRetxExhausted, this`droppedInterests, this`ackQueue,
               this`sent
      ensures AckStep(s, o, ackTxSeq, ok, t)
      ensures ok ==> HoldsState(t)
    {
      if ackTxSeq in unackedFrags {
        ghost var i := KnownAck(Fields(), s.ledger, ackTxSeq);
        ok, t := ProcessKnownAck(ackTxSeq, deadline, s, i);
        KnownAckStep(s, o, ackTxSeq, i, ok, t);
      } else {
        UnknownAck(Fields(), s, o, ackTxSeq);
        ok, t := true, s;
      }
    }

    /** The loop over the Acks of a received packet. */
    method ProcessAcks(acks: seq<nat>, deadline: nat, ghost s: State) returns (ok: bool, ghost t: State)
      requires HoldsState(s) && Shape(s.ledger, o)
      modifies this`unackedFrags, this`rtoTimers, this`firstUnackedFrag, this`lastTxSeqNo, this`netPkts,
               this`nAcknowledged, this`nRetransmitted, this`nRetxExhausted, this`droppedInterests, this`ackQueue,
               this`sent
      ensures AcksDone(s, o, acks, ok, t)
      ensures ok ==> HoldsState(t)
    {
      var todo := acks;
      ok, t := true, s;
      while todo != []
        invariant ok && HoldsState(t) && AcksLeft(s, o, acks, t, todo)
        decreases |todo|
      {
        ghost var before := t;
        ok, t := ProcessAck(todo[0], deadline, before);
        NextAck(s, o, acks, before, todo, ok, t);
        if !ok {
          return;
        }
        todo := todo[1..];
      }
    }

    /** The duplicate check of processIncomingPacket(). */
    method CheckDuplicate(pktSequence: nat, now: nat, rto: nat) returns (isDuplicate: bool)
      modifies this`recentRecvSeqs, this`recentRecvSeqsQueue
      ensures isDuplicate <==> pktSequence in old(recentRecvSeqs)
      ensures RecentSeqs() == DuplicateFilter.Arrive(old(RecentSeqs()), DuplicateFilter.Arrival(pktSequence, now, rto))
    {
      isDuplicate := pktSequence in recentRecvSeqs;
      while recentRecvSeqsQueue != []
        invariant DuplicateFilter.Purge(RecentSeqs(), now, rto) == DuplicateFilter.Purge(old(RecentSeqs()), now, rto)
        decreases |recentRecvSeqsQueue|
      {
        var front := recentRecvSeqsQueue[0];
        recentRecvSeqs := DuplicateFilter.Touch(recentRecvSeqs, front); // operator[] creates a missing entry
        if !(now > recentRecvSeqs[front] + rto) {
          break;
        }
        recentRecvSeqs := recentRecvSeqs - {front};
        recentRecvSeqsQueue := recentRecvSeqsQueue[1..];
      }
      if pktSequence !in recentRecvSeqs {
        recentRecvSeqs := recentRecvSeqs[pktSequence := now];
      }
      recentRecvSeqsQueue := recentRecvSeqsQueue + [pktSequence];
    }

    /** The part of processIncomingPacket() after the loop over Acks. */
    method QueueFragmentAck(pkt: Packet, now: nat, rto: nat) returns (isNew: bool)
      modifies this`ackQueue, this`recentRecvSeqs, this`recentRecvSeqsQueue, this`idleAckTimer
      ensures ackQueue == old(ackQueue) + AckFor(pkt)
      ensures old(|ackQueue| > 0 ==> idleAckTimer) ==> ackQueue != [] ==> idleAckTimer
      ensures FilterStep(pkt, now, rto, old(RecentSeqs()), isNew, RecentSeqs())
    {
      isNew := true;
      if pkt.fragment.Some? && pkt.txSequence.Some? {
        ackQueue := ackQueue + [pkt.txSequence.value];
        if pkt.sequence.Some? {
          var isDuplicate := CheckDuplicate(pkt.sequence.value, now, rto);
          isNew := !isDuplicate;
        }
        idleAckTimer := true;
      }
    }

    /** The same on fields that hold `u`. */
    method QueueAckOf(pkt: Packet, now: nat, rto: nat, ghost u: State, ghost t: State) returns (isNew: bool)
      requires HoldsState(u) && t.ledger == u.ledger && t.sent == u.sent && t.ackQueue == u.ackQueue + AckFor(pkt)
      modifies this`ackQueue, this`recentRecvSeqs, this`recentRecvSeqsQueue, this`idleAckTimer
      ensures HoldsState(t) && FilterStep(pkt, now, rto, old(RecentSeqs()), isNew, RecentSeqs())
      ensures old(|ackQueue| > 0 ==> idleAckTimer) ==> ackQueue != [] ==> idleAckTimer
    {
      isNew := QueueFragmentAck(pkt, now, rto);
    }

    /** processIncomingPacket() on fields that hold `s`. */
    method ReceivePacket(pkt: Packet, now: nat, rto: nat, deadline: nat, ghost h: History, ghost s: State)
      returns (ok: bool, isNew: bool, ghost t: State)
      requires HoldsState(s) && Ran(o, h, s)
      modifies this`unackedFrags, this`rtoTimers, this`firstUnackedFrag, this`lastTxSeqNo, this`netPkts,
               this`nAcknowledged, this`nRetransmitted, this`nRetxExhausted, this`droppedInterests, this`ackQueue,
               this`sent,
               this`recentRecvSeqs, this`recentRecvSeqsQueue, this`idleAckTimer
      ensures Happens(s, o, ReceiveEvent(pkt), ok, t)
      ensures ok ==> HoldsState(t) && FilterStep(pkt, now, rto, old(RecentSeqs()), isNew, RecentSeqs())
      ensures ok && old(|ackQueue| > 0 ==> idleAckTimer) ==> ackQueue != [] ==> idleAckTimer
    {
      RanShape(o, h, s);
      isNew := true;
      ghost var u;
      ok, u := ProcessAcks(pkt.acks, deadline, s);
      t := ReceiveResult(s, o, pkt, ok, u);
      if ok {
        isNew := QueueAckOf(pkt, now, rto, u, t);
      }
    }

    /** processIncomingPacket(): `ok` is false when an exception leaves it; otherwise `isNew` is its result. */
    method ProcessIncomingPacket(pkt: Packet, now: nat, rto: nat, deadline: nat, ghost h: History, ghost s: State)
      returns (ok: bool, isNew: bool, ghost h': History, ghost t: State)
      requires Valid(h, s)
      modifies this
      ensures Happens(s, o, ReceiveEvent(pkt), ok, t)
      ensures ok ==> Valid(h', t) && h'.events == h.events + [ReceiveEvent(pkt)]
      ensures ok ==> FilterStep(pkt, now, rto, old(RecentSeqs()), isNew, RecentSeqs())
    {
      ok, isNew, t := ReceivePacket(pkt, now, rto, deadline, h, s);
      h' := RanNext(o, h, s, ReceiveEvent(pkt), ok, t);
    }

    // -------------------------------------------------------------- outgoing packets

    /** One turn of the loop in handleOutgoing(), for a fragment of the NetPkt `id`. */
    method StoreFrag(frag: Packet, id: nat, deadline: nat) returns (ok: bool, numbered: Packet)
      requires id in netPkts && o.modulus > 0
      modifies this`unackedFrags, this`rtoTimers, this`firstUnackedFrag, this`lastTxSeqNo, this`netPkts
      ensures InsertCall(old(Fields()), o, id, frag, deadline, ok, Fields())
      ensures numbered == frag.(txSequence := Some(Next(old(lastTxSeqNo), o.modulus)))
    {
      var txSeq;
      ok, txSeq := AssignTxSequence();
      numbered := frag.(txSequence := Some(txSeq));
      if ok {
        unackedFrags := unackedFrags[txSeq := UnackedFrag(numbered, 0, 0, id)];
        rtoTimers := rtoTimers[txSeq := deadline];
        if |unackedFrags| == 1 {
          firstUnackedFrag := Begin(unackedFrags.Keys);
        }
        netPkts := netPkts[id := netPkts[id].(unackedFrags := netPkts[id].unackedFrags + [txSeq])];
      }
    }

    /** The same, for fragment `id.ord` of packet `id.pkt` of the ledger `l`. */
    method StoreEntry(frag: Packet, deadline: nat, ghost l: Ledger, id: FragId) returns (ok: bool, numbered: Packet)
      requires Holds(Fields(), l, o) && Numbering(l, o) && id.pkt in netPkts && id.pkt < |l.pkts|
      modifies this`unackedFrags, this`rtoTimers, this`firstUnackedFrag, this`lastTxSeqNo, this`netPkts
      ensures ok <==> !Full(l, o)
      ensures numbered == frag.(txSequence := Some(|l.log| % o.modulus))
      ensures ok ==> Holds(Fields(), AddTx(l, o, id, frag, 0), o) && Numbering(AddTx(l, o, id, frag, 0), o)
      ensures ok ==> id.pkt in netPkts
    {
      ghost var st := Fields();
      AssignRefines(st, l, o);
      ok, numbered := StoreFrag(frag, id.pkt, deadline);
      InsertCallRefines(st, l, o, id, frag, deadline, ok, Fields());
    }

    /** make_shared<NetPkt>() */
    method NewNetPkt(ghost frags: seq<Packet>, pkt: Packet, isInterest: bool, ghost l: Ledger)
      returns (id: nat, ghost m: Ledger)
      requires Holds(Fields(), l, o) && Numbering(l, o) && (forall k :: k in l.dropped ==> k < |l.pkts|)
      modifies this`netPkts, this`nNetPkts
      ensures id == |l.pkts| && id in netPkts && Holds(Fields(), m, o) && Numbering(m, o)
      ensures FragsLeft(l, o, frags, pkt, isInterest, m, 0)
    {
      NewRefines(Fields(), l, o, frags, pkt, isInterest);
      id := nNetPkts;
      netPkts, nNetPkts := netPkts[id := NetPkt([], pkt, isInterest, false)], nNetPkts + 1;
      m := NewPacket(l, frags, pkt, isInterest);
    }

    /** One turn of the loop in handleOutgoing(). */
    method StoreNext(frags: seq<Packet>, j: nat, deadline: nat, id: nat, numbered: seq<Packet>,
                     ghost l: Ledger, ghost pkt: Packet, ghost isInterest: bool, ghost m: Ledger)
      returns (ok: bool, numbered': seq<Packet>, ghost m': Ledger)
      requires Holds(Fields(), m, o) && Numbering(m, o) && Linked(l) && j < |frags| && id == |l.pkts| && id in netPkts
      requires FragsLeft(l, o, frags, pkt, isInterest, m, j) &&
               numbered == WithTxSequences(frags[..j], |l.log|, o.modulus)
      modifies this`unackedFrags, this`rtoTimers, this`firstUnackedFrag, this`lastTxSeqNo, this`netPkts
      ensures !ok ==> ReliabilitySpec.HandleOutgoing(l, o, frags, pkt, isInterest).None?
      ensures ok ==> Holds(Fields(), m', o) && Numbering(m', o) && id in netPkts
      ensures ok ==> FragsLeft(l, o, frags, pkt, isInterest, m', j + 1)
      ensures ok ==> numbered' == WithTxSequences(frags[..j + 1], |l.log|, o.modulus)
    {
      var frag;
      ok, frag := StoreEntry(frags[j], deadline, m, FragId(id, j));
      m' := NextLedger(l, o, frags, pkt, isInterest, m, j);
      numbered' := numbered + [frag];
    }

    /** handleOutgoing() */
    method HandleOutgoing(frags: seq<Packet>, pkt: Packet, isInterest: bool, deadline: nat, ghost l: Ledger)
      returns (ok: bool, numbered: seq<Packet>, ghost m: Ledger)
      requires Holds(Fields(), l, o) && Numbering(l, o) && (forall k :: k in l.dropped ==> k < |l.pkts|)
      modifies this`unackedFrags, this`rtoTimers, this`firstUnackedFrag, this`lastTxSeqNo, this`netPkts, this`nNetPkts
      ensures ReliabilitySpec.HandleOutgoing(l, o, frags, pkt, isInterest) == if ok then Some(m) else None
      ensures ok ==> Holds(Fields(), m, o) && numbered == WithTxSequences(frags, |l.log|, o.modulus)
    {
      var id;
      ghost var m0;
      id, m0 := NewNetPkt(frags, pkt, isInterest, l);
      ok, numbered, m := StoreAll(frags, deadline, id, l, pkt, isInterest, m0);
    }

    /** The loop of handleOutgoing(). */
    method StoreAll(frags: seq<Packet>, deadline: nat, id: nat, ghost l: Ledger, ghost pkt: Packet,
                    ghost isInterest: bool, ghost m0: Ledger)
      returns (ok: bool, numbered: seq<Packet>, ghost m: Ledger)
      requires Holds(Fields(), m0, o) && Numbering(m0, o) && Linked(l) && id == |l.pkts| && id in netPkts
      requires FragsLeft(l, o, frags, pkt, isInterest, m0, 0)
      modifies this`unackedFrags, this`rtoTimers, this`firstUnackedFrag, this`lastTxSeqNo, this`netPkts
      ensures ReliabilitySpec.HandleOutgoing(l, o, frags, pkt, isInterest) == if ok then Some(m) else None
      ensures ok ==> Holds(Fields(), m, o) && numbered == WithTxSequences(frags, |l.log|, o.modulus)
    {
      numbered, ok, m := [], true, m0;
      var j := 0;
      while j < |frags|
        invariant 0 <= j <= |frags| && ok && id in netPkts
        invariant Holds(Fields(), m, o) && Numbering(m, o)
        invariant FragsLeft(l, o, frags, pkt, isInterest, m, j)
        invariant numbered == WithTxSequences(frags[..j], |l.log|, o.modulus)
      {
        ok, numbered, m := StoreNext(frags, j, deadline, id, numbered, l, pkt, isInterest, m);
        if !ok {
          return;
        }
        j := j + 1;
      }
      AllFrags(l, o, frags, pkt, isInterest, m);
    }

    /** The loop of sendNetPacket() that passes the fragments to sendLpPacket(). */
    method TransmitAll(numbered: seq<Packet>, ghost s: State, ghost first: nat, ghost frags: seq<Packet>)
      requires o.modulus > 0 && Out() == Outgoing(s.ackQueue, s.sent) &&
               numbered == WithTxSequences(frags, first, o.modulus)
      modifies this`ackQueue, this`sent
      ensures var t := TransmitFrags(s, o, first, frags, 0); Out() == Outgoing(t.ackQueue, t.sent)
      ensures |ackQueue| <= |old(ackQueue)|
    {
      ghost var t := s;
      for j := 0 to |numbered|
        invariant Out() == Outgoing(t.ackQueue, t.sent)
        invariant TransmitFrags(t, o, first, frags, j) == TransmitFrags(s, o, first, frags, 0)
        invariant |ackQueue| <= |old(ackQueue)|
      {
        assert numbered[j] == frags[j].(txSequence := Some((first + j) % o.modulus));
        SendLpPacket(numbered[j]);
        t := Transmit(t, o, numbered[j]);
      }
    }

    /** sendNetPacket() from handleOutgoing() on, on fields that hold `s`. */
    method SendNumbered(frags: seq<Packet>, pkt: Packet, isInterest: bool, deadline: nat, ghost h: History,
                        ghost s: State)
      returns (ok: bool, ghost t: State)
      requires HoldsState(s) && Ran(o, h, s)
      requires frags != [] && (forall f :: f in frags ==> PlainFrag(f))
      modifies this`unackedFrags, this`rtoTimers, this`firstUnackedFrag, this`lastTxSeqNo, this`netPkts, this`nNetPkts,
               this`ackQueue, this`sent
      ensures Happens(s, o, SendEvent(frags, pkt, isInterest), ok, t)
      ensures ok ==> HoldsState(t)
      ensures ok ==> |ackQueue| <= |old(ackQueue)|
    {
      RanNumbering(o, h, s);
      var numbered;
      ghost var m;
      ok, numbered, m := HandleOutgoing(frags, pkt, isInterest, deadline, s.ledger);
      t := SendResult(s, o, frags, pkt, isInterest, ok, m);
      if ok {
        TransmitAll(numbered, s.(ledger := m), |s.ledger.log|, frags);
      }
    }

    /** sendNetPacket() from handleOutgoing() on. */
    method SendFragments(frags: seq<Packet>, pkt: Packet, isInterest: bool, deadline: nat, ghost h: History,
                         ghost s: State)
      returns (ok: bool, ghost h': History, ghost t: State)
      requires Valid(h, s) && frags != [] && (forall f :: f in frags ==> PlainFrag(f) && f.sequence.Some?)
      modifies this
      ensures Happens(s, o, SendEvent(frags, pkt, isInterest), ok, t)
      ensures ok ==> Valid(h', t) && h'.events == h.events + [SendEvent(frags, pkt, isInterest)]
    {
      ok, t := SendNumbered(frags, pkt, isInterest, deadline, h, s);
      h' := RanNext(o, h, s, SendEvent(frags, pkt, isInterest), ok, t);
    }

    // -------------------------------------------------------------- timers

    /** The RTO timer of the fragment with TxSequence `txSeq` fires, on fields that hold `s`; `n` is the
        number of that transmission. */
    method FireRto(txSeq: nat, deadline: nat, ghost h: History, ghost s: State)
      returns (ok: bool, ghost t: State, ghost n: nat)
      requires HoldsState(s) && Ran(o, h, s) && txSeq in rtoTimers
      modifies this`unackedFrags, this`rtoTimers, this`firstUnackedFrag, this`lastTxSeqNo, this`netPkts,
               this`nRetxExhausted, this`droppedInterests, this`ackQueue, this`sent
      ensures n % o.modulus == txSeq && Happens(s, o, RtoEvent(n), ok, t)
      ensures ok ==> HoldsState(t)
      ensures ok ==> |ackQueue| <= |old(ackQueue)|
    {
      RanShape(o, h, s);
      ghost var i := KnownAck(Fields(), s.ledger, txSeq);
      var removed;
      ok, removed, t := LoseEntry(txSeq, deadline, s, i);
      n := s.ledger.window[i].n;
      RtoResult(s, o, txSeq, i, ok, t);
    }

    /** The RTO timer of the fragment with TxSequence `txSeq` fires; `n` is the number of that transmission. */
    method OnRtoTimer(txSeq: nat, deadline: nat, ghost h: History, ghost s: State)
      returns (ok: bool, ghost n: nat, ghost h': History, ghost t: State)
      requires Valid(h, s) && txSeq in rtoTimers
      modifies this
      ensures n % o.modulus == txSeq && Happens(s, o, RtoEvent(n), ok, t)
      ensures ok ==> Valid(h', t) && h'.events == h.events + [RtoEvent(n)]
    {
      ok, t, n := FireRto(txSeq, deadline, h, s);
      h' := RanNext(o, h, s, RtoEvent(n), ok, t);
    }

    /** The loop of the idle-Ack timer: `n` IDLE packets are sent. */
    method DrainAcks(ghost s: State) returns (ghost n: nat)
      requires Out() == Outgoing(s.ackQueue, s.sent) && (o.mtu == MTU_UNLIMITED || o.mtu >= 16)
      modifies this`ackQueue, this`sent
      ensures |ackQueue| == 0 && Out() == Outgoing(SendIdles(s, o, n).ackQueue, SendIdles(s, o, n).sent)
      ensures Fields() == old(Fields())
    {
      n := 0;
      while ackQueue != []
        invariant Out() == Outgoing(SendIdles(s, o, n).ackQueue, SendIdles(s, o, n).sent)
        decreases |ackQueue|
      {
        AckQueue.IdleProgress(o.mtu, ackQueue);
        SendLpPacket(EMPTY_PACKET); // requestIdlePacket()
        n := n + 1;
      }
    }

    /** The idle-Ack timer fires: `n` IDLE packets are sent until no Ack is waiting, and carry all that were. */
    method OnIdleAckTimer(ghost h: History, ghost s: State) returns (ghost n: nat, ghost h': History, ghost t: State)
      requires Valid(h, s) && (o.mtu == MTU_UNLIMITED || o.mtu >= 16)
      modifies this`ackQueue, this`sent, this`idleAckTimer
      ensures Valid(h', t) && t == SendIdles(s, o, n)
      ensures |ackQueue| == 0 && !idleAckTimer && AllAcks(t.sent) == AllAcks(s.sent) + s.ackQueue
    {
      idleAckTimer := false;
      n := DrainAcks(s);
      t := SendIdles(s, o, n);
      h' := RanIdles(o, h, s, n);
      IdlesSendAll(o, h, s, n);
    }
  }
}
