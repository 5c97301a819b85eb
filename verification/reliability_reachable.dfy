/** What holds of the stored fields of LpReliability between events, after every run. */
module ReliabilityReachable {
  import opened Packets
  import opened ReliabilitySpec
  import opened ReliabilityInvariants
  import opened ReliabilityTheorems
  import opened ReliabilityStore
  import opened TxWindow

  /** The fields `st` are those of a link service after the run `h`, which leads to `s`. */
  ghost predicate Reached(st: Store, o: Options, h: History, s: State)
  {
    Ran(o, h, s) && Holds(st, s.ledger, o)
  }

  /** The map, its iterator and the order of assignment: the iterator is end() exactly when the map is
      empty, otherwise at the oldest transmission, and the k-th step of the walk is the k-th oldest. */
  lemma WindowIsOrdered(st: Store, o: Options, h: History, s: State)
    requires Reached(st, o, h, s)
    ensures st.first.None? <==> st.frags == map[]
    ensures |st.frags| == |s.ledger.window| && Increasing(s.ledger.window)
    ensures forall k :: 0 <= k < |s.ledger.window| ==>
              && st.first.Some? && st.first.value in st.frags
              && WalkKey(st.frags, st.first.value, k) == s.ledger.window[k].n % o.modulus
  {
    RanInv(o, h, s);
    var w := s.ledger.window;
    EndIffEmpty(st.frags, st.first, w);
    WindowIsNarrow(s.ledger, o);
    forall k | 0 <= k < |w|
      ensures st.first.Some? && st.first.value in st.frags && WalkKey(st.frags, st.first.value, k) == w[k].n % o.modulus
    {
      WalkIsAssignmentOrder(st.frags, st.first, w, o.modulus, k);
      assert w[k] in w;
    }
  }

  /** Packets handed over = the three counters + the live NetPkt objects. */
  lemma CountersConserve(st: Store, o: Options, h: History, s: State)
    requires Reached(st, o, h, s)
    ensures st.nNetPkts == st.nAcknowledged + st.nRetransmitted + st.nRetxExhausted + |st.netPkts|
  {
    var pkts := s.ledger.pkts;
    StatusesPartition(pkts);
    CountIsCardinality(pkts, InFlight);
    assert st.netPkts.Keys == IdsWithStatus(pkts, InFlight);
    assert |st.netPkts| == |st.netPkts.Keys|;
  }

  /** The armed timers are exactly those of the stored fragments. Each stored fragment is on the list of
      one live NetPkt, whose list has no repeats and holds nothing else; no live NetPkt has an empty list. */
  lemma FieldsAgree(st: Store, o: Options, h: History, s: State)
    requires Reached(st, o, h, s)
    ensures st.timers.Keys == st.frags.Keys && BackPointers(st.frags, st.netPkts)
    ensures forall k :: k in st.frags ==> st.frags[k].netPkt in st.netPkts
    ensures forall id :: id in st.netPkts ==> |st.netPkts[id].unackedFrags| > 0
  {
    RanInv(o, h, s);
    forall k | k in st.frags ensures st.frags[k].netPkt in st.netPkts {
      OwnerIsLive(st, s.ledger, o, k);
    }
    forall id | id in st.netPkts ensures |st.netPkts[id].unackedFrags| > 0 {
      LiveHasFragment(st, s.ledger, o, id);
    }
  }

  lemma OwnerIsLive(st: Store, l: Ledger, o: Options, k: nat)
    requires Holds(st, l, o) && TxInv(l, o) && k in st.frags
    ensures st.frags[k].netPkt in st.netPkts
  {
    var tx := EntryOf(st, l, k);
    assert LinkedTx(l, o, tx);
  }

  lemma LiveHasFragment(st: Store, l: Ledger, o: Options, id: nat)
    requires Holds(st, l, o) && FlightInv(l) && id in st.netPkts
    ensures |st.netPkts[id].unackedFrags| > 0
  {
    var n :| n in NumbersOf(l.window, id);
    var tx :| tx in l.window && tx.frag.netPkt == id && tx.n == n;
    assert tx.key in st.netPkts[id].unackedFrags;
  }

  /** No stored count of later Acks has reached the threshold. */
  lemma CountsBelowThreshold(st: Store, o: Options, h: History, s: State, k: nat)
    requires Reached(st, o, h, s) && o.seqNumLossThreshold > 0 && k in st.frags
    ensures st.frags[k].nGreaterSeqAcks < o.seqNumLossThreshold
  {
    RanInv(o, h, s);
    var tx := EntryOf(st, s.ledger, k);
    assert !Among([], tx.n);
  }

  /** The window entry behind a key of the map. */
  lemma EntryOf(st: Store, l: Ledger, k: nat) returns (tx: Tx)
    requires Represents(st.frags, st.first, l.window) && k in st.frags
    ensures tx in l.window && tx.key == k && tx.frag == st.frags[k]
  {
    assert k in Keys(l.window);
    tx :| tx in l.window && tx.key == k;
  }
}
