/** The fields LpReliability stores, what its steps do to them, and that these steps do to the
    represented ledger what ReliabilitySpec says. */
module ReliabilityStore {
  import opened Packets
  import opened ReliabilitySpec
  import opened ReliabilityInvariants
  import opened ReliabilityTheorems
  import opened TxWindow
  import opened Arithmetic
  import AckQueue

  /** NetPkt: a network packet with unacknowledged fragments; the iterators of its list are keys. */
  datatype NetPkt = NetPkt(unackedFrags: seq<nat>, pkt: Packet, isInterest: bool, didRetx: bool)

  // ---------------------------------------------------------------- back-pointers

  /** The list of each NetPkt is duplicate-free and holds exactly the map entries that point back to it. */
  ghost predicate BackPointers(frags: map<nat, UnackedFrag>, netPkts: map<nat, NetPkt>)
  {
    forall id :: id in netPkts ==>
      && Distinct(netPkts[id].unackedFrags)
      && forall k :: k in netPkts[id].unackedFrags <==> k in frags && frags[k].netPkt == id
  }

  /** The live NetPkt objects are the packets in flight. */
  ghost predicate LivePackets(netPkts: map<nat, NetPkt>, pkts: seq<NetPacket>)
  {
    && (forall id :: id in netPkts <==> 0 <= id < |pkts| && pkts[id].status == InFlight)
    && (forall id :: id in netPkts ==>
          && netPkts[id].pkt == pkts[id].pkt
          && netPkts[id].isInterest == pkts[id].isInterest
          && netPkts[id].didRetx == pkts[id].didRetx)
  }

  /** std::find in a vector. */
  function IndexIn(xs: seq<nat>, x: nat): (i: nat)
    requires x in xs
    ensures i < |xs| && xs[i] == x
  {
    if xs[0] == x then 0 else 1 + IndexIn(xs[1..], x)
  }

  /** Overwrite with the last element and pop. */
  function SwapRemove(xs: seq<nat>, x: nat): (r: seq<nat>)
    requires x in xs
    ensures |r| == |xs| - 1
  {
    xs[IndexIn(xs, x) := xs[|xs| - 1]][..|xs| - 1]
  }

  lemma SwapRemoveMembers(xs: seq<nat>, x: nat)
    requires Distinct(xs) && x in xs
    ensures Distinct(SwapRemove(xs, x))
    ensures forall y :: y in SwapRemove(xs, x) <==> y in xs && y != x
  {
    var i, r := IndexIn(xs, x), SwapRemove(xs, x);
    assert forall j :: 0 <= j < |r| ==> r[j] == if j == i then xs[|xs| - 1] else xs[j];
    forall y | y in xs && y != x ensures y in r {
      var j :| 0 <= j < |xs| && xs[j] == y;
      if j == |xs| - 1 { assert r[i] == y; } else { assert r[j] == y; }
    }
    forall y | y in r ensures y in xs && y != x {
      var j :| 0 <= j < |r| && r[j] == y;
    }
  }

  lemma ReplaceMembers(xs: seq<nat>, x: nat, z: nat)
    requires Distinct(xs) && x in xs && z !in xs
    ensures var r := xs[IndexIn(xs, x) := z];
            Distinct(r) && forall y :: y in r <==> y == z || (y in xs && y != x)
  {
    var i := IndexIn(xs, x);
    var r := xs[i := z];
    assert r[i] == z;
    forall y | y in xs && y != x ensures y in r {
      var j :| 0 <= j < |xs| && xs[j] == y;
      assert r[j] == y;
    }
    forall y | y in r ensures y == z || (y in xs && y != x) {
      var j :| 0 <= j < |r| && r[j] == y;
    }
  }

  /** m_lastTxSeqNo after `n` assignments, starting from -1. */
  function LastKey(n: nat, modulus: nat): nat
    requires modulus > 0
  {
    if n == 0 then modulus - 1 else (n - 1) % modulus
  }

  /** The counter after one increment. */
  function Next(last: nat, modulus: nat): nat
  {
    if last + 1 < modulus then last + 1 else 0
  }

  lemma NextKey(n: nat, modulus: nat)
    requires modulus > 0
    ensures Next(LastKey(n, modulus), modulus) == n % modulus == LastKey(n + 1, modulus)
  {
    if n > 0 && modulus > 1 {
      ModStep(n - 1, 1, modulus);
    }
  }

  function KeysOf(txs: seq<Tx>): (r: seq<nat>)
    ensures |r| == |txs| && forall j :: 0 <= j < |txs| ==> r[j] == txs[j].key
  {
    if txs == [] then [] else KeysOf(txs[..|txs| - 1]) + [txs[|txs| - 1].key]
  }

  lemma KeysOfTail(txs: seq<Tx>)
    requires KeysOf(txs) != []
    ensures txs != [] && KeysOf(txs)[0] == txs[0].key && KeysOf(txs)[1..] == KeysOf(txs[1..])
  {
  }

  lemma KeysOfAppend(txs: seq<Tx>, tx: Tx)
    ensures KeysOf(txs + [tx]) == KeysOf(txs) + [tx.key]
  {
    assert (txs + [tx])[..|txs + [tx]| - 1] == txs;
  }

  /** What the walk over the window has reported as lost when it comes to position `j`. */
  ghost predicate ReportAt(lost: seq<nat>, w: seq<Tx>, j: nat, threshold: nat)
  {
    j <= |w| && lost == KeysOf(Lost(w, j, threshold))
  }

  /** The reports of the walk at every position of the window. */
  ghost predicate Reports(reports: seq<seq<nat>>, w: seq<Tx>, threshold: nat)
  {
    |reports| == |w| + 1 && forall j :: 0 <= j <= |w| ==> ReportAt(reports[j], w, j, threshold)
  }

  lemma AllReports(w: seq<Tx>, threshold: nat) returns (reports: seq<seq<nat>>)
    ensures Reports(reports, w, threshold)
  {
    reports := seq(|w| + 1, j requires 0 <= j <= |w| => KeysOf(Lost(w, j, threshold)));
  }

  lemma NextReport(reports: seq<seq<nat>>, w: seq<Tx>, j: nat, threshold: nat)
    requires Reports(reports, w, threshold) && j < |w|
    ensures reports[j + 1] == if Tips(w[j], threshold) then reports[j] + [w[j].key] else reports[j]
  {
    assert ReportAt(reports[j], w, j, threshold) && ReportAt(reports[j + 1], w, j + 1, threshold);
    KeysOfAppend(Lost(w, j, threshold), w[j]);
  }

  /** The iterator stands at position `j` of the window, possibly as an end() still to be wrapped. */
  predicate At(it: Option<nat>, w: seq<Tx>, j: nat)
  {
    j < |w| && (if it.None? then Begin(Keys(w)) else it) == Some(w[j].key)
  }

  lemma StepAt(w: seq<Tx>, j: nat)
    requires WalkOrder(w) && j + 1 < |w|
    ensures At(Successor(Keys(w), w[j].key), w, j + 1)
  {
    assert Walks(w, j);
  }

  /** The iterator of a map in which the entries before `j` were counted. */
  lemma IteratorAt(frags: map<nat, UnackedFrag>, first: Option<nat>, w: seq<Tx>, j: nat, b: seq<Tx>, it: Option<nat>)
    requires j <= |w| && b == Bump(w, j) && Represents(frags, first, b) && At(it, w, j)
    ensures (if it.None? then Begin(frags.Keys) else it) == Some(w[j].key)
  {
    BumpKeys(w, j);
  }

  lemma IteratorMoves(frags: map<nat, UnackedFrag>, first: Option<nat>, w: seq<Tx>, j: nat, b: seq<Tx>)
    requires WalkOrder(w) && j + 1 < |w| && b == Bump(w, j + 1) && Represents(frags, first, b)
    ensures At(Successor(frags.Keys, w[j].key), w, j + 1)
  {
    BumpKeys(w, j + 1);
    StepAt(w, j);
  }

  lemma KeyAt(w: seq<Tx>, j: nat, i: nat)
    requires DistinctKeys(w) && i < |w| && j < |w| && w[i].key == w[j].key
    ensures i == j
  {
  }

  /** Only Ack counts differ. */
  ghost predicate BumpedFrom(frags: map<nat, UnackedFrag>, frags': map<nat, UnackedFrag>)
  {
    && frags'.Keys == frags.Keys
    && forall k :: k in frags ==> frags'[k].netPkt == frags[k].netPkt
  }

  // ---------------------------------------------------------------- counters

  lemma {:induction false} CountUpdate(pkts: seq<NetPacket>, id: nat, p: NetPacket, status: Status)
    requires id < |pkts|
    ensures CountStatus(pkts[id := p], status) ==
            CountStatus(pkts, status) - (if pkts[id].status == status then 1 else 0)
                                      + (if p.status == status then 1 else 0)
  {
    var v := pkts[..|pkts| - 1];
    if id == |v| {
      assert pkts[id := p][..|pkts| - 1] == v;
    } else {
      CountUpdate(v, id, p, status);
      assert pkts[id := p][..|pkts| - 1] == v[id := p];
    }
  }

  /** The counters nAcknowledged, nRetransmitted and nRetxExhausted count the packets so settled. */
  predicate Counted(pkts: seq<NetPacket>, acknowledged: nat, retransmitted: nat, exhausted: nat)
  {
    && acknowledged == CountStatus(pkts, Acknowledged)
    && retransmitted == CountStatus(pkts, Retransmitted)
    && exhausted == CountStatus(pkts, Exhausted)
  }

  /** Settling a packet in flight raises the counter of its outcome. */
  lemma CountSettled(pkts: seq<NetPacket>, id: nat, status: Status, a: nat, r: nat, e: nat)
    requires id < |pkts| && pkts[id].status == InFlight && status != InFlight && Counted(pkts, a, r, e)
    ensures Counted(pkts[id := pkts[id].(status := status)],
                    if status == Acknowledged then a + 1 else a,
                    if status == Retransmitted then r + 1 else r,
                    if status == Exhausted then e + 1 else e)
  {
    var p := pkts[id].(status := status);
    CountUpdate(pkts, id, p, Acknowledged);
    CountUpdate(pkts, id, p, Retransmitted);
    CountUpdate(pkts, id, p, Exhausted);
  }

  /** Releasing the NetPkt of a packet that is settled. */
  lemma LiveSettled(netPkts: map<nat, NetPkt>, pkts: seq<NetPacket>, id: nat, status: Status)
    requires id in netPkts && LivePackets(netPkts, pkts) && status != InFlight
    ensures LivePackets(netPkts - {id}, pkts[id := pkts[id].(status := status)])
  {
  }

  lemma LiveRelisted(netPkts: map<nat, NetPkt>, pkts: seq<NetPacket>, id: nat, list: seq<nat>)
    requires id in netPkts && LivePackets(netPkts, pkts)
    ensures LivePackets(netPkts[id := netPkts[id].(unackedFrags := list)], pkts)
  {
  }

  /** The packets onDroppedInterest was fired with. */
  function DroppedPackets(l: Ledger): (r: seq<Packet>)
  {
    seq(|l.dropped|, i requires 0 <= i < |l.dropped| =>
          if l.dropped[i] < |l.pkts| then l.pkts[l.dropped[i]].pkt else EMPTY_PACKET)
  }

  // ---------------------------------------------------------------- removing several entries

  /** Numbers of the entries with a TxSequence in `ks`. */
  function NumbersWithKeys(w: seq<Tx>, ks: set<nat>): set<nat>
  {
    set tx | tx in w && tx.key in ks :: tx.n
  }

  lemma {:induction false} WithoutTwice(w: seq<Tx>, a: set<nat>, b: set<nat>)
    ensures Without(Without(w, a), b) == Without(w, a + b)
  {
    if w != [] {
      var v, last := w[..|w| - 1], w[|w| - 1];
      WithoutTwice(v, a, b);
      if last.n !in a {
        assert (Without(v, a) + [last])[..|Without(v, a) + [last]| - 1] == Without(v, a);
      }
    }
  }

  lemma NarrowWithout(w: seq<Tx>, gone: set<nat>, modulus: nat)
    requires modulus > 0 && Narrow(w, modulus)
    ensures Narrow(Without(w, gone), modulus)
  {
    WithoutIncreasing(w, gone);
    var v := Without(w, gone);
    if v != [] {
      assert v[0] in v && v[|v| - 1] in v;
      assert v[0] in w && v[|v| - 1] in w;
      assert w[0].n <= v[0].n && v[|v| - 1].n <= w[|w| - 1].n;
    }
  }

  lemma NumbersWithOneMore(w: seq<Tx>, ks: set<nat>, i: nat)
    requires DistinctKeys(w) && i < |w|
    ensures NumbersWithKeys(w, ks + {w[i].key}) == NumbersWithKeys(w, ks) + {w[i].n}
  {
    assert w[i] in w;
    forall tx | tx in w && tx.key == w[i].key ensures tx == w[i] {
      var j :| 0 <= j < |w| && w[j] == tx;
      KeyAt(w, j, i);
    }
  }

  lemma NumbersOfPacket(w: seq<Tx>, frags: map<nat, UnackedFrag>, ks: set<nat>, id: nat)
    requires frags.Keys == Keys(w) && (forall tx :: tx in w ==> tx.key in frags && frags[tx.key] == tx.frag)
    requires forall k :: k in ks <==> k in frags && frags[k].netPkt == id
    ensures NumbersWithKeys(w, ks) == NumbersOf(w, id)
  {
  }

  lemma BumpNarrow(w: seq<Tx>, i: nat, modulus: nat)
    requires modulus > 0 && Narrow(w, modulus) && i <= |w|
    ensures Narrow(Bump(w, i), modulus)
  {
    var b := Bump(w, i);
    forall tx | tx in b ensures tx.key == tx.n % modulus {
      var j :| 0 <= j < |w| && b[j] == tx;
      assert w[j] in w;
    }
  }

  /** A NetPkt's list is empty exactly when no window entry is of its packet. */
  lemma EmptyListIffSettled(frags: map<nat, UnackedFrag>, w: seq<Tx>, list: seq<nat>, id: nat)
    requires frags.Keys == Keys(w) && (forall tx :: tx in w ==> tx.key in frags && frags[tx.key] == tx.frag)
    requires forall k :: k in list <==> k in frags && frags[k].netPkt == id
    ensures list == [] <==> NumbersOf(w, id) == {}
  {
    if list != [] {
      var k := list[0];
      assert k in list;
      var tx :| tx in w && tx.key == k;
      assert tx.n in NumbersOf(w, id);
    }
    if NumbersOf(w, id) != {} {
      var n :| n in NumbersOf(w, id);
      var tx :| tx in w && tx.frag.netPkt == id && tx.n == n;
      assert tx.key in list;
    }
  }

  /** Taking key `k` out of the map and out of the list of its NetPkt, which is released when empty. */
  function Unlink(netPkts: map<nat, NetPkt>, id: nat, k: nat): map<nat, NetPkt>
    requires id in netPkts && k in netPkts[id].unackedFrags
  {
    var list := SwapRemove(netPkts[id].unackedFrags, k);
    if list == [] then netPkts - {id} else netPkts[id := netPkts[id].(unackedFrags := list)]
  }

  lemma UnlinkBackPointers(frags: map<nat, UnackedFrag>, netPkts: map<nat, NetPkt>, k: nat)
    requires BackPointers(frags, netPkts) && k in frags && frags[k].netPkt in netPkts
    ensures k in netPkts[frags[k].netPkt].unackedFrags
    ensures BackPointers(frags - {k}, Unlink(netPkts, frags[k].netPkt, k))
  {
    var id := frags[k].netPkt;
    SwapRemoveMembers(netPkts[id].unackedFrags, k);
  }

  /** The window start after erasing the keys of `list` one by one, except `skip`. */
  function FirstAfterErasing(frags: map<nat, UnackedFrag>, first: Option<nat>, list: seq<nat>, skip: nat): Option<nat>
  {
    if list == [] then first
    else
      var n := |list| - 1;
      var prev := FirstAfterErasing(frags, first, list[..n], skip);
      if list[n] == skip then prev
      else FirstAfterErase(frags - (SetOf(list[..n]) - {skip}), prev, list[n])
  }

  function FirstAfterGivingUp(frags: map<nat, UnackedFrag>, first: Option<nat>, list: seq<nat>, txSeq: nat): Option<nat>
  {
    FirstAfterErase(frags - (SetOf(list) - {txSeq}), FirstAfterErasing(frags, first, list, txSeq), txSeq)
  }

  lemma MinusTwice<T>(m: map<nat, T>, a: set<nat>, k: nat)
    ensures (m - a) - {k} == m - (a + {k})
  {
  }

  function SetOf(xs: seq<nat>): set<nat>
  {
    set x | x in xs
  }

  lemma NextInSet(xs: seq<nat>, i: nat)
    requires Distinct(xs) && i < |xs|
    ensures SetOf(xs[..i + 1]) == SetOf(xs[..i]) + {xs[i]} && xs[i] !in SetOf(xs[..i]) && xs[i] in SetOf(xs)
  {
    assert xs[..i + 1] == xs[..i] + [xs[i]];
  }

  lemma NoKeys(w: seq<Tx>)
    ensures NumbersWithKeys(w, {}) == {} && Without(w, {}) == w
  {
    assert NumbersWithKeys(w, {}) == {};
    WithoutNothing(w);
  }

  lemma {:induction false} WithoutNothing(w: seq<Tx>)
    ensures Without(w, {}) == w
  {
    if w != [] {
      WithoutNothing(w[..|w| - 1]);
      assert w == w[..|w| - 1] + [w[|w| - 1]];
    }
  }

  lemma StillThere(w: seq<Tx>, gone: set<nat>, k: nat) returns (i: nat)
    requires Increasing(w) && k in Keys(w) && k !in gone
    ensures var v := Without(w, NumbersWithKeys(w, gone)); i < |v| && v[i].key == k && v[i] in w
  {
    var v := Without(w, NumbersWithKeys(w, gone));
    var tx :| tx in w && tx.key == k;
    assert tx.n !in NumbersWithKeys(w, gone) by {
      if u :| u in w && u.key in gone && u.n == tx.n {
        NumbersDistinct(w, u, tx);
      }
    }
    assert tx in v;
    i :| 0 <= i < |v| && v[i] == tx;
  }

  lemma WithoutAlso(w: seq<Tx>, gone: set<nat>, k: nat, i: nat)
    requires DistinctKeys(w)
    requires var v := Without(w, NumbersWithKeys(w, gone)); i < |v| && v[i].key == k && v[i] in w
    ensures var v := Without(w, NumbersWithKeys(w, gone));
            Without(v, {v[i].n}) == Without(w, NumbersWithKeys(w, gone + {k}))
  {
    var v := Without(w, NumbersWithKeys(w, gone));
    var j :| 0 <= j < |w| && w[j] == v[i];
    NumbersWithOneMore(w, gone, j);
    WithoutTwice(w, NumbersWithKeys(w, gone), {v[i].n});
  }

  /** Erasing one key more from a partly erased window. */
  lemma EraseAlso(frags: map<nat, UnackedFrag>, first: Option<nat>, w: seq<Tx>, gone: set<nat>, k: nat, modulus: nat)
    requires modulus > 0 && Narrow(w, modulus) && DistinctKeys(w) && k in Keys(w) && k !in gone
    requires RepresentsRest(frags, first, w, gone)
    ensures RepresentsRest(frags, FirstAfterErase(frags - gone, first, k), w, gone + {k})
  {
    var i := StillThere(w, gone, k);
    var v := Without(w, NumbersWithKeys(w, gone));
    NarrowWithout(w, NumbersWithKeys(w, gone), modulus);
    NarrowWalks(v, modulus);
    EraseRepresents(frags - gone, first, v, i);
    WithoutAlso(w, gone, k, i);
    MinusTwice(frags, gone, k);
  }

  /** The map and iterator hold the window `w` without the entries whose keys are in `gone`. */
  predicate RepresentsRest(frags: map<nat, UnackedFrag>, first: Option<nat>, w: seq<Tx>, gone: set<nat>)
  {
    Represents(frags - gone, first, Without(w, NumbersWithKeys(w, gone)))
  }

  lemma GoneNext(list: seq<nat>, skip: nat)
    requires Distinct(list) && list != []
    ensures var rest, last := list[..|list| - 1], list[|list| - 1];
            && Distinct(rest) && SetOf(rest) <= SetOf(list) && last in SetOf(list) && last !in SetOf(rest) - {skip}
            && SetOf(list) - {skip} == if last == skip then SetOf(rest) - {skip} else SetOf(rest) - {skip} + {last}
  {
    NextInSet(list, |list| - 1);
    assert list[..|list|] == list;
  }

  lemma {:induction false} EraseListRepresents(frags: map<nat, UnackedFrag>, first: Option<nat>, w: seq<Tx>,
                                               list: seq<nat>, skip: nat, modulus: nat)
    requires modulus > 0 && Narrow(w, modulus) && DistinctKeys(w) && RepresentsRest(frags, first, w, {})
    requires Distinct(list) && SetOf(list) <= Keys(w)
    ensures RepresentsRest(frags, FirstAfterErasing(frags, first, list, skip), w, SetOf(list) - {skip})
    decreases list
  {
    if list == [] {
      assert SetOf(list) - {skip} == {};
    } else {
      var rest, last := list[..|list| - 1], list[|list| - 1];
      GoneNext(list, skip);
      EraseListRepresents(frags, first, w, rest, skip, modulus);
      if last != skip {
        EraseAlso(frags, FirstAfterErasing(frags, first, rest, skip), w, SetOf(rest) - {skip}, last, modulus);
      }
    }
  }

  lemma NothingGone(frags: map<nat, UnackedFrag>, first: Option<nat>, w: seq<Tx>)
    requires Represents(frags, first, w)
    ensures RepresentsRest(frags, first, w, {})
  {
    NoKeys(w);
    assert frags - {} == frags;
  }

  lemma GiveUpErases(frags: map<nat, UnackedFrag>, first: Option<nat>, w: seq<Tx>, list: seq<nat>, txSeq: nat,
                     modulus: nat)
    requires modulus > 0 && Narrow(w, modulus) && DistinctKeys(w) && RepresentsRest(frags, first, w, {})
    requires Distinct(list) && txSeq in list && SetOf(list) <= Keys(w)
    ensures RepresentsRest(frags, FirstAfterGivingUp(frags, first, list, txSeq), w, SetOf(list))
  {
    EraseListRepresents(frags, first, w, list, txSeq, modulus);
    SplitOff(SetOf(list), txSeq);
    EraseLast(frags, FirstAfterErasing(frags, first, list, txSeq), w, SetOf(list) - {txSeq}, SetOf(list), txSeq,
          modulus);
  }

  lemma SplitOff(all: set<nat>, k: nat)
    requires k in all
    ensures k !in all - {k} && all == (all - {k}) + {k}
  {
  }

  lemma EraseLast(frags: map<nat, UnackedFrag>, first: Option<nat>, w: seq<Tx>, gone: set<nat>, all: set<nat>, k: nat,
                  modulus: nat)
    requires modulus > 0 && Narrow(w, modulus) && DistinctKeys(w) && k in Keys(w) && k !in gone && all == gone + {k}
    requires RepresentsRest(frags, first, w, gone)
    ensures RepresentsRest(frags, FirstAfterErase(frags - gone, first, k), w, all)
  {
    EraseAlso(frags, first, w, gone, k, modulus);
  }

  /** Giving up on packet `id` takes its entries out of the represented window. */
  lemma GiveUpRepresents(frags: map<nat, UnackedFrag>, first: Option<nat>, w: seq<Tx>, list: seq<nat>, txSeq: nat,
                         id: nat, modulus: nat)
    requires modulus > 0 && Narrow(w, modulus) && Represents(frags, first, w)
    requires Distinct(list) && txSeq in list
    requires forall k :: k in list <==> k in frags && frags[k].netPkt == id
    ensures Represents(frags - SetOf(list), FirstAfterGivingUp(frags, first, list, txSeq), Without(w, NumbersOf(w, id)))
  {
    NothingGone(frags, first, w);
    GiveUpErases(frags, first, w, list, txSeq, modulus);
    NumbersOfPacket(w, frags, SetOf(list), id);
  }

  /** The books after the Ack of position `i`. */
  lemma AckBooks(l: Ledger, i: nat, frags: map<nat, UnackedFrag>, first: Option<nat>, netPkts: map<nat, NetPkt>,
                 a: nat, r: nat, e: nat)
    requires Linked(l) && i < |l.window|
    requires l.window[i].key in frags && frags[l.window[i].key] == l.window[i].frag
    requires LivePackets(netPkts, l.pkts) && Counted(l.pkts, a, r, e) && BackPointers(frags, netPkts)
    requires l.window[i].frag.netPkt in netPkts
    requires Represents(frags - {l.window[i].key}, first, AckAt(l, i).window)
    ensures var id, k := l.window[i].frag.netPkt, l.window[i].key;
            && k in netPkts[id].unackedFrags
            && var last := |netPkts[id].unackedFrags| == 1;
            var retx := netPkts[id].didRetx;
            && LivePackets(Unlink(netPkts, id, k), AckAt(l, i).pkts)
            && Counted(AckAt(l, i).pkts, a + (if last && !retx then 1 else 0), r + (if last && retx then 1 else 0), e)
  {
    var id, k := l.window[i].frag.netPkt, l.window[i].key;
    var list := SwapRemove(netPkts[id].unackedFrags, k);
    SwapRemoveMembers(netPkts[id].unackedFrags, k);
    EmptyListIffSettled(frags - {k}, AckAt(l, i).window, list, id);
    if list == [] {
      var status := if netPkts[id].didRetx then Retransmitted else Acknowledged;
      CountSettled(l.pkts, id, status, a, r, e);
      LiveSettled(netPkts, l.pkts, id, status);
    } else {
      LiveRelisted(netPkts, l.pkts, id, list);
    }
  }

  lemma SameDropped(l: Ledger, m: Ledger)
    requires m.dropped == l.dropped && |m.pkts| == |l.pkts| &&
             forall k :: 0 <= k < |l.pkts| ==> m.pkts[k].pkt == l.pkts[k].pkt
    ensures DroppedPackets(m) == DroppedPackets(l)
  {
  }

  // ---------------------------------------------------------------- the stored fields

  datatype Store = Store(
    frags: map<nat, UnackedFrag>,    // m_unackedFrags
    timers: map<nat, nat>,           // armed RTO timers: TxSequence to deadline
    first: Option<nat>,              // m_firstUnackedFrag; None is end()
    last: nat,                       // m_lastTxSeqNo
    netPkts: map<nat, NetPkt>,       // live NetPkt objects by identity
    nNetPkts: nat,                   // NetPkt objects created so far
    nAcknowledged: nat,
    nRetransmitted: nat,
    nRetxExhausted: nat,
    dropped: seq<Packet>)            // packets onDroppedInterest was fired with

  /** NetPkt objects, counters and signals agree with the packets of the ledger. */
  ghost predicate Books(st: Store, l: Ledger)
  {
    && LivePackets(st.netPkts, l.pkts) && st.nNetPkts == |l.pkts|
    && Counted(l.pkts, st.nAcknowledged, st.nRetransmitted, st.nRetxExhausted)
    && st.dropped == DroppedPackets(l)
  }

  /** The stored fields hold the ledger: the map with its iterator is the window, the lists are the
      back-pointers, and every unacknowledged fragment has exactly one armed timer. */
  ghost predicate Holds(st: Store, l: Ledger, o: Options)
  {
    && o.modulus > 0
    && Represents(st.frags, st.first, l.window)
    && st.last == LastKey(|l.log|, o.modulus)
    && Books(st, l)
    && BackPointers(st.frags, st.netPkts)
    && st.timers.Keys == st.frags.Keys
  }

  /** The NetPkt of a window entry is live and lists it. */
  lemma EntryIsListed(st: Store, l: Ledger, o: Options, i: nat)
    requires Holds(st, l, o) && TxInv(l, o) && i < |l.window|
    ensures st.first.Some? && l.window[i].key in st.frags && st.frags[l.window[i].key] == l.window[i].frag
    ensures l.window[i].frag.netPkt in st.netPkts
    ensures l.window[i].key in st.netPkts[l.window[i].frag.netPkt].unackedFrags
  {
    assert l.window[i] in l.window && LinkedTx(l, o, l.window[i]);
  }

  // ---------------------------------------------------------------- acknowledging

  /** What onLpPacketAcknowledged() needs to find. */
  predicate CanAck(st: Store, frags: map<nat, UnackedFrag>, k: nat)
  {
    st.first.Some? && k in frags && frags[k].netPkt in st.netPkts && k in st.netPkts[frags[k].netPkt].unackedFrags
  }

  /** onLpPacketAcknowledged(), when findLostLpPackets() left `frags` in the map. */
  function AckStore(st: Store, frags: map<nat, UnackedFrag>, k: nat): Store
    requires CanAck(st, frags, k)
  {
    var id := frags[k].netPkt;
    var last, retx := |st.netPkts[id].unackedFrags| == 1, st.netPkts[id].didRetx;
    st.(frags := frags - {k},
        timers := st.timers - {k},
        first := FirstAfterErase(frags, st.first, k),
        netPkts := Unlink(st.netPkts, id, k),
        nAcknowledged := st.nAcknowledged + (if last && !retx then 1 else 0),
        nRetransmitted := st.nRetransmitted + (if last && retx then 1 else 0))
  }

  lemma AckRepresents(st: Store, l: Ledger, o: Options, i: nat, frags: map<nat, UnackedFrag>)
    requires o.modulus > 0 && Narrow(l.window, o.modulus) && Linked(l) && i < |l.window|
    requires Represents(frags, st.first, Bump(l.window, i))
    ensures Represents(frags - {l.window[i].key}, FirstAfterErase(frags, st.first, l.window[i].key), AckAt(l, i).window)
  {
    var b := Bump(l.window, i);
    BumpNarrow(l.window, i, o.modulus);
    NarrowWalks(b, o.modulus);
    EraseRepresents(frags, st.first, b, i);
  }

  lemma BumpedEntry(w: seq<Tx>, i: nat, frags: map<nat, UnackedFrag>, first: Option<nat>)
    requires i < |w| && Represents(frags, first, Bump(w, i))
    ensures w[i].key in frags && frags[w[i].key] == w[i].frag
  {
    assert Bump(w, i)[i] in Bump(w, i);
  }

  /** The entry to acknowledge is on the list of its NetPkt, and can be taken off. */
  lemma AckLinks(st: Store, frags: map<nat, UnackedFrag>, k: nat)
    requires BackPointers(st.frags, st.netPkts) && BumpedFrom(st.frags, frags) && k in frags &&
             frags[k].netPkt in st.netPkts
    ensures BackPointers(frags, st.netPkts) && k in st.netPkts[frags[k].netPkt].unackedFrags
    ensures BackPointers(frags - {k}, Unlink(st.netPkts, frags[k].netPkt, k))
  {
    BumpedBackPointers(st.frags, frags, st.netPkts);
    UnlinkBackPointers(frags, st.netPkts, k);
  }

  lemma AckRefinesBooks(st: Store, l: Ledger, i: nat, frags: map<nat, UnackedFrag>, first: Option<nat>)
    requires Linked(l) && i < |l.window| && Books(st, l) && BackPointers(frags, st.netPkts)
    requires CanAck(st, frags, l.window[i].key) && frags[l.window[i].key] == l.window[i].frag
    requires Represents(frags - {l.window[i].key}, first, AckAt(l, i).window)
    ensures Books(AckStore(st, frags, l.window[i].key), AckAt(l, i))
  {
    AckBooks(l, i, frags, first, st.netPkts, st.nAcknowledged, st.nRetransmitted, st.nRetxExhausted);
    AckDropped(l, i);
  }

  lemma AckRefines(st: Store, l: Ledger, o: Options, i: nat, frags: map<nat, UnackedFrag>)
    requires Holds(st, l, o) && Narrow(l.window, o.modulus) && Linked(l) && i < |l.window|
    requires l.window[i].frag.netPkt in st.netPkts && st.first.Some?
    requires Represents(frags, st.first, Bump(l.window, i)) && BumpedFrom(st.frags, frags)
    ensures var k := l.window[i].key;
            CanAck(st, frags, k) && Holds(AckStore(st, frags, k), AckAt(l, i), o)
  {
    var k := l.window[i].key;
    BumpedEntry(l.window, i, frags, st.first);
    AckRepresents(st, l, o, i, frags);
    AckLinks(st, frags, k);
    AckRefinesBooks(st, l, i, frags, FirstAfterErase(frags, st.first, k));
    assert AckAt(l, i).log == l.log;
  }

  lemma AckDropped(l: Ledger, i: nat)
    requires Linked(l) && i < |l.window|
    ensures DroppedPackets(AckAt(l, i)) == DroppedPackets(l) && |AckAt(l, i).pkts| == |l.pkts|
  {
    SameDropped(l, AckAt(l, i));
  }

  lemma BumpedTwice(frags: map<nat, UnackedFrag>, frags': map<nat, UnackedFrag>, frags'': map<nat, UnackedFrag>)
    requires BumpedFrom(frags, frags') && BumpedFrom(frags', frags'')
    ensures BumpedFrom(frags, frags'')
  {
  }

  lemma BumpedBackPointers(frags: map<nat, UnackedFrag>, frags': map<nat, UnackedFrag>, netPkts: map<nat, NetPkt>)
    requires BackPointers(frags, netPkts) && BumpedFrom(frags, frags')
    ensures BackPointers(frags', netPkts)
  {
  }

  // ---------------------------------------------------------------- giving up

  function GiveUpStore(st: Store, k: nat, id: nat): Store
    requires id in st.netPkts
  {
    var p := st.netPkts[id];
    var gone := SetOf(p.unackedFrags);
    st.(frags := st.frags - gone,
        timers := st.timers - gone,
        first := FirstAfterGivingUp(st.frags, st.first, p.unackedFrags, k),
        netPkts := st.netPkts - {id},
        nRetxExhausted := st.nRetxExhausted + 1,
        dropped := st.dropped + if p.isInterest then [p.pkt] else [])
  }

  lemma GiveUpBackPointers(frags: map<nat, UnackedFrag>, netPkts: map<nat, NetPkt>, id: nat)
    requires BackPointers(frags, netPkts) && id in netPkts
    ensures BackPointers(frags - SetOf(netPkts[id].unackedFrags), netPkts - {id})
  {
    var gone := SetOf(netPkts[id].unackedFrags);
    forall j | j in netPkts - {id}
      ensures Distinct(netPkts[j].unackedFrags)
      ensures forall k :: k in netPkts[j].unackedFrags <==> k in frags - gone && (frags - gone)[k].netPkt == j
    {
    }
  }

  lemma GiveUpBooks(st: Store, l: Ledger, k: nat, id: nat)
    requires Books(st, l) && id in st.netPkts
    ensures Books(GiveUpStore(st, k, id), Exhaust(l, id))
  {
    CountSettled(l.pkts, id, Exhausted, st.nAcknowledged, st.nRetransmitted, st.nRetxExhausted);
    LiveSettled(st.netPkts, l.pkts, id, Exhausted);
    GiveUpDropped(l, id);
  }

  lemma GiveUpDropped(l: Ledger, id: nat)
    requires id < |l.pkts|
    ensures DroppedPackets(Exhaust(l, id)) == DroppedPackets(l) + if l.pkts[id].isInterest then [l.pkts[id].pkt] else []
  {
    if !l.pkts[id].isInterest { SameDropped(l, Exhaust(l, id)); }
  }

  lemma GiveUpRefines(st: Store, l: Ledger, o: Options, i: nat)
    requires Holds(st, l, o) && Narrow(l.window, o.modulus) && TxInv(l, o) && i < |l.window|
    ensures var id := l.window[i].frag.netPkt;
            id in st.netPkts && id < |l.pkts| && Holds(GiveUpStore(st, l.window[i].key, id), Exhaust(l, id), o)
  {
    EntryIsListed(st, l, o, i);
    var id, k := l.window[i].frag.netPkt, l.window[i].key;
    GiveUpRepresents(st.frags, st.first, l.window, st.netPkts[id].unackedFrags, k, id, o.modulus);
    GiveUpBackPointers(st.frags, st.netPkts, id);
    GiveUpBooks(st, l, k, id);
  }

  // ---------------------------------------------------------------- retransmitting

  /** The UnackedFrag under which a lost fragment is stored again. */
  function Again(frag: UnackedFrag, k': nat): UnackedFrag
  {
    UnackedFrag(frag.pkt.(txSequence := Some(k')), frag.retxCount + 1, 0, frag.netPkt)
  }

  /** The fragment stored under `k` is stored again under `k'`. */
  function ResendStore(st: Store, k: nat, k': nat, deadline: nat): Store
    requires k in st.frags
    requires st.frags[k].netPkt in st.netPkts && k in st.netPkts[st.frags[k].netPkt].unackedFrags
  {
    var id := st.frags[k].netPkt;
    var p := st.netPkts[id];
    var frags := st.frags[k' := Again(st.frags[k], k')];
    st.(frags := frags - {k},
        timers := (st.timers - {k})[k' := deadline],
        first := FirstAfterErase(frags, st.first, k),
        last := k',
        netPkts := st.netPkts[id := p.(unackedFrags := p.unackedFrags[IndexIn(p.unackedFrags, k) := k'],
              didRetx := true)])
  }

  /** The window entry under the new number. */
  function AgainTx(l: Ledger, o: Options, i: nat): Tx
    requires o.modulus > 0 && i < |l.window|
  {
    var key := |l.log| % o.modulus;
    Tx(|l.log|, key, l.window[i].ord, Again(l.window[i].frag, key))
  }

  lemma ResendNarrow(l: Ledger, o: Options, i: nat)
    requires o.modulus > 0 && WindowInv(l, o) && KeyInv(l.window, o.modulus) && i < |l.window| && !Full(l, o)
    ensures Narrow(l.window + [AgainTx(l, o, i)], o.modulus)
  {
    var f := l.window[i].frag;
    var m := AddTx(l, o, FragId(f.netPkt, l.window[i].ord), f.pkt, f.retxCount + 1);
    assert m.window == l.window + [AgainTx(l, o, i)];
    AddTxWindow(l, o, FragId(f.netPkt, l.window[i].ord), f.pkt, f.retxCount + 1);
    assert KeyInv(m.window, o.modulus);
    WindowIsNarrow(m, o);
  }

  lemma ResendWindow(l: Ledger, o: Options, i: nat)
    requires o.modulus > 0 && Linked(l) && i < |l.window| && l.window[i].n < |l.log|
    ensures Renumber(l, o, i).window == Without(l.window + [AgainTx(l, o, i)], {l.window[i].n})
    ensures |Renumber(l, o, i).log| == |l.log| + 1
  {
    var tx := AgainTx(l, o, i);
    assert (l.window + [tx])[..|l.window + [tx]| - 1] == l.window;
  }

  lemma ResendRepresents(st: Store, l: Ledger, o: Options, i: nat)
    requires o.modulus > 0 && i < |l.window| && Represents(st.frags, st.first, l.window)
    requires Narrow(l.window + [AgainTx(l, o, i)], o.modulus)
    ensures var k, tx := l.window[i].key, AgainTx(l, o, i);
            var frags := st.frags[tx.key := tx.frag];
            && tx.key !in st.frags
            && Represents(frags - {k}, FirstAfterErase(frags, st.first, k), Without(l.window + [tx], {l.window[i].n}))
  {
    var tx := AgainTx(l, o, i);
    var w := l.window + [tx];
    NarrowDistinct(w, o.modulus);
    NarrowWalks(w, o.modulus);
    InsertRepresents(st.frags, st.first, l.window, tx);
    var frags := st.frags[tx.key := tx.frag];
    assert l.window[i] in l.window;
    TwoKeys(frags, l.window[i].key, tx.key);
    EraseRepresents(frags, st.first, w, i);
  }

  lemma TwoKeys(frags: map<nat, UnackedFrag>, k: nat, k': nat)
    requires k' in frags && k in frags && k != k'
    ensures |frags| != 1
  {
    assert k' in frags.Keys - {k};
    assert |frags.Keys| == |frags.Keys - {k}| + 1;
  }

  lemma ResendBackPointers(st: Store, k: nat, k': nat, deadline: nat)
    requires k in st.frags && k' !in st.frags && BackPointers(st.frags, st.netPkts) && st.frags[k].netPkt in st.netPkts
    ensures k in st.netPkts[st.frags[k].netPkt].unackedFrags
    ensures var st' := ResendStore(st, k, k', deadline); BackPointers(st'.frags, st'.netPkts)
  {
    var id := st.frags[k].netPkt;
    ReplaceMembers(st.netPkts[id].unackedFrags, k, k');
  }

  lemma ResendTimers(st: Store, k: nat, k': nat, deadline: nat)
    requires k in st.frags && k' !in st.frags && st.timers.Keys == st.frags.Keys
    requires st.frags[k].netPkt in st.netPkts && k in st.netPkts[st.frags[k].netPkt].unackedFrags
    ensures var st' := ResendStore(st, k, k', deadline); st'.timers.Keys == st'.frags.Keys
  {
    var st' := ResendStore(st, k, k', deadline);
    assert st'.frags.Keys == (st.frags.Keys + {k'}) - {k};
    assert st'.timers.Keys == (st.timers.Keys - {k}) + {k'};
  }

  lemma ResendBooks(st: Store, l: Ledger, o: Options, i: nat, deadline: nat)
    requires o.modulus > 0 && Linked(l) && i < |l.window| && Books(st, l)
    requires l.window[i].key in st.frags && st.frags[l.window[i].key] == l.window[i].frag
    requires l.window[i].frag.netPkt in st.netPkts &&
             l.window[i].key in st.netPkts[l.window[i].frag.netPkt].unackedFrags
    ensures Books(ResendStore(st, l.window[i].key, |l.log| % o.modulus, deadline), Renumber(l, o, i))
  {
    var m := Renumber(l, o, i);
    var id := l.window[i].frag.netPkt;
    var p := l.pkts[id].(didRetx := true);
    assert m.pkts == l.pkts[id := p];
    CountUpdate(l.pkts, id, p, Acknowledged);
    CountUpdate(l.pkts, id, p, Retransmitted);
    CountUpdate(l.pkts, id, p, Exhausted);
    SameDropped(l, m);
  }

  /** Position `i` of the window is stored, and listed by its NetPkt. */
  predicate Listed(st: Store, l: Ledger, i: nat)
    requires i < |l.window|
  {
    && l.window[i].key in st.frags && st.frags[l.window[i].key] == l.window[i].frag
    && l.window[i].frag.netPkt in st.netPkts && l.window[i].key in st.netPkts[l.window[i].frag.netPkt].unackedFrags
  }

  lemma ResendRefinesWindow(st: Store, l: Ledger, o: Options, i: nat, deadline: nat)
    requires o.modulus > 0 && Linked(l) && i < |l.window| && l.window[i].n < |l.log| && Listed(st, l, i)
    requires var k, tx := l.window[i].key, AgainTx(l, o, i);
             var frags := st.frags[tx.key := tx.frag];
             Represents(frags - {k}, FirstAfterErase(frags, st.first, k), Without(l.window + [tx], {l.window[i].n}))
    ensures var st' := ResendStore(st, l.window[i].key, |l.log| % o.modulus, deadline);
            Represents(st'.frags, st'.first, Renumber(l, o, i).window)
  {
    ResendWindow(l, o, i);
  }

  lemma ResendRefinesLast(l: Ledger, o: Options, i: nat)
    requires o.modulus > 0 && Linked(l) && i < |l.window|
    ensures |l.log| % o.modulus == LastKey(|Renumber(l, o, i).log|, o.modulus)
  {
    NextKey(|l.log|, o.modulus);
  }

  lemma ResendRefines(st: Store, l: Ledger, o: Options, i: nat, deadline: nat)
    requires Holds(st, l, o) && Linked(l) && i < |l.window| && l.window[i].n < |l.log| && Listed(st, l, i)
    requires Narrow(l.window + [AgainTx(l, o, i)], o.modulus)
    ensures Holds(ResendStore(st, l.window[i].key, |l.log| % o.modulus, deadline), Renumber(l, o, i), o)
  {
    var k, k' := l.window[i].key, |l.log| % o.modulus;
    ResendRepresents(st, l, o, i);
    ResendRefinesWindow(st, l, o, i, deadline);
    ResendRefinesLast(l, o, i);
    ResendBackPointers(st, k, k', deadline);
    ResendTimers(st, k, k', deadline);
    ResendBooks(st, l, o, i, deadline);
  }

  // ---------------------------------------------------------------- sending a new packet

  function NewStore(st: Store, pkt: Packet, isInterest: bool): Store
  {
    st.(netPkts := st.netPkts[st.nNetPkts := NetPkt([], pkt, isInterest, false)], nNetPkts := st.nNetPkts + 1)
  }

  lemma NewRefines(st: Store, l: Ledger, o: Options, frags: seq<Packet>, pkt: Packet, isInterest: bool)
    requires Holds(st, l, o) && Linked(l) && forall k :: k in l.dropped ==> k < |l.pkts|
    ensures Holds(NewStore(st, pkt, isInterest), NewPacket(l, frags, pkt, isInterest), o)
  {
    NewBooks(st, l, NetPacket(frags, pkt, isInterest, false, InFlight));
    forall k | k in st.frags ensures st.frags[k].netPkt != |l.pkts| {
      var tx :| tx in l.window && tx.key == k;
    }
  }

  lemma NewBooks(st: Store, l: Ledger, p: NetPacket)
    requires Books(st, l) && p.status == InFlight && !p.didRetx && forall k :: k in l.dropped ==> k < |l.pkts|
    ensures Books(NewStore(st, p.pkt, p.isInterest), l.(pkts := l.pkts + [p]))
  {
    var m := l.(pkts := l.pkts + [p]);
    assert m.pkts[..|l.pkts|] == l.pkts;
    NewDropped(l, p);
  }

  lemma NewDropped(l: Ledger, p: NetPacket)
    requires forall k :: k in l.dropped ==> k < |l.pkts|
    ensures DroppedPackets(l.(pkts := l.pkts + [p])) == DroppedPackets(l)
  {
    assert forall i :: 0 <= i < |l.dropped| ==> l.dropped[i] in l.dropped;
  }

  /** One turn of the loop in handleOutgoing(). */
  function InsertStore(st: Store, id: nat, k: nat, frag: UnackedFrag, deadline: nat): Store
    requires id in st.netPkts
  {
    var frags := st.frags[k := frag];
    var p := st.netPkts[id];
    st.(frags := frags,
        timers := st.timers[k := deadline],
        first := if |frags| == 1 then Begin(frags.Keys) else st.first,
        last := k,
        netPkts := st.netPkts[id := p.(unackedFrags := p.unackedFrags + [k])])
  }

  /** The UnackedFrag of a first transmission. */
  function FirstFrag(pkt: Packet, k: nat, id: nat): UnackedFrag
  {
    UnackedFrag(pkt.(txSequence := Some(k)), 0, 0, id)
  }

  lemma InsertBackPointers(st: Store, id: nat, k: nat, frag: UnackedFrag, deadline: nat)
    requires BackPointers(st.frags, st.netPkts) && id in st.netPkts && k !in st.frags && frag.netPkt == id
    ensures var st' := InsertStore(st, id, k, frag, deadline); BackPointers(st'.frags, st'.netPkts)
  {
  }

  lemma InsertRefinesWindow(st: Store, l: Ledger, o: Options, id: FragId, pkt: Packet, deadline: nat)
    requires o.modulus > 0 && Represents(st.frags, st.first, l.window) && id.pkt in st.netPkts
    requires DistinctKeys(AddTx(l, o, id, pkt, 0).window)
    ensures var k := |l.log| % o.modulus;
            var st' := InsertStore(st, id.pkt, k, FirstFrag(pkt, k, id.pkt), deadline);
            k !in st.frags && Represents(st'.frags, st'.first, AddTx(l, o, id, pkt, 0).window)
  {
    var k := |l.log| % o.modulus;
    InsertRepresents(st.frags, st.first, l.window, Tx(|l.log|, k, id.ord, FirstFrag(pkt, k, id.pkt)));
  }

  lemma InsertRefines(st: Store, l: Ledger, o: Options, id: FragId, pkt: Packet, deadline: nat)
    requires Holds(st, l, o) && id.pkt in st.netPkts
    requires DistinctKeys(AddTx(l, o, id, pkt, 0).window)
    ensures var k := |l.log| % o.modulus;
            Holds(InsertStore(st, id.pkt, k, FirstFrag(pkt, k, id.pkt), deadline), AddTx(l, o, id, pkt, 0), o)
  {
    NextKey(|l.log|, o.modulus);
    InsertRefinesWindow(st, l, o, id, pkt, deadline);
    InsertHolds(st, l, AddTx(l, o, id, pkt, 0), o, id.pkt, |l.log| % o.modulus,
          FirstFrag(pkt, |l.log| % o.modulus, id.pkt), deadline);
  }

  lemma InsertHolds(st: Store, l: Ledger, m: Ledger, o: Options, id: nat, k: nat, frag: UnackedFrag, deadline: nat)
    requires Holds(st, l, o) && id in st.netPkts && k !in st.frags && frag.netPkt == id
    requires m.pkts == l.pkts && m.dropped == l.dropped && k == LastKey(|m.log|, o.modulus)
    requires var st' := InsertStore(st, id, k, frag, deadline); Represents(st'.frags, st'.first, m.window)
    ensures Holds(InsertStore(st, id, k, frag, deadline), m, o)
  {
    InsertBackPointers(st, id, k, frag, deadline);
    InsertBooks(st, l, m, id, k, frag, deadline);
  }

  lemma InsertBooks(st: Store, l: Ledger, m: Ledger, id: nat, k: nat, frag: UnackedFrag, deadline: nat)
    requires Books(st, l) && id in st.netPkts && m.pkts == l.pkts && m.dropped == l.dropped
    ensures Books(InsertStore(st, id, k, frag, deadline), m)
  {
    LiveRelisted(st.netPkts, l.pkts, id, st.netPkts[id].unackedFrags + [k]);
    SameDropped(l, m);
  }

  // ---------------------------------------------------------------- losing a fragment

  /** The part of the ledger's invariant that the fields rely on. */
  predicate Shape(l: Ledger, o: Options)
  {
    o.modulus > 0 && WindowInv(l, o) && KeyInv(l.window, o.modulus) && TxInv(l, o) && Linked(l)
  }

  lemma InvShape(l: Ledger, o: Options)
    requires LedgerInv(l, o)
    ensures Shape(l, o)
  {
    InvLinked(l, o);
  }

  /** What onLpPacketLost() needs to find in the fields. */
  predicate CanLose(st: Store, k: nat)
  {
    && st.first.Some? && k in st.frags && st.frags[k].netPkt in st.netPkts
    && var list := st.netPkts[st.frags[k].netPkt].unackedFrags;
    k in list && Distinct(list) && SetOf(list) <= st.frags.Keys
  }

  lemma EntryCanBeLost(st: Store, l: Ledger, o: Options, i: nat)
    requires Holds(st, l, o) && TxInv(l, o) && i < |l.window|
    ensures CanLose(st, l.window[i].key) && Listed(st, l, i)
  {
    EntryIsListed(st, l, o, i);
  }

  /** assignTxSequence() throws exactly when the window of the ledger is full. */
  lemma AssignRefines(st: Store, l: Ledger, o: Options)
    requires Holds(st, l, o) && WindowInv(l, o) && KeyInv(l.window, o.modulus)
    ensures Next(st.last, o.modulus) == |l.log| % o.modulus
    ensures st.frags != map[] && st.first == Some(Next(st.last, o.modulus)) <==> Full(l, o)
  {
    NextKey(|l.log|, o.modulus);
    EndIffEmpty(st.frags, st.first, l.window);
    if l.window != [] { FullIsCollision(l, o); }
  }

  /** onLpPacketLost() does to the fields what OnLost() does to the ledger. */
  lemma LostRefines(st: Store, l: Ledger, o: Options, i: nat, deadline: nat)
    requires Holds(st, l, o) && Shape(l, o) && i < |l.window| && Listed(st, l, i)
    ensures var k, f := l.window[i].key, l.window[i].frag;
            if f.retxCount >= o.maxRetx then
              f.netPkt < |l.pkts| && Holds(GiveUpStore(st, k, f.netPkt), Exhaust(l, f.netPkt), o)
            else
              !Full(l, o) ==> Holds(ResendStore(st, k, |l.log| % o.modulus, deadline), Renumber(l, o, i), o)
  {
    if l.window[i].frag.retxCount >= o.maxRetx {
      WindowIsNarrow(l, o);
      GiveUpRefines(st, l, o, i);
    } else if !Full(l, o) {
      ResendNarrow(l, o, i);
      assert l.window[i] in l.window;
      ResendRefines(st, l, o, i, deadline);
    }
  }

  /** `removed` holds exactly the TxSequences of the transmissions that left the window. */
  ghost predicate RemovedKeys(w: seq<Tx>, w': seq<Tx>, removed: set<nat>)
  {
    forall tx :: tx in w ==> (tx.key in removed <==> !Among(w', tx.n))
  }

  lemma GiveUpRemoves(st: Store, l: Ledger, id: nat)
    requires Represents(st.frags, st.first, l.window) && BackPointers(st.frags, st.netPkts) && id in st.netPkts &&
             id < |l.pkts|
    requires Increasing(l.window)
    ensures RemovedKeys(l.window, Exhaust(l, id).window, SetOf(st.netPkts[id].unackedFrags))
  {
    var w' := Exhaust(l, id).window;
    forall tx | tx in l.window ensures tx.key in SetOf(st.netPkts[id].unackedFrags) <==> !Among(w', tx.n) {
      if tx.frag.netPkt == id {
        assert tx.n in NumbersOf(l.window, id);
      } else {
        ExhaustKeeps(l, id, tx);
      }
    }
  }

  lemma ResendRemoves(l: Ledger, o: Options, i: nat)
    requires o.modulus > 0 && Linked(l) && i < |l.window| && Increasing(l.window) && DistinctKeys(l.window)
    requires forall tx :: tx in l.window ==> tx.n < |l.log|
    ensures RemovedKeys(l.window, Renumber(l, o, i).window, {l.window[i].key})
  {
    var w' := Renumber(l, o, i).window;
    forall tx | tx in l.window ensures tx.key in {l.window[i].key} <==> !Among(w', tx.n) {
      var j :| 0 <= j < |l.window| && l.window[j] == tx;
      if j != i {
        NumbersDistinct(l.window, tx, l.window[i]);
        assert tx in w';
      }
    }
  }

  /** The outcome of onLpPacketLost() on the fields and on what is sent. */
  datatype Outgoing = Outgoing(ackQueue: seq<nat>, sent: seq<Packet>)

  function SendOut(out: Outgoing, o: Options, pkt: Packet): Outgoing
  {
    Outgoing(AckQueue.Rest(pkt, o.mtu, out.ackQueue), out.sent + [AckQueue.Attach(pkt, o.mtu, out.ackQueue)])
  }

  predicate GivenUp(st: Store, out: Outgoing, k: nat, st': Store, out': Outgoing, removed: set<nat>)
    requires CanLose(st, k)
  {
    var id := st.frags[k].netPkt;
    st' == GiveUpStore(st, k, id) && out' == out && removed == SetOf(st.netPkts[id].unackedFrags)
  }

  predicate Resent(st: Store, out: Outgoing, o: Options, k: nat, deadline: nat, st': Store, out': Outgoing,
                   removed: set<nat>)
    requires CanLose(st, k)
  {
    var k' := Next(st.last, o.modulus);
    st' == ResendStore(st, k, k', deadline) && out' == SendOut(out, o, Again(st.frags[k], k').pkt) && removed == {k}
  }


  /** What onLpPacketLost() leaves for the entry at position `i`, when retransmissions are used up. */
  lemma GivenUpRefines(st: Store, out: Outgoing, s: State, o: Options, i: nat, st': Store, out': Outgoing,
                       removed: set<nat>)
    requires Holds(st, s.ledger, o) && Shape(s.ledger, o) && i < |s.ledger.window|
    requires CanLose(st, s.ledger.window[i].key) && Listed(st, s.ledger, i) && out == Outgoing(s.ackQueue, s.sent)
    requires s.ledger.window[i].frag.retxCount >= o.maxRetx
    requires GivenUp(st, out, s.ledger.window[i].key, st', out', removed)
    ensures s.ledger.window[i].frag.netPkt < |s.ledger.pkts|
    ensures var l := Exhaust(s.ledger, s.ledger.window[i].frag.netPkt);
            Holds(st', l, o) && RemovedKeys(s.ledger.window, l.window, removed)
  {
    LostRefines(st, s.ledger, o, i, 0);
    GiveUpRemoves(st, s.ledger, s.ledger.window[i].frag.netPkt);
  }

  lemma ResentRefines(st: Store, out: Outgoing, s: State, o: Options, i: nat, deadline: nat,
                      st': Store, out': Outgoing, removed: set<nat>)
    requires Holds(st, s.ledger, o) && Shape(s.ledger, o) && i < |s.ledger.window|
    requires CanLose(st, s.ledger.window[i].key) && Listed(st, s.ledger, i) && out == Outgoing(s.ackQueue, s.sent)
    requires s.ledger.window[i].frag.retxCount < o.maxRetx && !Full(s.ledger, o)
    requires Resent(st, out, o, s.ledger.window[i].key, deadline, st', out', removed)
    ensures var l := Renumber(s.ledger, o, i);
            Holds(st', l, o) && RemovedKeys(s.ledger.window, l.window, removed)
    ensures out' == SendOut(out, o, AgainPacket(s.ledger, o, i))
  {
    AssignRefines(st, s.ledger, o);
    LostRefines(st, s.ledger, o, i, deadline);
    ResendRemoves(s.ledger, o, i);
  }

  /** What onLpPacketLost() did to the fields and to what is sent. */
  ghost predicate LostCall(st: Store, out: Outgoing, o: Options, k: nat, deadline: nat,
                           ok: bool, st': Store, out': Outgoing, removed: set<nat>)
    requires CanLose(st, k)
  {
    if st.frags[k].retxCount >= o.maxRetx then ok && GivenUp(st, out, k, st', out', removed)
    else && (ok <==> st.first != Some(Next(st.last, o.modulus)))
         && (ok ==> Resent(st, out, o, k, deadline, st', out', removed))
  }

  lemma LostCallRefines(st: Store, out: Outgoing, s: State, o: Options, i: nat, deadline: nat,
                        ok: bool, st': Store, out': Outgoing, removed: set<nat>) returns (t: State)
    requires Holds(st, s.ledger, o) && Shape(s.ledger, o) && i < |s.ledger.window|
    requires CanLose(st, s.ledger.window[i].key) && Listed(st, s.ledger, i) && out == Outgoing(s.ackQueue, s.sent)
    requires LostCall(st, out, o, s.ledger.window[i].key, deadline, ok, st', out', removed)
    ensures LostOutcome(s, o, i, ok, t)
    ensures ok ==> Holds(st', t.ledger, o) && out' == Outgoing(t.ackQueue, t.sent)
    ensures ok ==> RemovedKeys(s.ledger.window, t.ledger.window, removed)
  {
    var l := s.ledger;
    t := s;
    if l.window[i].frag.retxCount >= o.maxRetx {
      GivenUpRefines(st, out, s, o, i, st', out', removed);
      t := s.(ledger := Exhaust(l, l.window[i].frag.netPkt));
    } else {
      AssignRefines(st, l, o);
      if ok {
        ResentRefines(st, out, s, o, i, deadline, st', out', removed);
        t := Transmit(s.(ledger := Renumber(l, o, i)), o, AgainPacket(l, o, i));
      }
    }
  }

  // ---------------------------------------------------------------- calls on whole ledgers

  /** What findLostLpPackets() and onLpPacketAcknowledged() need is there. */
  lemma EntryCanBeAcked(st: Store, l: Ledger, o: Options, i: nat)
    requires Holds(st, l, o) && Shape(l, o) && i < |l.window|
    ensures WalkOrder(l.window) && CanAck(st, st.frags, l.window[i].key)
  {
    WindowIsNarrow(l, o);
    NarrowWalks(l.window, o.modulus);
    EntryIsListed(st, l, o, i);
  }

  /** The map changed by findLostLpPackets() is all that onLpPacketAcknowledged() takes from there. */
  lemma AckStoreOfFrags(st: Store, st': Store, k: nat)
    requires st' == st.(frags := st'.frags) && CanAck(st, st'.frags, k)
    ensures AckStore(st', st'.frags, k) == AckStore(st, st'.frags, k)
  {
  }

  /** onLpPacketAcknowledged() would leave fields that hold what the Ack leaves. */
  ghost predicate ReadyToAck(st: Store, l: Ledger, o: Options, i: nat)
    requires Linked(l) && i < |l.window|
  {
    var k := l.window[i].key;
    CanAck(st, st.frags, k) && Holds(AckStore(st, st.frags, k), AckAt(l, i), o)
  }

  lemma AckCallRefines(st: Store, st': Store, l: Ledger, o: Options, i: nat, b: seq<Tx>)
    requires Holds(st, l, o) && Shape(l, o) && i < |l.window| && CanAck(st, st.frags, l.window[i].key)
    requires st' == st.(frags := st'.frags)
    requires b == Bump(l.window, i) && Represents(st'.frags, st.first, b) && BumpedFrom(st.frags, st'.frags)
    ensures ReadyToAck(st', l, o, i)
  {
    WindowIsNarrow(l, o);
    EntryIsListed(st, l, o, i);
    AckRefines(st, l, o, i, st'.frags);
    AckStoreOfFrags(st, st', l.window[i].key);
  }

  /** What one turn of the loop in handleOutgoing() did to the fields. */
  ghost predicate InsertCall(st: Store, o: Options, id: nat, pkt: Packet, deadline: nat, ok: bool, st': Store)
    requires id in st.netPkts
  {
    var k := Next(st.last, o.modulus);
    && (ok <==> !(st.frags != map[] && st.first == Some(k)))
    && (ok ==> st' == InsertStore(st, id, k, FirstFrag(pkt, k, id), deadline))
  }

  /** What the loop of handleOutgoing() keeps of the window. */
  predicate Numbering(l: Ledger, o: Options)
  {
    o.modulus > 0 && WindowInv(l, o) && KeyInv(l.window, o.modulus) && Linked(l)
  }

  lemma AddTxNumbering(l: Ledger, o: Options, id: FragId, pkt: Packet)
    requires Numbering(l, o) && !Full(l, o) && id.pkt < |l.pkts|
    ensures Numbering(AddTx(l, o, id, pkt, 0), o)
    ensures DistinctKeys(AddTx(l, o, id, pkt, 0).window)
  {
    AddTxWindow(l, o, id, pkt, 0);
    WindowIsNarrow(AddTx(l, o, id, pkt, 0), o);
    NarrowDistinct(AddTx(l, o, id, pkt, 0).window, o.modulus);
  }

  lemma InsertCallRefines(st: Store, l: Ledger, o: Options, id: FragId, pkt: Packet, deadline: nat, ok: bool,
                          st': Store)
    requires Holds(st, l, o) && Numbering(l, o) && id.pkt in st.netPkts && id.pkt < |l.pkts|
    requires InsertCall(st, o, id.pkt, pkt, deadline, ok, st')
    ensures ok <==> !Full(l, o)
    ensures ok ==> Holds(st', AddTx(l, o, id, pkt, 0), o) && Numbering(AddTx(l, o, id, pkt, 0), o)
    ensures ok ==> id.pkt in st'.netPkts
  {
    AssignRefines(st, l, o);
    if ok {
      AddTxNumbering(l, o, id, pkt);
      InsertRefines(st, l, o, id, pkt, deadline);
    }
  }
}
