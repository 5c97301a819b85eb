/** BestRouteStrategy with exponential retransmission suppression: which next hop gets an Interest, and when. */
module BestRoute {
  import opened Packets
  import opened Arithmetic

  datatype Face = Face(id: nat, isLocal: bool, isAdHoc: bool)

  /** The scope that the name of an Interest puts it under. */
  datatype Scope = Localhost | Localhop | Unscoped

  datatype Interest = Interest(scope: Scope, lifetime: nat, hopLimitIsZero: bool)

  datatype OutRecord = OutRecord(lastRenewed: nat, expiry: nat, isNacked: bool)

  /** Out-records of a PIT entry by face; a PIT entry has at most one per face. */
  type OutRecords = map<nat, OutRecord>

  /** `suppressionInterval` is the PitInfo of the entry, if it has one. */
  datatype Entry = Entry(outRecords: OutRecords, suppressionInterval: Option<nat>)

  /** The strategy uses the default multiplier 2. */
  datatype Config = Config(initialInterval: nat, maxInterval: nat)

  datatype Decision = New | Forward | Suppress

  datatype Action = Suppressed | NackNoRoute | SentTo(face: Face) | NoNextHop

  // ---------------------------------------------------------------- next hops

  predicate WouldViolateScope(inFace: Face, interest: Interest, outFace: Face)
  {
    if outFace.isLocal then false
    else if interest.scope == Localhost then true
    else if interest.scope == Localhop then !inFace.isLocal
    else false
  }

  predicate IsNextHopEligible(inFace: Face, interest: Interest, outFace: Face)
  {
    !(outFace.id == inFace.id && !outFace.isAdHoc) && !WouldViolateScope(inFace, interest, outFace)
  }

  /** The eligible next hops, in FIB order. */
  function Eligibles(inFace: Face, interest: Interest, nexthops: seq<Face>): seq<Face>
  {
    if nexthops == [] then []
    else
      var last := nexthops[|nexthops| - 1];
      Eligibles(inFace, interest, nexthops[..|nexthops| - 1])
      + if IsNextHopEligible(inFace, interest, last) then [last] else []
  }

  /** onOutgoingInterest() drops the Interest for none of these faces: its hop limit allows it or they are local. */
  predicate Passes(interest: Interest, hops: seq<Face>)
  {
    forall f :: f in hops ==> f.isLocal || !interest.hopLimitIsZero
  }

  /** Faces with an unexpired out-record. */
  function Used(records: OutRecords, now: nat): set<nat>
  {
    set f | f in records && records[f].expiry > now
  }

  /** The first face that is not in `skip`. */
  function FirstFace(faces: seq<Face>, skip: set<nat>): Option<Face>
  {
    if faces == [] then None
    else
      var r := FirstFace(faces[..|faces| - 1], skip);
      if r.Some? then r
      else if faces[|faces| - 1].id in skip then None else Some(faces[|faces| - 1])
  }

  predicate AllRecorded(faces: seq<Face>, records: OutRecords)
  {
    forall f :: f in faces ==> f.id in records
  }

  /** The face with the earliest out-record; the first of them if several are equally early. */
  function Earliest(faces: seq<Face>, records: OutRecords): (r: Option<Face>)
    requires AllRecorded(faces, records)
    ensures r.Some? ==> r.value in faces
  {
    if faces == [] then None
    else
      var last := faces[|faces| - 1];
      assert last in faces && forall f :: f in faces[..|faces| - 1] ==> f in faces;
      var r := Earliest(faces[..|faces| - 1], records);
      if r.None? || records[last.id].lastRenewed < records[r.value.id].lastRenewed then Some(last) else r
  }

  /** When no face is left unused, every face has an out-record: the assertion in
      findEligibleNextHopWithEarliestOutRecord() cannot fail. */
  lemma {:induction false} NoneUnused(faces: seq<Face>, records: OutRecords, now: nat)
    requires FirstFace(faces, Used(records, now)).None?
    ensures AllRecorded(faces, records)
  {
    if faces != [] {
      var last := |faces| - 1;
      NoneUnused(faces[..last], records, now);
      assert faces == faces[..last] + [faces[last]];
    }
  }

  // ---------------------------------------------------------------- suppression

  predicate IsPending(r: OutRecord, now: nat)
  {
    r.expiry >= now && !r.isNacked
  }

  predicate HasPendingOutRecords(records: OutRecords, now: nat)
  {
    exists f :: f in records && IsPending(records[f], now)
  }

  /** `t` is the time of the latest transmission. */
  predicate IsLastOutgoing(records: OutRecords, t: nat)
  {
    && (exists f :: f in records && records[f].lastRenewed == t)
    && (forall f :: f in records ==> records[f].lastRenewed <= t)
  }

  lemma {:induction false} LastOutgoingExists(records: OutRecords)
    requires records != map[]
    ensures exists t: nat :: IsLastOutgoing(records, t)
    decreases |records|
  {
    var f :| f in records;
    var rest := records - {f};
    if rest == map[] {
      assert records.Keys == {f} by {
        assert records.Keys - {f} == rest.Keys == {};
      }
      assert IsLastOutgoing(records, records[f].lastRenewed);
    } else {
      LastOutgoingExists(rest);
      var u: nat :| IsLastOutgoing(rest, u);
      var t := if u < records[f].lastRenewed then records[f].lastRenewed else u;
      var g :| g in rest && rest[g].lastRenewed == u;
      assert g in records && records[g].lastRenewed == u;
      forall h | h in records ensures records[h].lastRenewed <= t {
        if h != f { assert h in rest; }
      }
      assert IsLastOutgoing(records, t);
    }
  }

  ghost function LastOutgoing(records: OutRecords): (t: nat)
    requires records != map[]
    ensures IsLastOutgoing(records, t)
  {
    LastOutgoingExists(records);
    var t: nat :| IsLastOutgoing(records, t);
    t
  }

  lemma LastOutgoingUnique(records: OutRecords, t: nat)
    requires records != map[] && IsLastOutgoing(records, t)
    ensures LastOutgoing(records) == t
  {
    var u := LastOutgoing(records);
    var f :| f in records && records[f].lastRenewed == u;
    var g :| g in records && records[g].lastRenewed == t;
  }

  function CurrentInterval(cfg: Config, e: Entry): nat
  {
    if e.suppressionInterval.Some? then e.suppressionInterval.value else cfg.initialInterval
  }

  /** decidePerPitEntry() */
  ghost function Decide(cfg: Config, e: Entry, now: nat): (Decision, Entry)
  {
    if !HasPendingOutRecords(e.outRecords, now) then (New, e)
    else
      var interval := CurrentInterval(cfg, e);
      if now - LastOutgoing(e.outRecords) < interval then (Suppress, e.(suppressionInterval := Some(interval)))
      else (Forward, e.(suppressionInterval := Some(Min(cfg.maxInterval, interval * 2))))
  }

  // ---------------------------------------------------------------- the strategy

  /** sendInterest(): the out-record is inserted or renewed, unless the hop limit forbids the face. */
  function Send(e: Entry, interest: Interest, face: Face, now: nat): Entry
  {
    if interest.hopLimitIsZero && !face.isLocal then e
    else
      var isNacked := face.id in e.outRecords && e.outRecords[face.id].isNacked;
      e.(outRecords := e.outRecords[face.id := OutRecord(now, now + interest.lifetime, isNacked)])
  }

  ghost function AfterReceiveInterest(cfg: Config, e: Entry, inFace: Face, interest: Interest, nexthops: seq<Face>,
                                      now: nat): (Action, Entry)
  {
    var eligible := Eligibles(inFace, interest, nexthops);
    var d := Decide(cfg, e, now);
    match d.0
    case Suppress => (Suppressed, d.1)
    case New =>
      (match FirstFace(eligible, {})
       case None => (NackNoRoute, d.1)
       case Some(f) => (SentTo(f), Send(d.1, interest, f, now)))
    case Forward =>
      match FirstFace(eligible, Used(d.1.outRecords, now))
      case Some(f) => (SentTo(f), Send(d.1, interest, f, now))
      case None =>
        NoneUnused(eligible, d.1.outRecords, now);
        match Earliest(eligible, d.1.outRecords)
        case None => (NoNextHop, d.1)
        case Some(f) => (SentTo(f), Send(d.1, interest, f, now))
  }

  // ---------------------------------------------------------------- scheduling

  /** One transmission. */
  datatype Tx = Tx(face: Face, time: nat)

  datatype History = History(entry: Entry, sent: seq<Tx>)

  function Start(): History
  {
    History(Entry(map[], None), [])
  }

  /** The same Interest arrives again from the same downstream. */
  ghost function Arrive(h: History, cfg: Config, inFace: Face, interest: Interest, nexthops: seq<Face>,
                        now: nat): History
  {
    var r := AfterReceiveInterest(cfg, h.entry, inFace, interest, nexthops, now);
    History(r.1, h.sent + if r.0.SentTo? then [Tx(r.0.face, now)] else [])
  }

  ghost function Run(cfg: Config, inFace: Face, interest: Interest, nexthops: seq<Face>, times: seq<nat>): History
  {
    if times == [] then Start()
    else Arrive(Run(cfg, inFace, interest, nexthops, times[..|times| - 1]), cfg, inFace, interest, nexthops,
          times[|times| - 1])
  }

  /** No out-record has expired when the Interest arrives at `now`. */
  predicate Unexpired(e: Entry, now: nat)
  {
    forall f :: f in e.outRecords ==> e.outRecords[f].expiry > now
  }

  /** The clock does not go back and no out-record expires while the Interest is retransmitted. */
  ghost predicate Steady(cfg: Config, inFace: Face, interest: Interest, nexthops: seq<Face>, times: seq<nat>)
  {
    times != [] ==>
      var before, now := times[..|times| - 1], times[|times| - 1];
      && Steady(cfg, inFace, interest, nexthops, before)
      && (before != [] ==> before[|before| - 1] <= now)
      && Unexpired(Run(cfg, inFace, interest, nexthops, before).entry, now)
  }

  predicate ValidConfig(cfg: Config)
  {
    cfg.initialInterval > 0 && cfg.maxInterval >= cfg.initialInterval
  }

  /** The suppression interval after `k` retransmissions. */
  function Backoff(cfg: Config, k: nat): nat
  {
    if k == 0 then cfg.initialInterval else Min(cfg.maxInterval, Backoff(cfg, k - 1) * 2)
  }

  lemma {:induction false} BackoffPositive(cfg: Config, k: nat)
    requires ValidConfig(cfg)
    ensures Backoff(cfg, k) > 0
  {
    if k > 0 {
      BackoffPositive(cfg, k - 1);
    }
  }

  lemma DoubleProduct(a: nat, b: nat)
    ensures a * (2 * b) == a * b * 2
  {
  }

  lemma CapTwice(limit: nat, x: nat)
    ensures Min(limit, Min(limit, x) * 2) == Min(limit, x * 2)
  {
  }

  /** Doubling and capping at every step is capping the power. */
  lemma {:induction false} BackoffClosed(cfg: Config, k: nat)
    requires ValidConfig(cfg)
    ensures Backoff(cfg, k) == Min(cfg.maxInterval, cfg.initialInterval * Power2(k))
  {
    if k > 0 {
      BackoffClosed(cfg, k - 1);
      DoubleProduct(cfg.initialInterval, Power2(k - 1));
      CapTwice(cfg.maxInterval, cfg.initialInterval * Power2(k - 1));
    }
  }

  predicate DistinctFaces(faces: seq<Face>)
  {
    forall i, j :: 0 <= i < j < |faces| ==> faces[i].id != faces[j].id
  }

  /** The first n transmissions go to the n hops in order; after that each goes where the n-th before it went. */
  ghost predicate Cyclic(hops: seq<Face>, sent: seq<Tx>)
  {
    && (forall i :: 0 <= i < |sent| && i < |hops| ==> sent[i].face == hops[i])
    && (forall i, j :: 0 <= i < |sent| && i + |hops| == j < |sent| ==> sent[j].face == sent[i].face)
  }

  /** Any n consecutive transmissions go to different hops. */
  predicate WindowDistinct(hops: seq<Face>, sent: seq<Tx>)
  {
    forall i, j :: 0 <= i < j < |sent| && j < i + |hops| ==> sent[i].face.id != sent[j].face.id
  }

  /** Transmission `i` is one of the last n. */
  predicate Recent(hops: seq<Face>, sent: seq<Tx>, i: int)
  {
    0 <= i < |sent| <= i + |hops|
  }

  ghost predicate RecentlyUsed(hops: seq<Face>, sent: seq<Tx>, id: nat)
  {
    exists i :: Recent(hops, sent, i) && sent[i].face.id == id
  }

  /** After n transmissions, every hop is among the last n. */
  ghost predicate Covers(hops: seq<Face>, sent: seq<Tx>)
  {
    |sent| >= |hops| ==> forall f :: f in hops ==> RecentlyUsed(hops, sent, f.id)
  }

  ghost predicate Spaced(cfg: Config, sent: seq<Tx>)
  {
    forall i, j :: 0 <= i < j < |sent| && j == i + 1 ==> sent[j].time - sent[i].time >= Backoff(cfg, i)
  }

  predicate Increasing(sent: seq<Tx>)
  {
    forall i, j :: 0 <= i < j < |sent| ==> sent[i].time < sent[j].time
  }

  predicate RecordAt(tx: Tx, records: OutRecords)
  {
    tx.face.id in records && records[tx.face.id].lastRenewed == tx.time && !records[tx.face.id].isNacked
  }

  /** The out-records are those of the last n transmissions, unless there have been fewer. */
  ghost predicate RecordsOf(hops: seq<Face>, sent: seq<Tx>, records: OutRecords)
  {
    && (forall i :: Recent(hops, sent, i) ==> RecordAt(sent[i], records))
    && (forall f :: f in records ==> RecentlyUsed(hops, sent, f))
  }

  ghost predicate Order(hops: seq<Face>, sent: seq<Tx>)
  {
    && Cyclic(hops, sent) && WindowDistinct(hops, sent) && Covers(hops, sent) && Increasing(sent)
    && forall i :: 0 <= i < |sent| ==> sent[i].face in hops
  }

  ghost predicate OrderInv(hops: seq<Face>, h: History)
  {
    Order(hops, h.sent) && RecordsOf(hops, h.sent, h.entry.outRecords)
  }

  ghost predicate PaceInv(cfg: Config, h: History)
  {
    && Spaced(cfg, h.sent)
    && (h.sent == [] ==> h.entry.suppressionInterval.None?)
    && (h.sent != [] ==> CurrentInterval(cfg, h.entry) == Backoff(cfg, |h.sent| - 1))
  }

  /** The hop whose turn it is. */
  function Next(hops: seq<Face>, sent: seq<Tx>): Face
    requires hops != []
  {
    if |sent| < |hops| then hops[|sent|] else sent[|sent| - |hops|].face
  }

  /** The latest transmission is the last one. */
  lemma LastIsLatest(hops: seq<Face>, sent: seq<Tx>, records: OutRecords)
    requires hops != [] && sent != [] && RecordsOf(hops, sent, records) && Increasing(sent)
    ensures records != map[] && LastOutgoing(records) == sent[|sent| - 1].time
    ensures RecordAt(sent[|sent| - 1], records)
  {
    var m := |sent| - 1;
    assert Recent(hops, sent, m);
    forall f | f in records ensures records[f].lastRenewed <= sent[m].time {
      var i :| Recent(hops, sent, i) && sent[i].face.id == f;
      assert RecordAt(sent[i], records);
    }
    LastOutgoingUnique(records, sent[m].time);
  }

  lemma {:induction false} FirstOutside(faces: seq<Face>, skip: set<nat>, k: nat)
    requires k < |faces| && faces[k].id !in skip && forall j :: 0 <= j < k ==> faces[j].id in skip
    ensures FirstFace(faces, skip) == Some(faces[k])
  {
    var last := |faces| - 1;
    if k < last {
      FirstOutside(faces[..last], skip, k);
    } else {
      NoneOutside(faces[..last], skip);
    }
  }

  lemma {:induction false} NoneOutside(faces: seq<Face>, skip: set<nat>)
    requires forall j :: 0 <= j < |faces| ==> faces[j].id in skip
    ensures FirstFace(faces, skip).None?
  {
    if faces != [] { NoneOutside(faces[..|faces| - 1], skip); }
  }

  /** A strict minimum is what the search finds. */
  lemma {:induction false} EarliestIsMinimum(faces: seq<Face>, records: OutRecords, f: Face)
    requires AllRecorded(faces, records) && f in faces
    requires forall g :: g in faces && g != f ==> records[f.id].lastRenewed < records[g.id].lastRenewed
    ensures Earliest(faces, records) == Some(f)
  {
    var front := faces[..|faces| - 1];
    assert faces == front + [faces[|faces| - 1]];
    if f in front {
      EarliestIsMinimum(front, records, f);
    }
  }

  /** Fewer transmissions than hops: the next hop in order has no record yet. */
  lemma NextUnused(hops: seq<Face>, sent: seq<Tx>, e: Entry, now: nat)
    requires hops != [] && DistinctFaces(hops) && |sent| < |hops| && Cyclic(hops, sent)
    requires RecordsOf(hops, sent, e.outRecords) && Unexpired(e, now)
    ensures FirstFace(hops, Used(e.outRecords, now)) == Some(Next(hops, sent))
  {
    var m := |sent|;
    forall j | 0 <= j < m ensures hops[j].id in Used(e.outRecords, now) {
      assert Recent(hops, sent, j) && RecordAt(sent[j], e.outRecords);
    }
    assert hops[m].id !in e.outRecords;
    FirstOutside(hops, Used(e.outRecords, now), m);
  }

  lemma UsedLater(hops: seq<Face>, sent: seq<Tx>, records: OutRecords, g: Face)
    requires hops != [] && DistinctFaces(hops) && |sent| >= |hops| && Covers(hops, sent) && Increasing(sent)
    requires (forall i :: 0 <= i < |sent| ==> sent[i].face in hops) && g in hops
    requires forall i :: Recent(hops, sent, i) ==> RecordAt(sent[i], records)
    ensures var tx := sent[|sent| - |hops|];
            RecordAt(tx, records) && g.id in records && (g != tx.face ==> tx.time < records[g.id].lastRenewed)
  {
    assert Recent(hops, sent, |sent| - |hops|);
    var i :| Recent(hops, sent, i) && sent[i].face.id == g.id;
    SameIdSameFace(hops, sent[i].face, g);
  }

  /** After n transmissions every hop has a record, and that of the n-th last transmission, whose hop is the
      next one in order, is the earliest. */
  lemma NextEarliest(hops: seq<Face>, sent: seq<Tx>, e: Entry, now: nat)
    requires hops != [] && DistinctFaces(hops) && |sent| >= |hops| && Order(hops, sent)
    requires RecordsOf(hops, sent, e.outRecords) && Unexpired(e, now)
    ensures FirstFace(hops, Used(e.outRecords, now)).None? && AllRecorded(hops, e.outRecords)
    ensures Earliest(hops, e.outRecords) == Some(Next(hops, sent))
  {
    var tx := sent[|sent| - |hops|];
    forall g | g in hops
      ensures RecordAt(tx, e.outRecords) && g.id in e.outRecords
      ensures g != tx.face ==> e.outRecords[tx.face.id].lastRenewed < e.outRecords[g.id].lastRenewed
    {
      UsedLater(hops, sent, e.outRecords, g);
    }
    assert forall j :: 0 <= j < |hops| ==> hops[j] in hops;
    NoneOutside(hops, Used(e.outRecords, now));
    EarliestIsMinimum(hops, e.outRecords, tx.face);
  }

  lemma SameIdSameFace(hops: seq<Face>, f: Face, g: Face)
    requires DistinctFaces(hops) && f in hops && g in hops && f.id == g.id
    ensures f == g
  {
    var i :| 0 <= i < |hops| && hops[i] == f;
    var j :| 0 <= j < |hops| && hops[j] == g;
  }

  lemma NextCyclic(hops: seq<Face>, sent: seq<Tx>, now: nat)
    requires hops != [] && Cyclic(hops, sent)
    ensures Cyclic(hops, sent + [Tx(Next(hops, sent), now)])
  {
  }

  lemma NextDistinct(hops: seq<Face>, sent: seq<Tx>, now: nat)
    requires hops != [] && DistinctFaces(hops) && Cyclic(hops, sent) && WindowDistinct(hops, sent)
    ensures WindowDistinct(hops, sent + [Tx(Next(hops, sent), now)])
  {
    var f, m := Next(hops, sent), |sent|;
    forall i | 0 <= i < m && m < i + |hops| ensures sent[i].face.id != f.id {
      if m < |hops| { assert sent[i].face == hops[i]; }
    }
  }

  lemma NextIncreasing(sent: seq<Tx>, tx: Tx)
    requires Increasing(sent) && (sent != [] ==> sent[|sent| - 1].time < tx.time)
    ensures Increasing(sent + [tx])
  {
  }

  lemma NextInHops(hops: seq<Face>, sent: seq<Tx>, now: nat)
    requires hops != [] && forall i :: 0 <= i < |sent| ==> sent[i].face in hops
    ensures var sent' := sent + [Tx(Next(hops, sent), now)]; forall i :: 0 <= i < |sent'| ==> sent'[i].face in hops
  {
    assert Next(hops, sent) in hops;
  }

  /** The order goes on when the hop whose turn it is gets the next transmission. */
  lemma NextOrder(hops: seq<Face>, sent: seq<Tx>, now: nat)
    requires hops != [] && DistinctFaces(hops) && Order(hops, sent)
    requires sent != [] ==> sent[|sent| - 1].time < now
    ensures Order(hops, sent + [Tx(Next(hops, sent), now)])
  {
    NextCyclic(hops, sent, now);
    NextDistinct(hops, sent, now);
    NextCovers(hops, sent, now);
    NextIncreasing(sent, Tx(Next(hops, sent), now));
    NextInHops(hops, sent, now);
  }

  lemma NextCovers(hops: seq<Face>, sent: seq<Tx>, now: nat)
    requires hops != [] && Cyclic(hops, sent) && Covers(hops, sent)
    ensures Covers(hops, sent + [Tx(Next(hops, sent), now)])
  {
    var sent' := sent + [Tx(Next(hops, sent), now)];
    var m := |sent|;
    if m + 1 >= |hops| {
      forall f | f in hops ensures RecentlyUsed(hops, sent', f.id) {
        assert Recent(hops, sent', m);
        if m + 1 == |hops| {
          var i :| 0 <= i < |hops| && hops[i] == f;
          assert Recent(hops, sent', i) && sent'[i].face == f;
        } else {
          var i :| Recent(hops, sent, i) && sent[i].face.id == f.id;
          if i > m - |hops| { assert Recent(hops, sent', i) && sent'[i] == sent[i]; }
        }
      }
    }
  }

  /** A transmission to the hop whose turn it is replaces the oldest record, or adds one. */
  lemma SendRecords(hops: seq<Face>, sent: seq<Tx>, e: Entry, interest: Interest, now: nat)
    requires hops != [] && RecordsOf(hops, sent, e.outRecords)
    requires Next(hops, sent).isLocal || !interest.hopLimitIsZero
    requires WindowDistinct(hops, sent + [Tx(Next(hops, sent), now)])
    ensures var f := Next(hops, sent); RecordsOf(hops, sent + [Tx(f, now)], Send(e, interest, f, now).outRecords)
  {
    var m, f := |sent|, Next(hops, sent);
    var sent', records' := sent + [Tx(f, now)], Send(e, interest, f, now).outRecords;
    if f.id in e.outRecords {
      var i :| Recent(hops, sent, i) && sent[i].face.id == f.id;
      assert RecordAt(sent[i], e.outRecords);
    }
    forall i | Recent(hops, sent', i) ensures RecordAt(sent'[i], records') {
      if i < m {
        assert Recent(hops, sent, i) && RecordAt(sent[i], e.outRecords);
        assert sent'[i].face.id != sent'[m].face.id;
      }
    }
    forall g | g in records' ensures RecentlyUsed(hops, sent', g) {
      assert Recent(hops, sent', m);
      if g != f.id {
        var i :| Recent(hops, sent, i) && sent[i].face.id == g;
        assert i != m - |hops|;
        assert Recent(hops, sent', i) && sent'[i] == sent[i];
      } else {
        assert sent'[m].face.id == g;
      }
    }
  }

  /** What an arrival leads to: nothing sent, or a transmission to the hop whose turn it is. */
  datatype Effect = Held(interval: nat) | Sent(newInterval: Option<nat>)

  function EffectOf(cfg: Config, h: History, now: nat): Effect
  {
    if h.sent == [] then Sent(h.entry.suppressionInterval)
    else
      var interval := CurrentInterval(cfg, h.entry);
      if now - h.sent[|h.sent| - 1].time < interval then Held(interval)
      else Sent(Some(Min(cfg.maxInterval, interval * 2)))
  }

  function Apply(hops: seq<Face>, h: History, interest: Interest, now: nat, effect: Effect): History
    requires hops != []
  {
    match effect
    case Held(interval) => History(h.entry.(suppressionInterval := Some(interval)), h.sent)
    case Sent(interval) =>
      var f := Next(hops, h.sent);
      History(Send(h.entry.(suppressionInterval := interval), interest, f, now), h.sent + [Tx(f, now)])
  }

  /** The first arrival. */
  lemma FirstArrival(cfg: Config, inFace: Face, interest: Interest, nexthops: seq<Face>, h: History, now: nat)
    requires Eligibles(inFace, interest, nexthops) != [] && h.sent == [] && h.entry.outRecords == map[]
    ensures AfterReceiveInterest(cfg, h.entry, inFace, interest, nexthops, now)
            == (SentTo(Eligibles(inFace, interest, nexthops)[0]),
                  Send(h.entry, interest, Eligibles(inFace, interest, nexthops)[0], now))
  {
    FirstOutside(Eligibles(inFace, interest, nexthops), {}, 0);
  }

  lemma PendingDecision(cfg: Config, hops: seq<Face>, h: History, now: nat)
    requires hops != [] && OrderInv(hops, h) && Unexpired(h.entry, now) && h.sent != []
    ensures var interval := CurrentInterval(cfg, h.entry);
            Decide(cfg, h.entry, now)
            == if now - h.sent[|h.sent| - 1].time < interval
               then (Suppress, h.entry.(suppressionInterval := Some(interval)))
               else (Forward, h.entry.(suppressionInterval := Some(Min(cfg.maxInterval, interval * 2))))
  {
    LastIsLatest(hops, h.sent, h.entry.outRecords);
    var last := h.sent[|h.sent| - 1].face.id;
    assert last in h.entry.outRecords && IsPending(h.entry.outRecords[last], now);
  }

  /** The search for an unused hop, or else for the earliest out-record, finds `f`. */
  ghost predicate Finds(hops: seq<Face>, records: OutRecords, now: nat, f: Face)
  {
    var g := FirstFace(hops, Used(records, now));
    if g.Some? then g.value == f else AllRecorded(hops, records) && Earliest(hops, records) == Some(f)
  }

  lemma NextFound(hops: seq<Face>, h: History, now: nat)
    requires hops != [] && DistinctFaces(hops) && OrderInv(hops, h) && Unexpired(h.entry, now)
    ensures Finds(hops, h.entry.outRecords, now, Next(hops, h.sent))
  {
    if |h.sent| < |hops| {
      NextUnused(hops, h.sent, h.entry, now);
    } else {
      NextEarliest(hops, h.sent, h.entry, now);
    }
  }

  lemma ArriveSuppressed(cfg: Config, inFace: Face, interest: Interest, nexthops: seq<Face>, h: History, now: nat)
    requires Decide(cfg, h.entry, now).0 == Suppress
    ensures Arrive(h, cfg, inFace, interest, nexthops, now) == History(Decide(cfg, h.entry, now).1, h.sent)
  {
    assert h.sent + [] == h.sent;
  }

  lemma ArriveForwarded(cfg: Config, inFace: Face, interest: Interest, nexthops: seq<Face>, h: History, now: nat,
                        f: Face)
    requires Decide(cfg, h.entry, now).0 == Forward
    requires Finds(Eligibles(inFace, interest, nexthops), h.entry.outRecords, now, f)
    ensures Arrive(h, cfg, inFace, interest, nexthops, now)
            == History(Send(Decide(cfg, h.entry, now).1, interest, f, now), h.sent + [Tx(f, now)])
  {
  }

  /** A later arrival is suppressed, or goes to the hop whose turn it is. */
  lemma LaterArrival(cfg: Config, inFace: Face, interest: Interest, nexthops: seq<Face>, h: History, now: nat)
    requires var hops := Eligibles(inFace, interest, nexthops);
             hops != [] && DistinctFaces(hops) && OrderInv(hops, h) && Unexpired(h.entry, now) && h.sent != []
    ensures var hops := Eligibles(inFace, interest, nexthops);
            Arrive(h, cfg, inFace, interest, nexthops, now) == Apply(hops, h, interest, now, EffectOf(cfg, h, now))
  {
    var hops := Eligibles(inFace, interest, nexthops);
    PendingDecision(cfg, hops, h, now);
    NextFound(hops, h, now);
    if now - h.sent[|h.sent| - 1].time < CurrentInterval(cfg, h.entry) {
      ArriveSuppressed(cfg, inFace, interest, nexthops, h, now);
    } else {
      ArriveForwarded(cfg, inFace, interest, nexthops, h, now, Next(hops, h.sent));
    }
  }

  lemma ArrivalEffect(cfg: Config, inFace: Face, interest: Interest, nexthops: seq<Face>, h: History, now: nat)
    requires var hops := Eligibles(inFace, interest, nexthops);
             hops != [] && DistinctFaces(hops) && OrderInv(hops, h) && Unexpired(h.entry, now)
    ensures var hops := Eligibles(inFace, interest, nexthops);
            Arrive(h, cfg, inFace, interest, nexthops, now) == Apply(hops, h, interest, now, EffectOf(cfg, h, now))
  {
    if h.sent == [] {
      assert h.entry.outRecords == map[] by {
        assert forall f :: f in h.entry.outRecords ==> RecentlyUsed(Eligibles(inFace, interest, nexthops), h.sent, f);
      }
      FirstArrival(cfg, inFace, interest, nexthops, h, now);
    } else {
      LaterArrival(cfg, inFace, interest, nexthops, h, now);
    }
  }

  lemma SendOrder(hops: seq<Face>, sent: seq<Tx>, e: Entry, interest: Interest, now: nat)
    requires hops != [] && DistinctFaces(hops) && Order(hops, sent) && RecordsOf(hops, sent, e.outRecords)
    requires Passes(interest, hops) && (sent != [] ==> sent[|sent| - 1].time < now)
    ensures var f := Next(hops, sent); OrderInv(hops, History(Send(e, interest, f, now), sent + [Tx(f, now)]))
  {
    NextDistinct(hops, sent, now);
    assert Next(hops, sent) in hops;
    SendRecords(hops, sent, e, interest, now);
    NextOrder(hops, sent, now);
  }

  lemma TimeMoves(cfg: Config, h: History, now: nat)
    requires CurrentInterval(cfg, h.entry) > 0 && EffectOf(cfg, h, now).Sent? && h.sent != []
    ensures h.sent[|h.sent| - 1].time < now
  {
  }

  lemma ApplyOrder(cfg: Config, hops: seq<Face>, h: History, interest: Interest, now: nat)
    requires hops != [] && DistinctFaces(hops) && OrderInv(hops, h) && Passes(interest, hops)
    requires CurrentInterval(cfg, h.entry) > 0
    ensures OrderInv(hops, Apply(hops, h, interest, now, EffectOf(cfg, h, now)))
  {
    match EffectOf(cfg, h, now)
    case Held(_) =>
    case Sent(interval) =>
      if h.sent != [] { TimeMoves(cfg, h, now); }
      SendOrder(hops, h.sent, h.entry.(suppressionInterval := interval), interest, now);
  }

  lemma ApplyPace(cfg: Config, hops: seq<Face>, h: History, interest: Interest, now: nat)
    requires hops != [] && PaceInv(cfg, h)
    ensures PaceInv(cfg, Apply(hops, h, interest, now, EffectOf(cfg, h, now)))
  {
    match EffectOf(cfg, h, now)
    case Held(_) =>
    case Sent(_) =>
      NextSpaced(cfg, h.sent, Tx(Next(hops, h.sent), now));
  }

  lemma NextSpaced(cfg: Config, sent: seq<Tx>, tx: Tx)
    requires Spaced(cfg, sent) && (sent != [] ==> tx.time - sent[|sent| - 1].time >= Backoff(cfg, |sent| - 1))
    ensures Spaced(cfg, sent + [tx])
  {
  }

  lemma PacePositive(cfg: Config, h: History)
    requires ValidConfig(cfg) && PaceInv(cfg, h)
    ensures CurrentInterval(cfg, h.entry) > 0
  {
    if h.sent != [] { BackoffPositive(cfg, |h.sent| - 1); }
  }

  lemma {:induction false} CyclicIsModular(hops: seq<Face>, sent: seq<Tx>, i: nat)
    requires hops != [] && Cyclic(hops, sent) && i < |sent|
    ensures sent[i].face == hops[i % |hops|]
  {
    if i < |hops| {
      DivUnique(i, |hops|, 0, i);
    } else {
      CyclicIsModular(hops, sent, i - |hops|);
      ShiftMod(i, 1, |hops|);
    }
  }

  lemma {:induction false} EligiblesDistinct(inFace: Face, interest: Interest, nexthops: seq<Face>)
    requires DistinctFaces(nexthops)
    ensures var r := Eligibles(inFace, interest, nexthops);
            DistinctFaces(r) && forall f :: f in r <==> f in nexthops && IsNextHopEligible(inFace, interest, f)
  {
    if nexthops != [] {
      var last := |nexthops| - 1;
      EligiblesDistinct(inFace, interest, nexthops[..last]);
      assert nexthops == nexthops[..last] + [nexthops[last]];
      var r := Eligibles(inFace, interest, nexthops[..last]);
      forall i | 0 <= i < |r| ensures r[i].id != nexthops[last].id {
        assert r[i] in nexthops[..last];
      }
    }
  }

  lemma {:induction false} RunInv(cfg: Config, inFace: Face, interest: Interest, nexthops: seq<Face>, times: seq<nat>)
    requires ValidConfig(cfg) && DistinctFaces(nexthops) && Eligibles(inFace, interest, nexthops) != []
    requires Passes(interest, Eligibles(inFace, interest, nexthops)) && Steady(cfg, inFace, interest, nexthops, times)
    ensures var h := Run(cfg, inFace, interest, nexthops, times);
            OrderInv(Eligibles(inFace, interest, nexthops), h) && PaceInv(cfg, h)
  {
    if times != [] {
      var before, now := times[..|times| - 1], times[|times| - 1];
      RunInv(cfg, inFace, interest, nexthops, before);
      EligiblesDistinct(inFace, interest, nexthops);
      var hops, h := Eligibles(inFace, interest, nexthops), Run(cfg, inFace, interest, nexthops, before);
      ArrivalEffect(cfg, inFace, interest, nexthops, h, now);
      PacePositive(cfg, h);
      ApplyOrder(cfg, hops, h, interest, now);
      ApplyPace(cfg, hops, h, interest, now);
    }
  }

  lemma SpacedAt(cfg: Config, sent: seq<Tx>, i: nat)
    requires ValidConfig(cfg) && Spaced(cfg, sent) && 0 < i < |sent|
    ensures sent[i].time - sent[i - 1].time >= Min(cfg.maxInterval, cfg.initialInterval * Power2(i - 1))
  {
    BackoffClosed(cfg, i - 1);
  }

  /** For one downstream and a fixed FIB entry with n eligible next hops, while no out-record is Nacked or
      expires: the i-th transmission (counting from 0) goes to eligible hop i mod n in FIB order, and unless it
      is the first, comes at least the interval multiplied i-1 times, up to the maximum, after the previous one. */
  lemma Scheduling(cfg: Config, inFace: Face, interest: Interest, nexthops: seq<Face>, times: seq<nat>, i: nat)
    requires ValidConfig(cfg) && DistinctFaces(nexthops) && Eligibles(inFace, interest, nexthops) != []
    requires Passes(interest, Eligibles(inFace, interest, nexthops)) && Steady(cfg, inFace, interest, nexthops, times)
    requires i < |Run(cfg, inFace, interest, nexthops, times).sent|
    ensures var hops, sent := Eligibles(inFace, interest, nexthops), Run(cfg, inFace, interest, nexthops, times).sent;
            && sent[i].face == hops[i % |hops|]
            && (i > 0 ==> sent[i].time - sent[i - 1].time
                          >= Min(cfg.maxInterval, cfg.initialInterval * Power2(i - 1)))
  {
    RunInv(cfg, inFace, interest, nexthops, times);
    CyclicIsModular(Eligibles(inFace, interest, nexthops), Run(cfg, inFace, interest, nexthops, times).sent, i);
    if i > 0 { SpacedAt(cfg, Run(cfg, inFace, interest, nexthops, times).sent, i); }
  }

  // ---------------------------------------------------------------- the program

  lemma EligiblesNext(inFace: Face, interest: Interest, nexthops: seq<Face>, k: nat)
    requires k < |nexthops|
    ensures Eligibles(inFace, interest, nexthops[..k + 1])
            == Eligibles(inFace, interest, nexthops[..k])
               + if IsNextHopEligible(inFace, interest, nexthops[k]) then [nexthops[k]] else []
  {
    assert nexthops[..k + 1][..k] == nexthops[..k];
  }

  lemma FirstFaceAppend(faces: seq<Face>, f: Face, skip: set<nat>)
    ensures FirstFace(faces + [f], skip)
            == if FirstFace(faces, skip).Some? then FirstFace(faces, skip) else if f.id in skip then None else Some(f)
  {
    assert (faces + [f])[..|faces|] == faces;
  }

  lemma {:induction false} FirstFaceStays(inFace: Face, interest: Interest, nexthops: seq<Face>, k: nat, skip: set<nat>)
    requires k <= |nexthops| && FirstFace(Eligibles(inFace, interest, nexthops[..k]), skip).Some?
    ensures FirstFace(Eligibles(inFace, interest, nexthops), skip)
            == FirstFace(Eligibles(inFace, interest, nexthops[..k]), skip)
    decreases |nexthops| - k
  {
    if k < |nexthops| {
      EligiblesNext(inFace, interest, nexthops, k);
      if IsNextHopEligible(inFace, interest, nexthops[k]) {
        FirstFaceAppend(Eligibles(inFace, interest, nexthops[..k]), nexthops[k], skip);
      } else {
        assert Eligibles(inFace, interest, nexthops[..k]) + [] == Eligibles(inFace, interest, nexthops[..k]);
      }
      FirstFaceStays(inFace, interest, nexthops, k + 1, skip);
    } else {
      assert nexthops[..k] == nexthops;
    }
  }

  lemma EarliestAppend(faces: seq<Face>, f: Face, records: OutRecords)
    requires AllRecorded(faces + [f], records)
    ensures AllRecorded(faces, records)
    ensures var r := Earliest(faces, records);
            Earliest(faces + [f], records)
            == if r.None? || records[f.id].lastRenewed < records[r.value.id].lastRenewed then Some(f) else r
  {
    assert (faces + [f])[..|faces|] == faces;
    assert forall g :: g in faces ==> g in faces + [f];
  }

  lemma {:induction false} PrefixRecorded(inFace: Face, interest: Interest, nexthops: seq<Face>, k: nat,
                                          records: OutRecords)
    requires k <= |nexthops| && AllRecorded(Eligibles(inFace, interest, nexthops), records)
    ensures AllRecorded(Eligibles(inFace, interest, nexthops[..k]), records)
    decreases |nexthops| - k
  {
    if k < |nexthops| {
      PrefixRecorded(inFace, interest, nexthops, k + 1, records);
      EligiblesNext(inFace, interest, nexthops, k);
    } else {
      assert nexthops[..k] == nexthops;
    }
  }

  class PitEntry {
    var outRecords: OutRecords
    var suppressionInterval: Option<nat>   // PitInfo, if the entry has one

    function Contents(): Entry
      reads this
    {
      Entry(outRecords, suppressionInterval)
    }

    constructor ()
      ensures Contents() == Start().entry
    {
      outRecords, suppressionInterval := map[], None;
    }

    /** getLastOutgoing() */
    method GetLastOutgoing() returns (t: nat)
      requires outRecords != map[]
      ensures t == LastOutgoing(outRecords)
    {
      var f :| f in outRecords;
      t := outRecords[f].lastRenewed;
      var todo := outRecords.Keys - {f};
      while todo != {}
        invariant todo <= outRecords.Keys
        invariant exists g :: g in outRecords && outRecords[g].lastRenewed == t
        invariant forall g :: g in outRecords && g !in todo ==> outRecords[g].lastRenewed <= t
        decreases |todo|
      {
        var g :| g in todo;
        if t < outRecords[g].lastRenewed {
          t := outRecords[g].lastRenewed;
        }
        todo := todo - {g};
      }
      LastOutgoingUnique(outRecords, t);
    }

    /** RetxSuppressionExponential::decidePerPitEntry() */
    method DecidePerPitEntry(cfg: Config, now: nat) returns (d: Decision)
      modifies this`suppressionInterval
      ensures (d, Contents()) == Decide(cfg, old(Contents()), now)
    {
      if !HasPendingOutRecords(outRecords, now) {
        return New;
      }
      var lastOutgoing := GetLastOutgoing();
      var sinceLastOutgoing := now - lastOutgoing;
      if suppressionInterval.None? { // insertStrategyInfo
        suppressionInterval := Some(cfg.initialInterval);
      }
      if sinceLastOutgoing < suppressionInterval.value {
        return Suppress;
      }
      suppressionInterval := Some(Min(cfg.maxInterval, suppressionInterval.value * 2));
      return Forward;
    }

    /** std::find_if() over the next hops with isNextHopEligible(). */
    method FindNextHop(inFace: Face, interest: Interest, nexthops: seq<Face>, wantUnused: bool, now: nat)
      returns (found: Option<Face>)
      ensures var skip := if wantUnused then Used(outRecords, now) else {};
              found == FirstFace(Eligibles(inFace, interest, nexthops), skip)
    {
      ghost var skip := if wantUnused then Used(outRecords, now) else {};
      for k := 0 to |nexthops|
        invariant FirstFace(Eligibles(inFace, interest, nexthops[..k]), skip).None?
      {
        EligiblesNext(inFace, interest, nexthops, k);
        var outFace := nexthops[k];
        if IsNextHopEligible(inFace, interest, outFace) {
          FirstFaceAppend(Eligibles(inFace, interest, nexthops[..k]), outFace, skip);
          if !(wantUnused && outFace.id in outRecords && outRecords[outFace.id].expiry > now) {
            FirstFaceStays(inFace, interest, nexthops, k + 1, skip);
            return Some(outFace);
          }
        } else {
          assert Eligibles(inFace, interest, nexthops[..k]) + [] == Eligibles(inFace, interest, nexthops[..k]);
        }
      }
      assert nexthops[..|nexthops|] == nexthops;
      return None;
    }

    /** findEligibleNextHopWithEarliestOutRecord() */
    method FindEarliest(inFace: Face, interest: Interest, nexthops: seq<Face>) returns (found: Option<Face>)
      requires AllRecorded(Eligibles(inFace, interest, nexthops), outRecords)
      ensures found == Earliest(Eligibles(inFace, interest, nexthops), outRecords)
    {
      found := None;
      var earliestRenewed := 0;
      for k := 0 to |nexthops|
        invariant AllRecorded(Eligibles(inFace, interest, nexthops[..k]), outRecords)
        invariant found == Earliest(Eligibles(inFace, interest, nexthops[..k]), outRecords)
        invariant found.Some? ==> earliestRenewed == outRecords[found.value.id].lastRenewed
      {
        EligiblesNext(inFace, interest, nexthops, k);
        PrefixRecorded(inFace, interest, nexthops, k + 1, outRecords);
        if !IsNextHopEligible(inFace, interest, nexthops[k]) {
          assert Eligibles(inFace, interest, nexthops[..k]) + [] == Eligibles(inFace, interest, nexthops[..k]);
          continue;
        }
        EarliestAppend(Eligibles(inFace, interest, nexthops[..k]), nexthops[k], outRecords);
        assert nexthops[k] in Eligibles(inFace, interest, nexthops[..k + 1]);
        var outRecord := outRecords[nexthops[k].id];
        if found.None? || outRecord.lastRenewed < earliestRenewed {
          found := Some(nexthops[k]);
          earliestRenewed := outRecord.lastRenewed;
        }
      }
      assert nexthops[..|nexthops|] == nexthops;
    }

    /** Strategy::sendInterest() and Forwarder::onOutgoingInterest() */
    method SendInterest(interest: Interest, egress: Face, now: nat)
      modifies this`outRecords
      ensures Contents() == Send(old(Contents()), interest, egress, now)
    {
      if interest.hopLimitIsZero && !egress.isLocal {
        return;
      }
      var isNacked := egress.id in outRecords && outRecords[egress.id].isNacked;
      outRecords := outRecords[egress.id := OutRecord(now, now + interest.lifetime, isNacked)];
    }

    /** BestRouteStrategy::afterReceiveInterest() */
    method AfterReceive(cfg: Config, inFace: Face, interest: Interest, nexthops: seq<Face>, now: nat)
      returns (a: Action)
      modifies this
      ensures (a, Contents()) == AfterReceiveInterest(cfg, old(Contents()), inFace, interest, nexthops, now)
    {
      var suppression := DecidePerPitEntry(cfg, now);
      if suppression == Suppress {
        return Suppressed;
      }
      var it: Option<Face>;
      if suppression == New {
        it := FindNextHop(inFace, interest, nexthops, false, now);
        if it.None? {
          return NackNoRoute;
        }
        SendInterest(interest, it.value, now);
        return SentTo(it.value);
      }
      it := FindNextHop(inFace, interest, nexthops, true, now);
      if it.Some? {
        SendInterest(interest, it.value, now);
        return SentTo(it.value);
      }
      NoneUnused(Eligibles(inFace, interest, nexthops), outRecords, now);
      it := FindEarliest(inFace, interest, nexthops);
      if it.None? {
        return NoNextHop;
      }
      SendInterest(interest, it.value, now);
      return SentTo(it.value);
    }
  }
}
