/** Fragmentation, Sequence numbers, a network and reassembly together: what was sent is what is delivered. */
module RoundTrip {
  import opened Packets
  import opened Reassembler
  import opened Arithmetic
  import Fragmenter

  /** assignSequences(): consecutive Sequences after `last`, on wrapping integers. */
  function WithSequences(frags: seq<Packet>, last: nat, modulus: nat): (r: seq<Packet>)
    requires modulus > 0
    ensures |r| == |frags|
  {
    seq(|frags|, i requires 0 <= i < |frags| => frags[i].(sequence := Some((last + 1 + i) % modulus)))
  }

  predicate FragmentAt(cfg: Config, id: nat, f: Packet, i: nat, fragCount: nat)
    requires cfg.modulus > 0
  {
    && f.fragment.Some? && f.fragIndex == Some(i) && f.fragCount == Some(fragCount)
    && f.sequence.Some? && (f.sequence.value - i) % cfg.modulus == id
  }

  /** `frags` are all fragments of the packet with this key. */
  predicate FragmentsOf(cfg: Config, key: Key, frags: seq<Packet>)
    requires cfg.modulus > 0
  {
    && 2 <= |frags| <= cfg.nMaxFragments
    && forall i :: 0 <= i < |frags| ==> FragmentAt(cfg, key.id, frags[i], i, |frags|)
  }

  /** The event is about the partial packet with this key. */
  predicate Touches(cfg: Config, key: Key, e: Event)
    requires cfg.modulus > 0
  {
    match e
    case Arrival(endpoint, p, _) => FragCountOf(p) != 1 && p.sequence.Some? && KeyOf(cfg, endpoint, p) == key
    case Timeout(k) => k == key
  }

  /** A copy of fragment `i` arrives. */
  predicate CopyArrives(key: Key, frags: seq<Packet>, e: Event, i: nat)
  {
    i < |frags| && e.Arrival? && e.endpoint == key.endpoint && CopyOf(frags[i], e.packet)
  }

  /** The network does not forge, and the drop timer does not fire: every event about this key is the arrival
      of a copy of one of the fragments. */
  ghost predicate OnlyCopies(cfg: Config, key: Key, frags: seq<Packet>, events: seq<Event>)
    requires cfg.modulus > 0
  {
    forall e :: e in events && Touches(cfg, key, e) ==> exists i :: CopyArrives(key, frags, e, i)
  }

  function Upto(n: nat): (s: set<nat>)
    ensures forall i: nat :: i in s <==> i < n
  {
    if n == 0 then {} else Upto(n - 1) + {n - 1}
  }

  /** A copy of fragment `i` has arrived. */
  ghost predicate Copied(key: Key, frags: seq<Packet>, events: seq<Event>, i: nat)
  {
    exists e :: e in events && CopyArrives(key, frags, e, i)
  }

  /** Indices of the fragments that have arrived. */
  ghost function Arrived(key: Key, frags: seq<Packet>, events: seq<Event>): set<nat>
  {
    set i | i in Upto(|frags|) && Copied(key, frags, events, i)
  }

  lemma {:induction false} UptoSize(n: nat)
    ensures |Upto(n)| == n
  {
    if n > 0 {
      UptoSize(n - 1);
    }
  }

  lemma FullSet(s: set<nat>, n: nat)
    requires s <= Upto(n)
    ensures |s| <= n && (|s| == n <==> s == Upto(n))
  {
    UptoSize(n);
    assert Upto(n) == s + (Upto(n) - s);
  }

  // ---------------------------------------------------------------- collecting

  /** Slot `i` holds a copy of fragment `i` exactly when `i` is in `got`. */
  predicate SlotsHold(slots: seq<Packet>, frags: seq<Packet>, got: set<nat>)
  {
    && |slots| == |frags|
    && forall i :: 0 <= i < |frags| ==> if i in got then CopyOf(frags[i], slots[i]) else !Filled(slots[i])
  }

  predicate Holds(t: Table, key: Key, frags: seq<Packet>, got: set<nat>)
  {
    if got == {} then key !in t
    else && key in t && t[key].fragCount == |frags| && t[key].nReceivedFragments == |got|
         && SlotsHold(t[key].fragments, frags, got)
  }

  lemma OtherKeys(cfg: Config, t: Table, key: Key, e: Event)
    requires cfg.modulus > 0 && WellShaped(t) && !Touches(cfg, key, e)
    ensures var t' := Step(t, cfg, e).0; (key in t' <==> key in t) && (key in t ==> t'[key] == t[key])
  {
  }

  lemma {:induction false} ConcatCopies(frags: seq<Packet>, slots: seq<Packet>)
    requires |slots| == |frags| && forall i :: 0 <= i < |frags| ==> CopyOf(frags[i], slots[i])
    ensures Concat(slots) == Concat(frags)
  {
    if frags != [] {
      ConcatCopies(frags[..|frags| - 1], slots[..|slots| - 1]);
    }
  }

  lemma FindHolds(t: Table, key: Key, frags: seq<Packet>, got: set<nat>)
    requires WellShaped(t) && Holds(t, key, frags, got)
    ensures var pp := Find(t, key, |frags|);
            pp.fragCount == |frags| && pp.nReceivedFragments == |got| && SlotsHold(pp.fragments, frags, got)
  {
  }

  /** A copy finds its way to the partial packet of its key. */
  lemma CopyIsAccepted(cfg: Config, t: Table, key: Key, frags: seq<Packet>, i: nat, p: Packet, deadline: nat)
    requires cfg.modulus > 0 && WellShaped(t) && FragmentsOf(cfg, key, frags) && i < |frags| && CopyOf(frags[i], p)
    ensures Filled(p) && Receive(t, cfg, key.endpoint, p, deadline) == Accept(t, key, i, |frags|, p, deadline)
  {
  }

  lemma PutCopy(slots: seq<Packet>, frags: seq<Packet>, got: set<nat>, i: nat, p: Packet)
    requires SlotsHold(slots, frags, got) && i < |frags| && CopyOf(frags[i], p)
    ensures SlotsHold(slots[i := p], frags, got + {i})
  {
  }

  lemma AcceptRepeat(t: Table, key: Key, frags: seq<Packet>, got: set<nat>, i: nat, p: Packet, deadline: nat)
    requires WellShaped(t) && Holds(t, key, frags, got) && i < |frags| && i in got && Filled(frags[i])
    ensures Accept(t, key, i, |frags|, p, deadline) == (t, Dropped)
  {
    FindHolds(t, key, frags, got);
  }

  lemma AcceptMore(t: Table, key: Key, frags: seq<Packet>, got: set<nat>, i: nat, p: Packet, deadline: nat)
    requires WellShaped(t) && Holds(t, key, frags, got) && i < |frags| && i !in got && CopyOf(frags[i], p)
    requires |got| + 1 < |frags|
    ensures var r := Accept(t, key, i, |frags|, p, deadline); r.1 == Dropped && Holds(r.0, key, frags, got + {i})
  {
    FindHolds(t, key, frags, got);
    PutCopy(Find(t, key, |frags|).fragments, frags, got, i, p);
  }

  lemma AcceptLast(t: Table, key: Key, frags: seq<Packet>, got: set<nat>, i: nat, p: Packet, deadline: nat)
    requires WellShaped(t) && Holds(t, key, frags, got) && i < |frags| && i !in got && CopyOf(frags[i], p)
    requires |got| + 1 == |frags| && got + {i} == Upto(|frags|)
    ensures var r := Accept(t, key, i, |frags|, p, deadline);
            if Parses(Concat(frags)) then
              key !in r.0 && r.1.Delivered? && r.1.netPkt == Concat(frags) && CopyOf(frags[0], r.1.firstFrag)
            else r.1 == Malformed
  {
    FindHolds(t, key, frags, got);
    var slots := Find(t, key, |frags|).fragments;
    PutCopy(slots, frags, got, i, p);
    ConcatCopies(frags, slots[i := p]);
  }

  /** What a copy of fragment `i` does. */
  lemma CopyStep(cfg: Config, t: Table, key: Key, frags: seq<Packet>, got: set<nat>, i: nat, p: Packet, deadline: nat)
    requires cfg.modulus > 0 && WellShaped(t) && FragmentsOf(cfg, key, frags) && Holds(t, key, frags, got)
    requires got <= Upto(|frags|) && got != Upto(|frags|) && i < |frags| && CopyOf(frags[i], p)
    ensures var r := Receive(t, cfg, key.endpoint, p, deadline);
            if got + {i} != Upto(|frags|) then r.1 == Dropped && Holds(r.0, key, frags, got + {i})
            else if Parses(Concat(frags)) then
              key !in r.0 && r.1.Delivered? && r.1.netPkt == Concat(frags) && CopyOf(frags[0], r.1.firstFrag)
            else r.1 == Malformed
  {
    FullSet(got, |frags|);
    FullSet(got + {i}, |frags|);
    CopyIsAccepted(cfg, t, key, frags, i, p, deadline);
    if i in got {
      assert got + {i} == got;
      AcceptRepeat(t, key, frags, got, i, p, deadline);
    } else if |got| + 1 < |frags| {
      AcceptMore(t, key, frags, got, i, p, deadline);
    } else {
      AcceptLast(t, key, frags, got, i, p, deadline);
    }
  }

  lemma ArrivedMore(cfg: Config, key: Key, frags: seq<Packet>, events: seq<Event>, e: Event, i: nat)
    requires cfg.modulus > 0 && FragmentsOf(cfg, key, frags) && CopyArrives(key, frags, e, i)
    ensures Arrived(key, frags, events + [e]) == Arrived(key, frags, events) + {i}
  {
    forall j | j in Upto(|frags|) ensures Copied(key, frags, events + [e], j)
      <==> Copied(key, frags, events, j) || j == i {
      assert e in events + [e];
      if Copied(key, frags, events, j) {
        var a :| a in events && CopyArrives(key, frags, a, j);
        assert a in events + [e];
      }
      if CopyArrives(key, frags, e, j) { assert FragIndexOf(e.packet) == i == j; }
    }
  }

  lemma ArrivedSame(cfg: Config, key: Key, frags: seq<Packet>, events: seq<Event>, e: Event)
    requires cfg.modulus > 0 && FragmentsOf(cfg, key, frags) && !Touches(cfg, key, e)
    ensures Arrived(key, frags, events + [e]) == Arrived(key, frags, events)
  {
    forall j | j in Upto(|frags|) ensures Copied(key, frags, events + [e], j) <==> Copied(key, frags, events, j) {
      if CopyArrives(key, frags, e, j) { CopyTouches(cfg, key, frags, e, j); }
      if Copied(key, frags, events, j) {
        var a :| a in events && CopyArrives(key, frags, a, j);
        assert a in events + [e];
      }
    }
  }

  /** A copy touches the key of its packet. */
  lemma CopyTouches(cfg: Config, key: Key, frags: seq<Packet>, e: Event, i: nat)
    requires cfg.modulus > 0 && FragmentsOf(cfg, key, frags) && CopyArrives(key, frags, e, i)
    ensures Touches(cfg, key, e)
  {
  }

  lemma RunOneMore(cfg: Config, events: seq<Event>, e: Event)
    requires cfg.modulus > 0
    ensures Run(cfg, events + [e]) == Step(Run(cfg, events), cfg, e).0
    ensures OutcomeOf(cfg, events + [e], |events|) == Step(Run(cfg, events), cfg, e).1
  {
    assert (events + [e])[..|events|] == events;
  }

  lemma OutcomePrefix(cfg: Config, events: seq<Event>, more: seq<Event>, k: nat)
    requires cfg.modulus > 0 && k < |events|
    ensures OutcomeOf(cfg, events + more, k) == OutcomeOf(cfg, events, k)
  {
    assert (events + more)[..k] == events[..k];
  }

  lemma CollectStep(cfg: Config, t: Table, key: Key, frags: seq<Packet>, events: seq<Event>, e: Event)
    requires cfg.modulus > 0 && WellShaped(t) && FragmentsOf(cfg, key, frags)
    requires Holds(t, key, frags, Arrived(key, frags, events)) && Arrived(key, frags, events) != Upto(|frags|)
    requires OnlyCopies(cfg, key, frags, events + [e])
    ensures var r := Step(t, cfg, e);
            if Arrived(key, frags, events + [e]) != Upto(|frags|) then
              Holds(r.0, key, frags, Arrived(key, frags, events + [e])) && (Touches(cfg, key, e) ==> r.1 == Dropped)
            else if Parses(Concat(frags)) then
              key !in r.0 && r.1.Delivered? && r.1.netPkt == Concat(frags) && CopyOf(frags[0], r.1.firstFrag)
            else r.1 == Malformed
  {
    if Touches(cfg, key, e) {
      assert e in events + [e];
      var i :| CopyArrives(key, frags, e, i);
      ArrivedMore(cfg, key, frags, events, e, i);
      CopyStep(cfg, t, key, frags, Arrived(key, frags, events), i, e.packet, e.deadline);
    } else {
      ArrivedSame(cfg, key, frags, events, e);
      OtherKeys(cfg, t, key, e);
    }
  }

  /** Every event of the run so far about this key was dropped. */
  ghost predicate NothingYet(cfg: Config, key: Key, earlier: seq<Event>, events: seq<Event>)
    requires cfg.modulus > 0
  {
    forall k :: |earlier| <= k < |earlier + events| && Touches(cfg, key, (earlier + events)[k]) ==>
      OutcomeOf(cfg, earlier + events, k) == Dropped
  }

  lemma NothingMore(cfg: Config, key: Key, earlier: seq<Event>, events: seq<Event>, e: Event)
    requires cfg.modulus > 0 && NothingYet(cfg, key, earlier, events)
    requires Touches(cfg, key, e) ==> Step(Run(cfg, earlier + events), cfg, e).1 == Dropped
    ensures NothingYet(cfg, key, earlier, events + [e])
  {
    var all, all' := earlier + events, earlier + (events + [e]);
    assert all' == all + [e];
    forall k | |earlier| <= k < |all'| && Touches(cfg, key, all'[k]) ensures OutcomeOf(cfg, all', k) == Dropped {
      if k < |all| {
        assert all[k] == all'[k];
        OutcomePrefix(cfg, all, [e], k);
      } else {
        RunOneMore(cfg, all, e);
      }
    }
  }

  /** Until the last fragment arrives, the partial packet holds what has arrived, and nothing is delivered
      under this key: in any order, with any repeats, and with any other traffic in between. */
  lemma {:induction false} Collecting(cfg: Config, earlier: seq<Event>, key: Key, frags: seq<Packet>,
                                      events: seq<Event>)
    requires cfg.modulus > 0 && FragmentsOf(cfg, key, frags) && key !in Run(cfg, earlier)
    requires OnlyCopies(cfg, key, frags, events) && Arrived(key, frags, events) != Upto(|frags|)
    ensures Holds(Run(cfg, earlier + events), key, frags, Arrived(key, frags, events))
    ensures NothingYet(cfg, key, earlier, events)
    decreases |events|
  {
    if events == [] {
      assert earlier + events == earlier;
      assert Arrived(key, frags, events) == {};
    } else {
      var before, e := events[..|events| - 1], events[|events| - 1];
      assert events == before + [e] && earlier + events == earlier + before + [e];
      ArrivedGrows(key, frags, before, e);
      Collecting(cfg, earlier, key, frags, before);
      RunOneMore(cfg, earlier + before, e);
      CollectStep(cfg, Run(cfg, earlier + before), key, frags, before, e);
      NothingMore(cfg, key, earlier, before, e);
    }
  }

  lemma ArrivedGrows(key: Key, frags: seq<Packet>, events: seq<Event>, e: Event)
    ensures Arrived(key, frags, events) <= Arrived(key, frags, events + [e])
    ensures Arrived(key, frags, events) == Upto(|frags|) ==> Arrived(key, frags, events + [e]) == Upto(|frags|)
  {
    forall j | j in Arrived(key, frags, events) ensures Copied(key, frags, events + [e], j) {
      var a :| a in events && CopyArrives(key, frags, a, j);
      assert a in events + [e];
    }
  }

  /** The arrival that completes the packet delivers it, with the first fragment's headers, and ends the
      partial packet. */
  lemma Completing(cfg: Config, earlier: seq<Event>, key: Key, frags: seq<Packet>, events: seq<Event>, e: Event)
    requires cfg.modulus > 0 && FragmentsOf(cfg, key, frags) && key !in Run(cfg, earlier)
    requires OnlyCopies(cfg, key, frags, events + [e])
    requires Arrived(key, frags, events) != Upto(|frags|) && Arrived(key, frags, events + [e]) == Upto(|frags|)
    ensures NothingYet(cfg, key, earlier, events)
    ensures var o := OutcomeOf(cfg, earlier + events + [e], |earlier + events|);
            if Parses(Concat(frags)) then
              && o.Delivered? && o.netPkt == Concat(frags) && CopyOf(frags[0], o.firstFrag)
              && key !in Run(cfg, earlier + events + [e])
            else o == Malformed
  {
    assert forall a :: a in events ==> a in events + [e];
    Collecting(cfg, earlier, key, frags, events);
    RunOneMore(cfg, earlier + events, e);
    CollectStep(cfg, Run(cfg, earlier + events), key, frags, events, e);
  }

  // ---------------------------------------------------------------- from fragmenter to reassembler

  lemma {:induction false} ConcatIsJoin(frags: seq<Packet>, slices: seq<seq<Byte>>)
    requires |frags| == |slices| && forall i :: 0 <= i < |frags| ==> frags[i].fragment == Some(slices[i])
    ensures Concat(frags) == Join(slices)
  {
    if frags != [] {
      var n := |frags| - 1;
      ConcatIsJoin(frags[..n], slices[..n]);
      JoinLast(slices);
    }
  }

  lemma {:induction false} JoinLast(slices: seq<seq<Byte>>)
    requires slices != []
    ensures Join(slices) == Join(slices[..|slices| - 1]) + slices[|slices| - 1]
  {
    if |slices| > 1 {
      JoinLast(slices[1..]);
      assert slices[1..][..|slices| - 2] == slices[..|slices| - 1][1..];
    } else {
      assert slices == [slices[0]] && slices[..0] == [];
    }
  }

  /** Consecutive Sequences give every fragment the same message identifier. */
  lemma SequencedFragments(cfg: Config, endpoint: nat, plain: seq<Packet>, last: nat)
    requires cfg.modulus > 0 && 2 <= |plain| <= cfg.nMaxFragments
    requires forall i :: 0 <= i < |plain| ==>
               plain[i].fragment.Some? && plain[i].fragIndex == Some(i) && plain[i].fragCount == Some(|plain|)
    ensures FragmentsOf(cfg, Key(endpoint, (last + 1) % cfg.modulus), WithSequences(plain, last, cfg.modulus))
  {
    var frags, id := WithSequences(plain, last, cfg.modulus), (last + 1) % cfg.modulus;
    forall i | 0 <= i < |frags| ensures FragmentAt(cfg, id, frags[i], i, |frags|) {
      SequencedFragment(cfg, frags[i], last, i, |frags|);
    }
  }

  lemma SequencedFragment(cfg: Config, f: Packet, last: nat, i: nat, fragCount: nat)
    requires cfg.modulus > 0 && f.fragment.Some? && f.fragIndex == Some(i) && f.fragCount == Some(fragCount)
    requires f.sequence == Some((last + 1 + i) % cfg.modulus)
    ensures FragmentAt(cfg, (last + 1) % cfg.modulus, f, i, fragCount)
  {
    UpAndDown(last + 1, i, cfg.modulus);
  }

  /** The fragments that fragmentPacket() and assignSequences() make of a packet. */
  function Sent(p: Packet, mtu: nat, nMaxFragments: nat, last: nat, modulus: nat): seq<Packet>
    requires modulus > 0 && Fragmenter.Unfragmented(p) && Fragmenter.FragmentPacket(p, mtu, nMaxFragments).Some?
  {
    WithSequences(Fragmenter.FragmentPacket(p, mtu, nMaxFragments).value, last, modulus)
  }

  lemma SentFragments(p: Packet, mtu: nat, nMaxFragments: nat, last: nat, cfg: Config, endpoint: nat)
    requires Fragmenter.Unfragmented(p) && cfg.modulus > 0 && !Fragmenter.FastPath(p, mtu)
    requires Fragmenter.FragmentPacket(p, mtu, nMaxFragments).Some?
    requires |Sent(p, mtu, nMaxFragments, last, cfg.modulus)| <= cfg.nMaxFragments
    ensures var frags := Sent(p, mtu, nMaxFragments, last, cfg.modulus);
            && FragmentsOf(cfg, Key(endpoint, (last + 1) % cfg.modulus), frags)
            && Concat(frags) == p.fragment.value
            && frags[0].headers == p.headers && frags[0].congestionMark == p.congestionMark
  {
    Fragmenter.FragmentsJoin(p, mtu, nMaxFragments);
    var plain := Fragmenter.FragmentPacket(p, mtu, nMaxFragments).value;
    SequencedFragments(cfg, endpoint, plain, last);
    SentPayload(plain, last, cfg.modulus);
  }

  lemma SentPayload(plain: seq<Packet>, last: nat, modulus: nat)
    requires modulus > 0 && forall i :: 0 <= i < |plain| ==> plain[i].fragment.Some?
    ensures Concat(WithSequences(plain, last, modulus)) == Join(Fragmenter.Payloads(plain))
  {
    ConcatIsJoin(WithSequences(plain, last, modulus), Fragmenter.Payloads(plain));
  }

  /** Round trip: a packet that was cut into fragments with consecutive Sequences from any starting point is
      delivered exactly once, when the last missing fragment arrives, octet for octet and with its own
      headers on the first fragment: for every order, any repeats before completion, any mix of first
      transmissions and retransmissions, and any other traffic in between. */
  lemma FragmentationRoundTrip(p: Packet, mtu: nat, nMaxFragments: nat, last: nat, cfg: Config, endpoint: nat,
                               earlier: seq<Event>, events: seq<Event>, e: Event)
    requires Fragmenter.Unfragmented(p) && Parses(p.fragment.value) && cfg.modulus > 0 && !Fragmenter.FastPath(p, mtu)
    requires Fragmenter.FragmentPacket(p, mtu, nMaxFragments).Some?
    requires |Sent(p, mtu, nMaxFragments, last, cfg.modulus)| <= cfg.nMaxFragments
    requires var key, frags := Key(endpoint, (last + 1) % cfg.modulus), Sent(p, mtu, nMaxFragments, last, cfg.modulus);
             && key !in Run(cfg, earlier) && OnlyCopies(cfg, key, frags, events + [e])
             && Arrived(key, frags, events) != Upto(|frags|) && Arrived(key, frags, events + [e]) == Upto(|frags|)
    ensures var key := Key(endpoint, (last + 1) % cfg.modulus);
            var o := OutcomeOf(cfg, earlier + events + [e], |earlier + events|);
            && o.Delivered? && o.netPkt == p.fragment.value && o.firstFrag.headers == p.headers
            && (o.firstFrag.congestionMark == p.congestionMark || o.firstFrag.congestionMark == Some(1))
            && key !in Run(cfg, earlier + events + [e])
            && NothingYet(cfg, key, earlier, events)
  {
    SentFragments(p, mtu, nMaxFragments, last, cfg, endpoint);
    Completing(cfg, earlier, Key(endpoint, (last + 1) % cfg.modulus), Sent(p, mtu, nMaxFragments, last, cfg.modulus),
          events, e);
  }
}
