/** How often a packet is delivered: the fragments that reach the reassembler under its key are gathered until
    they are complete, and then from the start again. */
module Deliveries {
  import opened Packets
  import opened Reassembler
  import opened RoundTrip

  /** The event is the arrival of a copy of one of the fragments. */
  ghost predicate IsCopy(key: Key, frags: seq<Packet>, e: Event)
  {
    exists i :: CopyArrives(key, frags, e, i)
  }

  /** The fragment that the event brings, if any. */
  ghost function Brought(key: Key, frags: seq<Packet>, e: Event): set<nat>
  {
    set i | i in Upto(|frags|) && CopyArrives(key, frags, e, i)
  }

  /** What is gathered after the event; the drop timer starts over. */
  ghost function Gather(key: Key, frags: seq<Packet>, got: set<nat>, e: Event): set<nat>
  {
    if e == Timeout(key) then {} else got + Brought(key, frags, e)
  }

  /** The fragments gathered since the last complete set or timeout. */
  ghost function Gathered(key: Key, frags: seq<Packet>, events: seq<Event>): set<nat>
  {
    if events == [] then {}
    else
      var got := Gather(key, frags, Gathered(key, frags, events[..|events| - 1]), events[|events| - 1]);
      if got == Upto(|frags|) then {} else got
  }

  /** How many times the set was complete. */
  ghost function Rounds(key: Key, frags: seq<Packet>, events: seq<Event>): nat
  {
    if events == [] then 0
    else
      var before, e := events[..|events| - 1], events[|events| - 1];
      Rounds(key, frags, before) +
      if Gather(key, frags, Gathered(key, frags, before), e) == Upto(|frags|) then 1 else 0
  }

  /** How many of the events are copies of one of the fragments and make the reassembler deliver a packet. */
  ghost function Deliveries(cfg: Config, key: Key, frags: seq<Packet>, events: seq<Event>): nat
    requires cfg.modulus > 0
  {
    if events == [] then 0
    else
      var before, e := events[..|events| - 1], events[|events| - 1];
      Deliveries(cfg, key, frags, before) +
      if IsCopy(key, frags, e) && Step(Run(cfg, before), cfg, e).1.Delivered? then 1 else 0
  }

  /** What is delivered is the whole packet, with the fields of its first fragment. */
  predicate IsWhole(frags: seq<Packet>, o: Outcome)
    requires frags != []
  {
    o.Delivered? ==> o.netPkt == Concat(frags) && CopyOf(frags[0], o.firstFrag)
  }

  /** The only fragment of a packet that was not cut. */
  predicate Uncut(cfg: Config, frags: seq<Packet>)
  {
    && |frags| == 1 <= cfg.nMaxFragments && frags[0].fragment.Some?
    && frags[0].fragIndex.None? && frags[0].fragCount.None?
  }

  /** `frags` are what sendNetPacket() makes of a packet whose payload can be parsed. */
  predicate Sendable(cfg: Config, key: Key, frags: seq<Packet>)
    requires cfg.modulus > 0
  {
    (Uncut(cfg, frags) || FragmentsOf(cfg, key, frags)) && Parses(Concat(frags))
  }

  /** The network does not forge: what arrives under this key is a copy of one of the fragments. */
  ghost predicate NoForgery(cfg: Config, key: Key, frags: seq<Packet>, e: Event)
    requires cfg.modulus > 0
  {
    e.Arrival? && Touches(cfg, key, e) ==> IsCopy(key, frags, e)
  }

  // ---------------------------------------------------------------- deliveries are rounds

  lemma BroughtOne(cfg: Config, key: Key, frags: seq<Packet>, e: Event, i: nat)
    requires cfg.modulus > 0 && FragmentsOf(cfg, key, frags) && CopyArrives(key, frags, e, i)
    ensures Brought(key, frags, e) == {i}
  {
    forall j | j in Brought(key, frags, e) ensures j == i {
      assert FragmentAt(cfg, key.id, frags[j], j, |frags|) && FragmentAt(cfg, key.id, frags[i], i, |frags|);
    }
  }

  lemma BroughtNone(key: Key, frags: seq<Packet>, e: Event)
    requires !IsCopy(key, frags, e)
    ensures Brought(key, frags, e) == {}
  {
  }

  /** The partial packet holds what is gathered, and the event that completes it, and no other, delivers. */
  lemma CutStep(cfg: Config, t: Table, key: Key, frags: seq<Packet>, got: set<nat>, e: Event)
    requires cfg.modulus > 0 && WellShaped(t) && FragmentsOf(cfg, key, frags) && Parses(Concat(frags))
    requires Holds(t, key, frags, got) && got <= Upto(|frags|) && got != Upto(|frags|)
    requires NoForgery(cfg, key, frags, e)
    ensures var all, r := Gather(key, frags, got, e), Step(t, cfg, e);
            && all <= Upto(|frags|)
            && Holds(r.0, key, frags, if all == Upto(|frags|) then {} else all)
            && (all == Upto(|frags|) <==> IsCopy(key, frags, e) && r.1.Delivered?)
            && (IsCopy(key, frags, e) ==> IsWhole(frags, r.1))
  {
    if IsCopy(key, frags, e) {
      CutCopy(cfg, t, key, frags, got, e);
    } else {
      BroughtNone(key, frags, e);
      if e == Timeout(key) {
        assert 0 in Upto(|frags|);
      } else {
        OtherKeys(cfg, t, key, e);
      }
    }
  }

  lemma CutCopy(cfg: Config, t: Table, key: Key, frags: seq<Packet>, got: set<nat>, e: Event)
    requires cfg.modulus > 0 && WellShaped(t) && FragmentsOf(cfg, key, frags) && Parses(Concat(frags))
    requires Holds(t, key, frags, got) && got <= Upto(|frags|) && got != Upto(|frags|) && IsCopy(key, frags, e)
    ensures var all, r := Gather(key, frags, got, e), Step(t, cfg, e);
            && all <= Upto(|frags|)
            && Holds(r.0, key, frags, if all == Upto(|frags|) then {} else all)
            && (all == Upto(|frags|) <==> r.1.Delivered?)
            && IsWhole(frags, r.1)
  {
    var i :| CopyArrives(key, frags, e, i);
    BroughtOne(cfg, key, frags, e, i);
    CopyStep(cfg, t, key, frags, got, i, e.packet, e.deadline);
  }

  lemma UncutBytes(cfg: Config, frags: seq<Packet>)
    requires Uncut(cfg, frags)
    ensures Concat(frags) == Bytes(frags[0])
  {
    assert frags[..0] == [] && Concat(frags) == Concat(frags[..0]) + Bytes(frags[0]);
  }

  lemma UncutCopy(cfg: Config, t: Table, key: Key, frags: seq<Packet>, e: Event)
    requires cfg.modulus > 0 && WellShaped(t) && Uncut(cfg, frags) && Parses(Concat(frags)) && IsCopy(key, frags, e)
    ensures Step(t, cfg, e).1 == Delivered(Concat(frags), e.packet) && CopyOf(frags[0], e.packet)
    ensures Brought(key, frags, e) == Upto(1)
  {
    assert CopyArrives(key, frags, e, 0);
    UncutBytes(cfg, frags);
    UncutBrought(key, frags, e);
    SingleDelivers(cfg, t, frags[0], e);
  }

  lemma UncutBrought(key: Key, frags: seq<Packet>, e: Event)
    requires |frags| == 1 && CopyArrives(key, frags, e, 0)
    ensures Brought(key, frags, e) == Upto(1)
  {
    assert 0 in Upto(1) && forall i :: i in Upto(1) ==> i == 0;
  }

  lemma SingleDelivers(cfg: Config, t: Table, f: Packet, e: Event)
    requires cfg.modulus > 0 && WellShaped(t) && cfg.nMaxFragments >= 1 && Parses(Bytes(f))
    requires f.fragIndex.None? && f.fragCount.None? && e.Arrival? && CopyOf(f, e.packet)
    ensures Step(t, cfg, e).1 == Delivered(Bytes(f), e.packet)
  {
  }

  /** A packet that was not cut is delivered with every copy. */
  lemma UncutStep(cfg: Config, t: Table, key: Key, frags: seq<Packet>, e: Event)
    requires cfg.modulus > 0 && WellShaped(t) && Uncut(cfg, frags) && Parses(Concat(frags))
    ensures var all, r := Gather(key, frags, {}, e), Step(t, cfg, e);
            && (all == Upto(1) || all == {})
            && (all == Upto(1) <==> IsCopy(key, frags, e) && r.1.Delivered?)
            && (IsCopy(key, frags, e) ==> IsWhole(frags, r.1))
  {
    assert 0 in Upto(1);
    if IsCopy(key, frags, e) {
      UncutCopy(cfg, t, key, frags, e);
    } else {
      BroughtNone(key, frags, e);
    }
  }

  lemma {:induction false} GatheredProper(key: Key, frags: seq<Packet>, events: seq<Event>)
    requires frags != []
    ensures Gathered(key, frags, events) <= Upto(|frags|) && Gathered(key, frags, events) != Upto(|frags|)
  {
    assert 0 in Upto(|frags|);
    if events != [] {
      GatheredProper(key, frags, events[..|events| - 1]);
    }
  }

  ghost predicate AllGenuine(cfg: Config, key: Key, frags: seq<Packet>, events: seq<Event>)
    requires cfg.modulus > 0
  {
    forall e :: e in events ==> NoForgery(cfg, key, frags, e)
  }

  /** The reassembler holds what is gathered. */
  ghost predicate InStep(cfg: Config, key: Key, frags: seq<Packet>, events: seq<Event>)
    requires cfg.modulus > 0
  {
    if Uncut(cfg, frags) then Gathered(key, frags, events) == {}
    else Holds(Run(cfg, events), key, frags, Gathered(key, frags, events))
  }

  lemma NextInStep(cfg: Config, key: Key, frags: seq<Packet>, before: seq<Event>, e: Event)
    requires cfg.modulus > 0 && Sendable(cfg, key, frags)
    requires NoForgery(cfg, key, frags, e) && InStep(cfg, key, frags, before)
    ensures InStep(cfg, key, frags, before + [e])
    ensures var o := Step(Run(cfg, before), cfg, e).1;
            && (IsCopy(key, frags, e) ==> IsWhole(frags, o))
            && (Gather(key, frags, Gathered(key, frags, before), e) == Upto(|frags|)
                <==> IsCopy(key, frags, e) && o.Delivered?)
  {
    GatheredProper(key, frags, before);
    GatheredNext(key, frags, before, e);
    if Uncut(cfg, frags) {
      UncutStep(cfg, Run(cfg, before), key, frags, e);
    } else {
      RunOneMore(cfg, before, e);
      CutStep(cfg, Run(cfg, before), key, frags, Gathered(key, frags, before), e);
    }
  }

  lemma GatheredNext(key: Key, frags: seq<Packet>, before: seq<Event>, e: Event)
    ensures var all := Gather(key, frags, Gathered(key, frags, before), e);
            Gathered(key, frags, before + [e]) == if all == Upto(|frags|) then {} else all
  {
    assert (before + [e])[..|before|] == before;
  }

  /** In every run of the reassembler, with any timeouts, a packet is delivered exactly as often as the copies that
      reach it make up a complete set, counted from the last complete set or timeout; and each time it is whole. */
  lemma {:induction false} DeliveriesAreRounds(cfg: Config, key: Key, frags: seq<Packet>, events: seq<Event>)
    requires cfg.modulus > 0 && Sendable(cfg, key, frags) && AllGenuine(cfg, key, frags, events)
    ensures InStep(cfg, key, frags, events)
    ensures Deliveries(cfg, key, frags, events) == Rounds(key, frags, events)
    ensures forall k :: 0 <= k < |events| && IsCopy(key, frags, events[k]) ==> IsWhole(frags, OutcomeOf(cfg, events, k))
  {
    if events != [] {
      var before, e := events[..|events| - 1], events[|events| - 1];
      assert events == before + [e];
      DeliveriesAreRounds(cfg, key, frags, before);
      NextInStep(cfg, key, frags, before, e);
      RunOneMore(cfg, before, e);
      forall k | 0 <= k < |events| && IsCopy(key, frags, events[k]) ensures IsWhole(frags, OutcomeOf(cfg, events, k)) {
        if k < |before| {
          assert before[k] == events[k];
          OutcomePrefix(cfg, before, [e], k);
        }
      }
    }
  }

  // ---------------------------------------------------------------- how often

  /** The last event that delivered the packet. */
  lemma {:induction false} DeliveryEvent(cfg: Config, key: Key, frags: seq<Packet>, events: seq<Event>) returns (k: nat)
    requires cfg.modulus > 0 && Deliveries(cfg, key, frags, events) > 0
    ensures k < |events| && IsCopy(key, frags, events[k]) && OutcomeOf(cfg, events, k).Delivered?
  {
    var before, e := events[..|events| - 1], events[|events| - 1];
    assert events == before + [e];
    RunOneMore(cfg, before, e);
    if IsCopy(key, frags, e) && Step(Run(cfg, before), cfg, e).1.Delivered? {
      k := |before|;
    } else {
      k := DeliveryEvent(cfg, key, frags, before);
      OutcomePrefix(cfg, before, [e], k);
    }
  }

  lemma {:induction false} NoCopyNoDelivery(cfg: Config, key: Key, frags: seq<Packet>, events: seq<Event>)
    requires cfg.modulus > 0 && forall e :: e in events ==> !IsCopy(key, frags, e)
    ensures Deliveries(cfg, key, frags, events) == 0
  {
    if events != [] {
      NoCopyNoDelivery(cfg, key, frags, events[..|events| - 1]);
    }
  }

  ghost function CopyCount(key: Key, frags: seq<Packet>, i: nat, events: seq<Event>): nat
  {
    if events == [] then 0
    else CopyCount(key, frags, i, events[..|events| - 1])
         + if CopyArrives(key, frags, events[|events| - 1], i) then 1 else 0
  }

  /** Every complete set takes a copy of each fragment. */
  lemma {:induction false} RoundsTakeCopies(key: Key, frags: seq<Packet>, i: nat, events: seq<Event>)
    requires i < |frags|
    ensures Rounds(key, frags, events) + (if i in Gathered(key, frags, events) then 1 else 0)
            <= CopyCount(key, frags, i, events)
  {
    assert i in Upto(|frags|);
    if events != [] {
      RoundsTakeCopies(key, frags, i, events[..|events| - 1]);
    }
  }

  lemma {:induction false} RoundsFollow(key: Key, frags: seq<Packet>, done: seq<Event>, more: seq<Event>)
    requires Gathered(key, frags, done) == {}
    ensures Rounds(key, frags, done + more) == Rounds(key, frags, done) + Rounds(key, frags, more)
    ensures Gathered(key, frags, done + more) == Gathered(key, frags, more)
    decreases |more|
  {
    if more == [] {
      assert done + more == done;
    } else {
      var before, e := more[..|more| - 1], more[|more| - 1];
      RoundsFollow(key, frags, done, before);
      assert (done + more)[..|done + more| - 1] == done + before && (done + more)[|done + more| - 1] == e;
    }
  }

  /** Without a timeout, a set is completed exactly when a copy of every fragment has arrived. */
  lemma {:induction false} RoundsNeedAll(key: Key, frags: seq<Packet>, events: seq<Event>)
    requires frags != [] && Timeout(key) !in events
    ensures Rounds(key, frags, events) > 0 <==> Arrived(key, frags, events) == Upto(|frags|)
    ensures Rounds(key, frags, events) == 0 ==> Gathered(key, frags, events) == Arrived(key, frags, events)
    ensures Gathered(key, frags, events) <= Arrived(key, frags, events)
  {
    assert 0 in Upto(|frags|);
    if events == [] {
      assert Arrived(key, frags, events) == {};
    } else {
      var before, e := events[..|events| - 1], events[|events| - 1];
      assert events == before + [e] && e in events;
      RoundsNeedAll(key, frags, before);
      ArrivedBrought(key, frags, before, e);
    }
  }

  lemma ArrivedBrought(key: Key, frags: seq<Packet>, events: seq<Event>, e: Event)
    ensures Arrived(key, frags, events + [e]) == Arrived(key, frags, events) + Brought(key, frags, e)
    ensures Arrived(key, frags, events + [e]) <= Upto(|frags|)
  {
    forall i | i in Upto(|frags|)
      ensures Copied(key, frags, events + [e], i) <==> Copied(key, frags, events, i) || CopyArrives(key, frags, e, i)
    {
      assert e in events + [e];
      if Copied(key, frags, events, i) {
        var a :| a in events && CopyArrives(key, frags, a, i);
        assert a in events + [e];
      }
    }
  }

  /** When no partial packet is held, as after a delivery, further events without a timeout deliver the packet again
      if and only if they bring a copy of every fragment. */
  lemma DeliveredAgain(cfg: Config, key: Key, frags: seq<Packet>, done: seq<Event>, more: seq<Event>)
    requires cfg.modulus > 0 && Sendable(cfg, key, frags) && AllGenuine(cfg, key, frags, done + more)
    requires (Uncut(cfg, frags) || key !in Run(cfg, done)) && Timeout(key) !in more
    ensures Deliveries(cfg, key, frags, done + more) > Deliveries(cfg, key, frags, done)
            <==> Arrived(key, frags, more) == Upto(|frags|)
  {
    assert forall e :: e in done ==> e in done + more;
    DeliveriesAreRounds(cfg, key, frags, done + more);
    DeliveriesAreRounds(cfg, key, frags, done);
    RoundsFollow(key, frags, done, more);
    RoundsNeedAll(key, frags, more);
  }
}
