/** LpReassembler: fragments are collected by message identifier until a packet is complete. */
module Reassembler {
  import opened Packets
  import opened Tlv

  /** `modulus` is 2^64 in the program. */
  datatype Config = Config(modulus: nat, nMaxFragments: nat)

  /** Where a fragment came from and the Sequence of the first fragment of its packet. */
  datatype Key = Key(endpoint: nat, id: nat)

  /** `fragments` holds lp::Packet() where nothing has been received; `dropTimer` is the deadline. */
  datatype PartialPacket = PartialPacket(fragments: seq<Packet>, fragCount: nat, nReceivedFragments: nat,
        dropTimer: Option<nat>)

  type Table = map<Key, PartialPacket>

  /** Malformed: the exception tlv::Error. */
  datatype Outcome = Dropped | Delivered(netPkt: seq<Byte>, firstFrag: Packet) | Malformed

  function FragIndexOf(p: Packet): nat
  {
    if p.fragIndex.Some? then p.fragIndex.value else 0
  }

  function FragCountOf(p: Packet): nat
  {
    if p.fragCount.Some? then p.fragCount.value else 1
  }

  /** The message identifier is computed on wrapping integers. */
  function KeyOf(cfg: Config, endpoint: nat, p: Packet): Key
    requires cfg.modulus > 0 && p.sequence.Some?
  {
    Key(endpoint, (p.sequence.value - FragIndexOf(p)) % cfg.modulus)
  }

  /** Whether the slot of a partial packet has been received. */
  predicate Filled(slot: Packet)
  {
    slot.sequence.Some?
  }

  function Bytes(p: Packet): seq<Byte>
  {
    if p.fragment.Some? then p.fragment.value else []
  }

  /** The payload of a sequence of fragments. */
  function Concat(fragments: seq<Packet>): seq<Byte>
  {
    if fragments == [] then [] else Concat(fragments[..|fragments| - 1]) + Bytes(fragments[|fragments| - 1])
  }

  /** Block(buffer) parses: the buffer starts with a complete TLV element. */
  predicate Parses(netPkt: seq<Byte>)
  {
    FirstElement(netPkt).Some?
  }

  /** The outcome that the results of receiveFragment(), or its exception, stand for. */
  function Result(delivered: bool, netPkt: seq<Byte>, firstFrag: Packet, malformed: bool): Outcome
  {
    if malformed then Malformed else if delivered then Delivered(netPkt, firstFrag) else Dropped
  }

  function Single(p: Packet): Outcome
  {
    if Parses(Bytes(p)) then Delivered(Bytes(p), p) else Malformed
  }

  /** A new partial packet: no fragment received yet. */
  function Fresh(fragCount: nat): PartialPacket
  {
    PartialPacket(seq(fragCount, _ => EMPTY_PACKET), fragCount, 0, None)
  }

  predicate WellShaped(t: Table)
  {
    forall key :: key in t ==> |t[key].fragments| == t[key].fragCount
  }

  function Find(t: Table, key: Key, fragCount: nat): (pp: PartialPacket)
    requires WellShaped(t)
    ensures |pp.fragments| == pp.fragCount
  {
    if key in t then t[key] else Fresh(fragCount)
  }

  function Put(pp: PartialPacket, i: nat, p: Packet): PartialPacket
    requires i < |pp.fragments|
  {
    pp.(fragments := pp.fragments[i := p], nReceivedFragments := pp.nReceivedFragments + 1)
  }

  /** The partial packet got its last fragment. */
  function Complete(t: Table, key: Key, pp: PartialPacket): (Table, Outcome)
    requires pp.fragments != []
  {
    var netPkt := Concat(pp.fragments);
    if Parses(netPkt) then (t - {key}, Delivered(netPkt, pp.fragments[0])) else (t[key := pp], Malformed)
  }

  /** Fragment `i` of `fragCount` goes to the partial packet of `key`. */
  function Accept(t: Table, key: Key, i: nat, fragCount: nat, p: Packet, deadline: nat): (Table, Outcome)
    requires WellShaped(t) && i < fragCount
  {
    var pp := Find(t, key, fragCount);
    if pp.fragCount != fragCount || Filled(pp.fragments[i]) then (t, Dropped)
    else if pp.nReceivedFragments + 1 == fragCount then Complete(t, key, Put(pp, i, p))
    else (t[key := Put(pp, i, p).(dropTimer := Some(deadline))], Dropped)
  }

  /** receiveFragment() */
  function Receive(t: Table, cfg: Config, endpoint: nat, p: Packet, deadline: nat): (Table, Outcome)
    requires cfg.modulus > 0 && WellShaped(t)
  {
    var i, n := FragIndexOf(p), FragCountOf(p);
    if i >= n || n > cfg.nMaxFragments then (t, Dropped)
    else if n == 1 then (t, Single(p))
    else if p.sequence.None? then (t, Dropped)
    else Accept(t, KeyOf(cfg, endpoint, p), i, n, p, deadline)
  }

  // ---------------------------------------------------------------- events

  datatype Event =
    | Arrival(endpoint: nat, packet: Packet, deadline: nat)
    | Timeout(key: Key)

  function Step(t: Table, cfg: Config, e: Event): (Table, Outcome)
    requires cfg.modulus > 0 && WellShaped(t)
  {
    match e
    case Arrival(endpoint, p, deadline) => Receive(t, cfg, endpoint, p, deadline)
    case Timeout(key) => (t - {key}, Dropped)
  }

  lemma StepWellShaped(t: Table, cfg: Config, e: Event)
    requires cfg.modulus > 0 && WellShaped(t)
    ensures WellShaped(Step(t, cfg, e).0)
  {
  }

  /** The table after a run. */
  function Run(cfg: Config, events: seq<Event>): (t: Table)
    requires cfg.modulus > 0
    ensures WellShaped(t)
  {
    if events == [] then map[]
    else
      var before := Run(cfg, events[..|events| - 1]);
      StepWellShaped(before, cfg, events[|events| - 1]);
      Step(before, cfg, events[|events| - 1]).0
  }

  /** The outcome of event `k` of a run. */
  function OutcomeOf(cfg: Config, events: seq<Event>, k: nat): Outcome
    requires cfg.modulus > 0 && k < |events|
  {
    Step(Run(cfg, events[..k]), cfg, events[k]).1
  }

  // ---------------------------------------------------------------- what every event keeps

  function CountFilled(fragments: seq<Packet>): (n: nat)
    ensures n <= |fragments|
  {
    if fragments == [] then 0
    else CountFilled(fragments[..|fragments| - 1]) + if Filled(fragments[|fragments| - 1]) then 1 else 0
  }

  lemma {:induction false} FillOne(fragments: seq<Packet>, i: nat, p: Packet)
    requires i < |fragments| && !Filled(fragments[i]) && Filled(p)
    ensures CountFilled(fragments[i := p]) == CountFilled(fragments) + 1
  {
    var last := |fragments| - 1;
    if i < last {
      FillOne(fragments[..last], i, p);
      assert fragments[i := p][..last] == fragments[..last][i := p];
    } else {
      assert fragments[i := p][..last] == fragments[..last];
    }
  }

  lemma {:induction false} AllFilled(fragments: seq<Packet>)
    ensures CountFilled(fragments) == |fragments| <==> forall f :: f in fragments ==> Filled(f)
  {
    if fragments != [] {
      var last := |fragments| - 1;
      AllFilled(fragments[..last]);
      assert fragments == fragments[..last] + [fragments[last]];
    }
  }

  lemma {:induction false} NoneFilled(n: nat)
    ensures CountFilled(seq(n, _ => EMPTY_PACKET)) == 0
  {
    if n > 0 {
      NoneFilled(n - 1);
      assert seq(n, _ => EMPTY_PACKET)[..n - 1] == seq(n - 1, _ => EMPTY_PACKET);
    }
  }

  /** Packet `p` came from `endpoint` in one of the events. */
  predicate Seen(events: seq<Event>, endpoint: nat, p: Packet)
  {
    exists e :: e in events && e.Arrival? && e.endpoint == endpoint && e.packet == p
  }

  /** `p` can be fragment `i` of `fragCount` of the packet with this key. */
  predicate Belongs(cfg: Config, key: Key, i: nat, fragCount: nat, p: Packet, events: seq<Event>)
    requires cfg.modulus > 0
  {
    && p.sequence.Some? && (p.sequence.value - i) % cfg.modulus == key.id
    && FragIndexOf(p) == i && FragCountOf(p) == fragCount
    && Seen(events, key.endpoint, p)
  }

  predicate SlotsInv(cfg: Config, key: Key, pp: PartialPacket, events: seq<Event>)
    requires cfg.modulus > 0
  {
    forall i :: 0 <= i < |pp.fragments| && Filled(pp.fragments[i]) ==>
      Belongs(cfg, key, i, pp.fragCount, pp.fragments[i], events)
  }

  predicate PartialInv(cfg: Config, key: Key, pp: PartialPacket, events: seq<Event>)
    requires cfg.modulus > 0
  {
    && 2 <= pp.fragCount == |pp.fragments|
    && 1 <= pp.nReceivedFragments == CountFilled(pp.fragments)
    && pp.dropTimer.Some?
    && SlotsInv(cfg, key, pp, events)
  }

  predicate TableInv(cfg: Config, t: Table, events: seq<Event>)
    requires cfg.modulus > 0
  {
    forall key :: key in t ==> PartialInv(cfg, key, t[key], events)
  }

  lemma SlotsLater(cfg: Config, key: Key, pp: PartialPacket, events: seq<Event>, e: Event)
    requires cfg.modulus > 0 && SlotsInv(cfg, key, pp, events)
    ensures SlotsInv(cfg, key, pp, events + [e])
  {
    forall i | 0 <= i < |pp.fragments| && Filled(pp.fragments[i])
      ensures Belongs(cfg, key, i, pp.fragCount, pp.fragments[i], events + [e])
    {
      assert Belongs(cfg, key, i, pp.fragCount, pp.fragments[i], events);
      var a :| a in events && a.Arrival? && a.endpoint == key.endpoint && a.packet == pp.fragments[i];
      assert a in events + [e];
    }
  }

  lemma TableLater(cfg: Config, t: Table, events: seq<Event>, e: Event)
    requires cfg.modulus > 0 && TableInv(cfg, t, events)
    ensures TableInv(cfg, t, events + [e])
  {
    forall key | key in t ensures PartialInv(cfg, key, t[key], events + [e]) {
      assert PartialInv(cfg, key, t[key], events);
      SlotsLater(cfg, key, t[key], events, e);
    }
  }

  /** Every slot of a delivered packet belongs to it; the packet is their concatenation. */
  predicate Whole(cfg: Config, key: Key, slots: seq<Packet>, netPkt: seq<Byte>, firstFrag: Packet, events: seq<Event>)
    requires cfg.modulus > 0
  {
    && |slots| >= 2 && firstFrag == slots[0] && netPkt == Concat(slots)
    && forall i :: 0 <= i < |slots| ==> Belongs(cfg, key, i, |slots|, slots[i], events)
  }

  /** A delivery is either a single packet or the in-order concatenation of fragments of one packet. */
  ghost predicate SoundDelivery(cfg: Config, o: Outcome, events: seq<Event>)
    requires cfg.modulus > 0
  {
    o.Delivered? ==>
      || (FragCountOf(o.firstFrag) == 1 && o.netPkt == Bytes(o.firstFrag))
      || exists key, slots :: Whole(cfg, key, slots, o.netPkt, o.firstFrag, events)
  }

  /** The partial packet before fragment `i` is put into it. */
  predicate OpenInv(cfg: Config, key: Key, pp: PartialPacket, events: seq<Event>)
    requires cfg.modulus > 0
  {
    && |pp.fragments| == pp.fragCount && pp.nReceivedFragments == CountFilled(pp.fragments)
    && (pp.nReceivedFragments > 0 ==> pp.dropTimer.Some?)
    && SlotsInv(cfg, key, pp, events)
  }

  lemma FindInv(cfg: Config, t: Table, key: Key, fragCount: nat, events: seq<Event>)
    requires cfg.modulus > 0 && WellShaped(t) && TableInv(cfg, t, events)
    ensures OpenInv(cfg, key, Find(t, key, fragCount), events)
  {
    NoneFilled(fragCount);
    assert key in t ==> PartialInv(cfg, key, t[key], events);
  }

  lemma PutInv(cfg: Config, key: Key, pp: PartialPacket, i: nat, p: Packet, events: seq<Event>)
    requires cfg.modulus > 0 && i < |pp.fragments| && !Filled(pp.fragments[i]) && OpenInv(cfg, key, pp, events)
    requires Belongs(cfg, key, i, pp.fragCount, p, events)
    ensures var q := Put(pp, i, p);
            && |q.fragments| == q.fragCount && 1 <= q.nReceivedFragments == CountFilled(q.fragments)
            && SlotsInv(cfg, key, q, events)
  {
    FillOne(pp.fragments, i, p);
  }

  lemma CompleteInv(cfg: Config, t: Table, key: Key, pp: PartialPacket, events: seq<Event>)
    requires cfg.modulus > 0 && TableInv(cfg, t, events) && PartialInv(cfg, key, pp, events)
    requires pp.nReceivedFragments == pp.fragCount
    ensures var r := Complete(t, key, pp); TableInv(cfg, r.0, events) && SoundDelivery(cfg, r.1, events)
  {
    AllFilled(pp.fragments);
    forall i | 0 <= i < |pp.fragments| ensures Belongs(cfg, key, i, |pp.fragments|, pp.fragments[i], events) {
      assert pp.fragments[i] in pp.fragments;
    }
    assert Whole(cfg, key, pp.fragments, Concat(pp.fragments), pp.fragments[0], events);
  }

  lemma AcceptInv(cfg: Config, t: Table, key: Key, i: nat, fragCount: nat, p: Packet, deadline: nat, events: seq<Event>)
    requires cfg.modulus > 0 && WellShaped(t) && TableInv(cfg, t, events)
    requires i < fragCount && 2 <= fragCount && Belongs(cfg, key, i, fragCount, p, events)
    ensures var r := Accept(t, key, i, fragCount, p, deadline);
            TableInv(cfg, r.0, events) && SoundDelivery(cfg, r.1, events)
  {
    var pp := Find(t, key, fragCount);
    FindInv(cfg, t, key, fragCount, events);
    if pp.fragCount == fragCount && !Filled(pp.fragments[i]) {
      PutInv(cfg, key, pp, i, p, events);
      if pp.nReceivedFragments + 1 == fragCount {
        CompleteInv(cfg, t, key, Put(pp, i, p), events);
      }
    }
  }

  lemma StepInv(cfg: Config, t: Table, events: seq<Event>, e: Event)
    requires cfg.modulus > 0 && WellShaped(t) && TableInv(cfg, t, events)
    ensures TableInv(cfg, Step(t, cfg, e).0, events + [e])
    ensures SoundDelivery(cfg, Step(t, cfg, e).1, events + [e])
  {
    TableLater(cfg, t, events, e);
    match e
    case Arrival(endpoint, p, deadline) =>
      var i, n := FragIndexOf(p), FragCountOf(p);
      if i < n <= cfg.nMaxFragments && n >= 2 && p.sequence.Some? {
        assert e in events + [e];
        AcceptInv(cfg, t, KeyOf(cfg, endpoint, p), i, n, p, deadline, events + [e]);
      }
    case Timeout(key) =>
  }

  /** On arbitrary input: after every run each partial packet has at least two slots, counts the filled ones,
      holds in slot i only a fragment with Sequence id+i from the key's endpoint, and has its drop timer
      armed; every delivery of more than one fragment is the in-order concatenation of such slots. */
  lemma {:induction false} ReassemblySafety(cfg: Config, events: seq<Event>)
    requires cfg.modulus > 0
    ensures TableInv(cfg, Run(cfg, events), events)
    ensures forall k :: 0 <= k < |events| ==> SoundDelivery(cfg, OutcomeOf(cfg, events, k), events[..k + 1])
  {
    if events != [] {
      var n := |events| - 1;
      var before := events[..n];
      ReassemblySafety(cfg, before);
      StepInv(cfg, Run(cfg, before), before, events[n]);
      assert before + [events[n]] == events;
      forall k | 0 <= k < |events| ensures SoundDelivery(cfg, OutcomeOf(cfg, events, k), events[..k + 1]) {
        if k < n {
          assert before[..k] == events[..k] && before[..k + 1] == events[..k + 1];
          assert OutcomeOf(cfg, events, k) == OutcomeOf(cfg, before, k);
        } else {
          assert events[..k + 1] == events;
        }
      }
    }
  }

  // ---------------------------------------------------------------- the program

  lemma {:induction false} ConcatSplit(fragments: seq<Packet>, i: nat)
    requires i < |fragments|
    ensures Concat(fragments[..i + 1]) == Concat(fragments[..i]) + Bytes(fragments[i])
  {
    assert fragments[..i + 1][..i] == fragments[..i];
  }

  lemma {:induction false} ConcatGrows(fragments: seq<Packet>, i: nat)
    requires i <= |fragments|
    ensures |Concat(fragments[..i])| <= |Concat(fragments)|
    decreases |fragments| - i
  {
    if i < |fragments| {
      ConcatSplit(fragments, i);
      ConcatGrows(fragments, i + 1);
    } else {
      assert fragments[..i] == fragments;
    }
  }

  class LpReassembler {
    const cfg: Config
    var partialPackets: Table
    var timeouts: seq<(nat, nat)>   // arguments beforeTimeout was fired with

    constructor (cfg: Config)
      ensures this.cfg == cfg && partialPackets == map[] && timeouts == []
    {
      this.cfg, partialPackets, timeouts := cfg, map[], [];
    }

    /** std::accumulate() over the fragments in doReassembly(). */
    method PayloadSize(fragments: seq<Packet>) returns (payloadSize: nat)
      ensures payloadSize == |Concat(fragments)|
    {
      payloadSize := 0;
      for i := 0 to |fragments|
        invariant payloadSize == |Concat(fragments[..i])|
      {
        ConcatSplit(fragments, i);
        payloadSize := payloadSize + |Bytes(fragments[i])|;
      }
      assert fragments[..|fragments|] == fragments;
    }

    /** std::copy() to position `it` of the buffer. */
    method Copy(frag: seq<Byte>, fragBuffer: array<Byte>, it: nat)
      requires it + |frag| <= fragBuffer.Length
      modifies fragBuffer
      ensures fragBuffer[..it + |frag|] == old(fragBuffer[..it]) + frag
    {
      for j := 0 to |frag|
        invariant fragBuffer[..it + j] == old(fragBuffer[..it]) + frag[..j]
      {
        fragBuffer[it + j] := frag[j];
        assert fragBuffer[..it + j + 1] == fragBuffer[..it + j] + [frag[j]];
        assert frag[..j + 1] == frag[..j] + [frag[j]];
      }
      assert frag[..|frag|] == frag;
    }

    /** doReassembly(): the payloads are copied into a buffer of their total size. */
    method DoReassembly(fragments: seq<Packet>) returns (netPkt: seq<Byte>)
      ensures netPkt == Concat(fragments)
    {
      var payloadSize := PayloadSize(fragments);
      var fragBuffer := new Byte[payloadSize](_ => 0);
      var it := 0;
      for i := 0 to |fragments|
        invariant it == |Concat(fragments[..i])| <= payloadSize
        invariant fragBuffer[..it] == Concat(fragments[..i])
      {
        ConcatSplit(fragments, i);
        ConcatGrows(fragments, i + 1);
        Copy(Bytes(fragments[i]), fragBuffer, it);
        it := it + |Bytes(fragments[i])|;
      }
      assert fragments[..|fragments|] == fragments;
      netPkt := fragBuffer[..];
    }

    /** receiveFragment(): `malformed` is the exception tlv::Error. */
    method ReceiveFragment(remoteEndpoint: nat, packet: Packet, deadline: nat)
      returns (delivered: bool, netPkt: seq<Byte>, firstFrag: Packet, malformed: bool)
      requires cfg.modulus > 0 && WellShaped(partialPackets) && packet.fragment.Some?
      modifies this`partialPackets
      ensures WellShaped(partialPackets)
      ensures (partialPackets, Result(delivered, netPkt, firstFrag, malformed))
              == Receive(old(partialPackets), cfg, remoteEndpoint, packet, deadline)
      ensures !(malformed && delivered)
    {
      delivered, netPkt, firstFrag, malformed := false, [], EMPTY_PACKET, false;
      var fragIndex, fragCount := 0, 1;
      if packet.fragIndex.Some? {
        fragIndex := packet.fragIndex.value;
      }
      if packet.fragCount.Some? {
        fragCount := packet.fragCount.value;
      }
      if fragIndex >= fragCount {
        return;
      }
      if fragCount > cfg.nMaxFragments {
        return;
      }
      if fragIndex == 0 && fragCount == 1 {
        if Parses(packet.fragment.value) {
          delivered, netPkt, firstFrag := true, packet.fragment.value, packet;
        } else {
          malformed := true;
        }
        return;
      }
      if packet.sequence.None? {
        return;
      }
      var messageIdentifier := (packet.sequence.value - fragIndex) % cfg.modulus;
      var key := Key(remoteEndpoint, messageIdentifier);
      delivered, netPkt, firstFrag, malformed := AddToPartialPacket(key, fragIndex, fragCount, packet, deadline);
    }

    /** The part of receiveFragment() that looks up and extends the partial packet. */
    method AddToPartialPacket(key: Key, fragIndex: nat, fragCount: nat, packet: Packet, deadline: nat)
      returns (delivered: bool, netPkt: seq<Byte>, firstFrag: Packet, malformed: bool)
      requires WellShaped(partialPackets) && fragIndex < fragCount
      modifies this`partialPackets
      ensures WellShaped(partialPackets)
      ensures (partialPackets, Result(delivered, netPkt, firstFrag, malformed))
              == Accept(old(partialPackets), key, fragIndex, fragCount, packet, deadline)
      ensures !(malformed && delivered)
    {
      delivered, netPkt, firstFrag, malformed := false, [], EMPTY_PACKET, false;
      var pp;
      if key !in partialPackets { // new PartialPacket
        pp := Fresh(fragCount);
      } else {
        pp := partialPackets[key];
        if fragCount != pp.fragCount {
          return;
        }
      }
      if Filled(pp.fragments[fragIndex]) {
        return;
      }
      pp := pp.(fragments := pp.fragments[fragIndex := packet], nReceivedFragments := pp.nReceivedFragments + 1);
      partialPackets := partialPackets[key := pp];
      if pp.nReceivedFragments == pp.fragCount {
        var reassembled := DoReassembly(pp.fragments);
        if !Parses(reassembled) {
          malformed := true;
          return;
        }
        firstFrag := pp.fragments[0];
        partialPackets := partialPackets - {key};
        assert partialPackets == old(partialPackets) - {key};
        delivered, netPkt := true, reassembled;
        return;
      }
      partialPackets := partialPackets[key := pp.(dropTimer := Some(deadline))];
      assert partialPackets == old(partialPackets)[key := pp.(dropTimer := Some(deadline))];
    }

    /** timeoutPartialPacket() */
    method TimeoutPartialPacket(key: Key)
      requires cfg.modulus > 0 && WellShaped(partialPackets)
      modifies this
      ensures WellShaped(partialPackets) && partialPackets == Step(old(partialPackets), cfg, Timeout(key)).0
      ensures timeouts == old(timeouts) + if key in old(partialPackets)
                                          then [(key.endpoint, old(partialPackets)[key].nReceivedFragments)] else []
    {
      if key !in partialPackets {
        assert partialPackets == partialPackets - {key};
        return;
      }
      timeouts := timeouts + [(key.endpoint, partialPackets[key].nReceivedFragments)];
      partialPackets := partialPackets - {key};
    }
  }
}
