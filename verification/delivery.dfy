/** Sender, network, duplicate filter and reassembler together: a packet that the sender counts as received by
    its peer was delivered there. */
module Delivery {
  import opened Packets
  import opened Arithmetic
  import opened ReliabilitySpec
  import opened ReliabilityInvariants
  import AckQueue
  import AckSoundness
  import Deliveries
  import DuplicateFilter
  import Fragmenter
  import LinkService
  import Reassembler
  import RoundTrip

  // ---------------------------------------------------------------- the receiver

  /** What happens to the receiving link service: doReceivePacket(), with the clock and RTO that the filter sees,
      and the drop timers of the reassembler. */
  datatype Input =
    | Incoming(packet: Packet, now: nat, rto: nat, deadline: nat)
    | Timeout(key: Reassembler.Key)

  /** Whether the packet goes through the filter of recent Sequences. */
  predicate IsFiltered(i: Input)
  {
    i.Incoming? && i.packet.fragment.Some? && i.packet.txSequence.Some? && i.packet.sequence.Some?
  }

  /** The arrivals that the filter has seen. */
  function Arrivals(inputs: seq<Input>): seq<DuplicateFilter.Arrival>
  {
    if inputs == [] then []
    else
      var i := inputs[|inputs| - 1];
      Arrivals(inputs[..|inputs| - 1])
      + if IsFiltered(i) then [DuplicateFilter.Arrival(i.packet.sequence.value, i.now, i.rto)] else []
  }

  /** processIncomingPacket() does not report the packet as a duplicate. */
  predicate IsNew(before: seq<Input>, i: Input)
  {
    IsFiltered(i) ==> i.packet.sequence.value !in DuplicateFilter.After(Arrivals(before)).seqs
  }

  /** The receiving link service; every packet of the sender comes from `endpoint`. */
  datatype Peer = Peer(endpoint: nat, allowReassembly: bool)

  /** Whether the packet may go to the reassembler. */
  predicate Accepts(peer: Peer, p: Packet)
  {
    p.fragment.Some? && (peer.allowReassembly || (p.fragIndex.None? && p.fragCount.None?))
  }

  /** What the reassembler gets to see of one input: an accepted packet that is no duplicate, or its timer. */
  function EventsOf(peer: Peer, before: seq<Input>, i: Input): seq<Reassembler.Event>
  {
    match i
    case Timeout(key) => [Reassembler.Timeout(key)]
    case Incoming(p, _, _, deadline) =>
      if Accepts(peer, p) && IsNew(before, i) then [Reassembler.Arrival(peer.endpoint, p, deadline)] else []
  }

  /** What it gets to see of the inputs from position `n` on. */
  function EventsFrom(peer: Peer, inputs: seq<Input>, n: nat): seq<Reassembler.Event>
    requires n <= |inputs|
    decreases |inputs|
  {
    if |inputs| == n then []
    else
      var before := inputs[..|inputs| - 1];
      EventsFrom(peer, before, n) + EventsOf(peer, before, inputs[|inputs| - 1])
  }

  function ToReassembler(peer: Peer, inputs: seq<Input>): seq<Reassembler.Event>
  {
    EventsFrom(peer, inputs, 0)
  }

  /** The packets passed to processIncomingPacket(). */
  function PacketsIn(inputs: seq<Input>): seq<Packet>
  {
    if inputs == [] then []
    else
      var i := inputs[|inputs| - 1];
      PacketsIn(inputs[..|inputs| - 1]) + if i.Incoming? then [i.packet] else []
  }

  /** A filtered packet with Sequence `s` is among the inputs. */
  predicate Carries(inputs: seq<Input>, s: nat)
  {
    exists k :: 0 <= k < |inputs| && IsFiltered(inputs[k]) && inputs[k].packet.sequence.value == s
  }

  lemma {:induction false} ArrivalsCarried(inputs: seq<Input>, s: nat)
    requires DuplicateFilter.Carried(Arrivals(inputs), s)
    ensures Carries(inputs, s)
  {
    var before, i := inputs[..|inputs| - 1], inputs[|inputs| - 1];
    var m :| 0 <= m < |Arrivals(inputs)| && Arrivals(inputs)[m].seq_ == s;
    if m < |Arrivals(before)| {
      assert Arrivals(before)[m] == Arrivals(inputs)[m];
      ArrivalsCarried(before, s);
      var k :| 0 <= k < |before| && IsFiltered(before[k]) && before[k].packet.sequence.value == s;
      assert inputs[k] == before[k];
    }
  }

  /** The first packet with a Sequence is never taken for a duplicate. */
  lemma {:induction false} FirstIsNew(inputs: seq<Input>, s: nat) returns (k: nat)
    requires Carries(inputs, s)
    ensures k < |inputs| && IsFiltered(inputs[k]) && inputs[k].packet.sequence.value == s &&
            IsNew(inputs[..k], inputs[k])
  {
    var before := inputs[..|inputs| - 1];
    if Carries(before, s) {
      k := FirstIsNew(before, s);
      assert inputs[..k] == before[..k] && inputs[k] == before[k];
    } else {
      k := |inputs| - 1;
      LastCarries(inputs, s);
      DuplicateFilter.AfterCarried(Arrivals(before));
      if DuplicateFilter.Carried(Arrivals(before), s) { ArrivalsCarried(before, s); }
    }
  }

  lemma LastCarries(inputs: seq<Input>, s: nat)
    requires Carries(inputs, s) && !Carries(inputs[..|inputs| - 1], s)
    ensures IsFiltered(inputs[|inputs| - 1]) && inputs[|inputs| - 1].packet.sequence.value == s
  {
    var before := inputs[..|inputs| - 1];
    assert forall k :: 0 <= k < |before| ==> before[k] == inputs[k];
  }

  /** Input `k` is a packet that is passed on to the reassembler. */
  predicate IsPassed(peer: Peer, inputs: seq<Input>, k: nat)
    requires k < |inputs|
  {
    inputs[k].Incoming? && Accepts(peer, inputs[k].packet) && IsNew(inputs[..k], inputs[k])
  }

  lemma {:induction false} PassedOn(peer: Peer, inputs: seq<Input>, n: nat, k: nat)
    requires n <= k < |inputs| && IsPassed(peer, inputs, k)
    ensures Reassembler.Arrival(peer.endpoint, inputs[k].packet, inputs[k].deadline) in EventsFrom(peer, inputs, n)
    decreases |inputs|
  {
    var before := inputs[..|inputs| - 1];
    if k < |before| {
      assert before[..k] == inputs[..k] && before[k] == inputs[k];
      PassedOn(peer, before, n, k);
    }
  }

  /** The input behind an event of the reassembler. */
  lemma {:induction false} EventOrigin(peer: Peer, inputs: seq<Input>, n: nat, e: Reassembler.Event) returns (k: nat)
    requires n <= |inputs| && e in EventsFrom(peer, inputs, n)
    ensures n <= k < |inputs|
    ensures match e
            case Timeout(key) => inputs[k] == Timeout(key)
            case Arrival(from, p, _) => from == peer.endpoint && IsPassed(peer, inputs, k) && inputs[k].packet == p
    decreases |inputs|
  {
    var before := inputs[..|inputs| - 1];
    if e in EventsFrom(peer, before, n) {
      k := EventOrigin(peer, before, n, e);
      assert inputs[k] == before[k] && inputs[..k] == before[..k];
    } else {
      k := |inputs| - 1;
    }
  }

  /** The events of the first `n` inputs come before those of the others. */
  lemma {:induction false} EventsSplit(peer: Peer, inputs: seq<Input>, n: nat)
    requires n <= |inputs|
    ensures ToReassembler(peer, inputs) == ToReassembler(peer, inputs[..n]) + EventsFrom(peer, inputs, n)
    decreases |inputs|
  {
    if n == |inputs| {
      assert inputs[..n] == inputs;
    } else {
      var before := inputs[..|inputs| - 1];
      EventsSplit(peer, before, n);
      assert before[..n] == inputs[..n];
    }
  }

  lemma {:induction false} InputOf(inputs: seq<Input>, p: Packet) returns (k: nat)
    requires p in PacketsIn(inputs)
    ensures k < |inputs| && inputs[k].Incoming? && inputs[k].packet == p
  {
    var before := inputs[..|inputs| - 1];
    if p in PacketsIn(before) {
      k := InputOf(before, p);
      assert inputs[k] == before[k];
    } else {
      k := |inputs| - 1;
    }
  }

  lemma {:induction false} IsInput(inputs: seq<Input>, k: nat)
    requires k < |inputs| && inputs[k].Incoming?
    ensures inputs[k].packet in PacketsIn(inputs)
  {
    var before := inputs[..|inputs| - 1];
    if k < |before| {
      assert before[k] == inputs[k];
      IsInput(before, k);
    }
  }

  // ---------------------------------------------------------------- the sender's Sequences

  /** Fragments of these packets in all. */
  function Total(pkts: seq<NetPacket>): nat
  {
    if pkts == [] then 0 else Total(pkts[..|pkts| - 1]) + |pkts[|pkts| - 1].frags|
  }

  /** m_lastSeqNo after these packets. */
  function LastSequence(pkts: seq<NetPacket>, last: nat, modulus: nat): nat
    requires modulus > 0
  {
    if pkts == [] then last % modulus
    else (LastSequence(pkts[..|pkts| - 1], last, modulus) + |pkts[|pkts| - 1].frags|) % modulus
  }

  /** The fragments of packet `id` are those that sendNetPacket() makes of it, with the next Sequences. */
  predicate MadeByLinkService(pkts: seq<NetPacket>, id: nat, link: LinkService.Options, transportMtu: int, last: nat)
    requires LinkService.Usable(link, transportMtu) && id < |pkts|
  {
    var p := pkts[id].pkt;
    && Fragmenter.Unfragmented(p) && LinkService.Fragmented(link, transportMtu, p).Some?
    && pkts[id].frags == RoundTrip.WithSequences(LinkService.Fragmented(link, transportMtu, p).value,
                                                 LastSequence(pkts[..id], last, link.modulus), link.modulus)
  }

  /** All packets handed to handleOutgoing() come from sendNetPacket(). */
  predicate AllMade(pkts: seq<NetPacket>, link: LinkService.Options, transportMtu: int, last: nat)
    requires LinkService.Usable(link, transportMtu)
  {
    forall id :: 0 <= id < |pkts| ==> MadeByLinkService(pkts, id, link, transportMtu, last)
  }

  lemma NextResidue(r: nat, a: nat, n: nat, modulus: nat)
    requires modulus > 0 && r == a % modulus
    ensures (r + n) % modulus == (a + n) % modulus
  {
    ModAdd(a, n, modulus);
  }

  lemma {:induction false} LastSequenceIsTotal(pkts: seq<NetPacket>, last: nat, modulus: nat)
    requires modulus > 0
    ensures LastSequence(pkts, last, modulus) == (last + Total(pkts)) % modulus
  {
    if pkts != [] {
      var before, n := pkts[..|pkts| - 1], |pkts[|pkts| - 1].frags|;
      LastSequenceIsTotal(before, last, modulus);
      NextResidue(LastSequence(before, last, modulus), last + Total(before), n, modulus);
    }
  }

  lemma {:induction false} TotalGrows(pkts: seq<NetPacket>, a: nat, b: nat)
    requires a < b <= |pkts|
    ensures Total(pkts[..a]) + |pkts[a].frags| <= Total(pkts[..b])
    decreases b
  {
    assert pkts[..b][..b - 1] == pkts[..b - 1];
    if a < b - 1 {
      TotalGrows(pkts, a, b - 1);
    }
  }

  // ---------------------------------------------------------------- telling fragments apart

  /** The packets of a sender that has used at most as many Sequences as there are. */
  predicate Sender(pkts: seq<NetPacket>, link: LinkService.Options, transportMtu: int, last: nat)
  {
    LinkService.Usable(link, transportMtu) && AllMade(pkts, link, transportMtu, last) && Total(pkts) <= link.modulus
  }

  /** Sequence of fragment `b` of packet `a`, before it wraps. */
  function Position(pkts: seq<NetPacket>, last: nat, a: nat, b: nat): nat
    requires a < |pkts|
  {
    last + 1 + Total(pkts[..a]) + b
  }

  lemma FragmentFields(pkts: seq<NetPacket>, link: LinkService.Options, transportMtu: int, last: nat, a: nat, b: nat)
    requires Sender(pkts, link, transportMtu, last) && a < |pkts| && b < |pkts[a].frags|
    ensures pkts[a].frags[b].fragment.Some?
    ensures pkts[a].frags[b].sequence == Some(Position(pkts, last, a, b) % link.modulus)
    ensures if |pkts[a].frags| == 1 then pkts[a].frags[b].fragIndex.None? && pkts[a].frags[b].fragCount.None?
            else pkts[a].frags[b].fragIndex == Some(b) && pkts[a].frags[b].fragCount == Some(|pkts[a].frags|)
  {
    assert MadeByLinkService(pkts, a, link, transportMtu, last);
    LastSequenceIsTotal(pkts[..a], last, link.modulus);
    ModAdd(last + Total(pkts[..a]), 1 + b, link.modulus);
    PlainFields(pkts[a].pkt, link, transportMtu, b);
  }

  lemma PlainFields(p: Packet, link: LinkService.Options, transportMtu: int, b: nat)
    requires LinkService.Usable(link, transportMtu) && Fragmenter.Unfragmented(p)
    requires LinkService.Fragmented(link, transportMtu, p).Some? &&
             b < |LinkService.Fragmented(link, transportMtu, p).value|
    ensures var plain := LinkService.Fragmented(link, transportMtu, p).value;
            && plain[b].fragment.Some?
            && if |plain| == 1 then plain == [p]
               else plain[b].fragIndex == Some(b) && plain[b].fragCount == Some(|plain|)
  {
    var mtu := LinkService.FragmentMtu(link, transportMtu);
    if LinkService.Cuts(link, transportMtu) && !Fragmenter.FastPath(p, mtu) {
      Fragmenter.FragmentsJoin(p, mtu, link.nMaxFragments);
    }
  }

  lemma FragmentsExist(pkts: seq<NetPacket>, link: LinkService.Options, transportMtu: int, last: nat, id: nat)
    requires Sender(pkts, link, transportMtu, last) && id < |pkts|
    ensures |pkts[id].frags| >= 1
  {
    assert MadeByLinkService(pkts, id, link, transportMtu, last);
    var p, mtu := pkts[id].pkt, LinkService.FragmentMtu(link, transportMtu);
    if LinkService.Cuts(link, transportMtu) && !Fragmenter.FastPath(p, mtu) {
      Fragmenter.FragmentsJoin(p, mtu, link.nMaxFragments);
    }
  }

  lemma {:induction false} TotalOfPrefix(pkts: seq<NetPacket>, a: nat)
    requires a < |pkts|
    ensures Total(pkts[..a]) + |pkts[a].frags| <= Total(pkts)
  {
    TotalGrows(pkts, a, |pkts|);
    assert pkts[..|pkts|] == pkts;
  }

  /** No Sequence is used twice. */
  lemma SequencesUnique(pkts: seq<NetPacket>, last: nat, modulus: nat, a: nat, b: nat, c: nat, d: nat)
    requires Total(pkts) <= modulus && a < |pkts| && b < |pkts[a].frags| && c < |pkts| && d < |pkts[c].frags|
    requires modulus > 0 && Position(pkts, last, a, b) % modulus == Position(pkts, last, c, d) % modulus
    ensures a == c && b == d
  {
    TotalOfPrefix(pkts, a);
    TotalOfPrefix(pkts, c);
    SameResidue(Position(pkts, last, a, b), Position(pkts, last, c, d), last + 1, modulus);
    if a < c {
      TotalGrows(pkts, a, c);
    } else if c < a {
      TotalGrows(pkts, c, a);
    }
  }

  /** The key under which the reassembler collects packet `a`. */
  function KeyFor(pkts: seq<NetPacket>, last: nat, modulus: nat, endpoint: nat, a: nat): Reassembler.Key
    requires modulus > 0 && a < |pkts|
  {
    Reassembler.Key(endpoint, Position(pkts, last, a, 0) % modulus)
  }

  lemma CopyKey(pkts: seq<NetPacket>, link: LinkService.Options, transportMtu: int, last: nat,
                cfg: Reassembler.Config, endpoint: nat, a: nat, b: nat, p: Packet)
    requires Sender(pkts, link, transportMtu, last) && cfg.modulus == link.modulus
    requires a < |pkts| && b < |pkts[a].frags| && |pkts[a].frags| > 1 && CopyOf(pkts[a].frags[b], p)
    ensures p.sequence.Some? && Reassembler.KeyOf(cfg, endpoint, p) == KeyFor(pkts, last, link.modulus, endpoint, a)
  {
    FragmentFields(pkts, link, transportMtu, last, a, b);
    KeyFromSequence(cfg, endpoint, p, Position(pkts, last, a, 0), b);
  }

  lemma KeyFromSequence(cfg: Reassembler.Config, endpoint: nat, p: Packet, first: nat, b: nat)
    requires cfg.modulus > 0 && p.sequence == Some((first + b) % cfg.modulus) && p.fragIndex == Some(b)
    ensures Reassembler.KeyOf(cfg, endpoint, p) == Reassembler.Key(endpoint, first % cfg.modulus)
  {
    UpAndDown(first, b, cfg.modulus);
  }

  /** A copy of a fragment that the reassembler collects under the key of packet `id` is one of that packet. */
  lemma TouchesOwnPacket(pkts: seq<NetPacket>, link: LinkService.Options, transportMtu: int, last: nat,
                         cfg: Reassembler.Config, endpoint: nat, id: nat, a: nat, b: nat, e: Reassembler.Event)
    requires Sender(pkts, link, transportMtu, last) && cfg.modulus == link.modulus
    requires id < |pkts| && pkts[id].frags != [] && a < |pkts| && b < |pkts[a].frags|
    requires e.Arrival? && e.endpoint == endpoint && CopyOf(pkts[a].frags[b], e.packet)
    requires RoundTrip.Touches(cfg, KeyFor(pkts, last, link.modulus, endpoint, id), e)
    ensures a == id
  {
    FragmentFields(pkts, link, transportMtu, last, a, b);
    CopyKey(pkts, link, transportMtu, last, cfg, endpoint, a, b, e.packet);
    SequencesUnique(pkts, last, link.modulus, a, 0, id, 0);
  }

  // ---------------------------------------------------------------- across the network

  /** The inputs of a receiver, joined by the network to the sender that is in state `s`. */
  ghost predicate Connected(s: State, o: Options, link: LinkService.Options, transportMtu: int, last: nat,
                            inputs: seq<Input>)
  {
    && Inv(s, o) && AckSoundness.Carried(s.sent, PacketsIn(inputs))
    && Sender(s.ledger.pkts, link, transportMtu, last)
  }

  /** What arrives with a Fragment is a copy of one of the sender's fragments. */
  lemma InputIsCopy(s: State, o: Options, inputs: seq<Input>, k: nat) returns (a: nat, b: nat)
    requires Inv(s, o) && AckSoundness.Carried(s.sent, PacketsIn(inputs))
    requires k < |inputs| && inputs[k].Incoming? && inputs[k].packet.fragment.Some?
    ensures a < |s.ledger.pkts| && b < |s.ledger.pkts[a].frags|
    ensures CopyOf(s.ledger.pkts[a].frags[b], inputs[k].packet) && inputs[k].packet.txSequence.Some?
  {
    IsInput(inputs, k);
    var n := AckSoundness.GotIsTransmission(s, o, PacketsIn(inputs), inputs[k].packet);
    a, b := s.ledger.log[n].pkt, s.ledger.log[n].ord;
  }

  /** Once a copy of a fragment that the peer accepts has come in, a copy of it has passed the filter. */
  lemma FragmentPasses(s: State, o: Options, link: LinkService.Options, transportMtu: int, last: nat,
                       inputs: seq<Input>, peer: Peer, id: nat, i: nat, p: Packet) returns (e: Reassembler.Event)
    requires Connected(s, o, link, transportMtu, last, inputs)
    requires id < |s.ledger.pkts| && i < |s.ledger.pkts[id].frags| && Accepts(peer, s.ledger.pkts[id].frags[i])
    requires p in PacketsIn(inputs) && CopyOf(s.ledger.pkts[id].frags[i], p)
    ensures e in ToReassembler(peer, inputs)
    ensures e.Arrival? && e.endpoint == peer.endpoint && CopyOf(s.ledger.pkts[id].frags[i], e.packet)
  {
    var pkts := s.ledger.pkts;
    FragmentFields(pkts, link, transportMtu, last, id, i);
    var j := InputOf(inputs, p);
    var c, d := InputIsCopy(s, o, inputs, j);
    assert IsFiltered(inputs[j]);
    var k := FirstIsNew(inputs, p.sequence.value);
    var a, b := InputIsCopy(s, o, inputs, k);
    FragmentFields(pkts, link, transportMtu, last, a, b);
    SequencesUnique(pkts, last, link.modulus, a, b, id, i);
    PassedOn(peer, inputs, 0, k);
    e := Reassembler.Arrival(peer.endpoint, inputs[k].packet, inputs[k].deadline);
  }

  /** Under the key of a packet the reassembler sees only copies of its fragments, and its timer. */
  lemma OnlyOwnCopies(s: State, o: Options, link: LinkService.Options, transportMtu: int, last: nat, inputs: seq<Input>,
                      cfg: Reassembler.Config, peer: Peer, id: nat)
    requires Connected(s, o, link, transportMtu, last, inputs) && cfg.modulus == link.modulus
    requires id < |s.ledger.pkts| && s.ledger.pkts[id].frags != []
    ensures Deliveries.AllGenuine(cfg, KeyFor(s.ledger.pkts, last, link.modulus, peer.endpoint, id),
                                  s.ledger.pkts[id].frags, ToReassembler(peer, inputs))
  {
    var pkts := s.ledger.pkts;
    var key := KeyFor(pkts, last, link.modulus, peer.endpoint, id);
    forall e | e in ToReassembler(peer, inputs) && e.Arrival? && RoundTrip.Touches(cfg, key, e)
      ensures Deliveries.IsCopy(key, pkts[id].frags, e)
    {
      var k := EventOrigin(peer, inputs, 0, e);
      var a, b := InputIsCopy(s, o, inputs, k);
      TouchesOwnPacket(pkts, link, transportMtu, last, cfg, peer.endpoint, id, a, b, e);
      assert RoundTrip.CopyArrives(key, pkts[id].frags, e, b);
    }
  }

  // ---------------------------------------------------------------- what the peer makes of a packet

  /** The peer lets the packet through: it takes that many fragments, reassembly is on if there are several, and
      the payload can be parsed. */
  predicate Deliverable(p: NetPacket, cfg: Reassembler.Config, peer: Peer)
  {
    && |p.frags| <= cfg.nMaxFragments && (|p.frags| == 1 || peer.allowReassembly)
    && p.pkt.fragment.Some? && Reassembler.Parses(p.pkt.fragment.value)
  }

  /** A packet of the sender, and how the peer stands to it. */
  ghost predicate Transfer(s: State, o: Options, link: LinkService.Options, transportMtu: int, last: nat,
                           inputs: seq<Input>, cfg: Reassembler.Config, peer: Peer, id: nat)
  {
    && Connected(s, o, link, transportMtu, last, inputs) && cfg.modulus == link.modulus
    && id < |s.ledger.pkts| && Deliverable(s.ledger.pkts[id], cfg, peer)
  }

  /** The reassembler hands the whole packet `p` up, with the headers of `p`, at most marked on the way. */
  predicate Delivers(outcome: Reassembler.Outcome, p: Packet)
    requires p.fragment.Some?
  {
    && outcome.Delivered? && outcome.netPkt == p.fragment.value && outcome.firstFrag.headers == p.headers
    && (outcome.firstFrag.congestionMark == p.congestionMark || outcome.firstFrag.congestionMark == Some(1))
  }

  lemma KeyIsNext(pkts: seq<NetPacket>, last: nat, modulus: nat, endpoint: nat, id: nat)
    requires modulus > 0 && id < |pkts|
    ensures KeyFor(pkts, last, modulus, endpoint, id)
            == Reassembler.Key(endpoint, (LastSequence(pkts[..id], last, modulus) + 1) % modulus)
  {
    LastSequenceIsTotal(pkts[..id], last, modulus);
    NextResidue(LastSequence(pkts[..id], last, modulus), last + Total(pkts[..id]), 1, modulus);
  }

  lemma CutPacket(p: Packet, link: LinkService.Options, transportMtu: int, l: nat, cfg: Reassembler.Config,
                  endpoint: nat, frags: seq<Packet>)
    requires LinkService.Usable(link, transportMtu) && Fragmenter.Unfragmented(p) && cfg.modulus == link.modulus
    requires LinkService.Fragmented(link, transportMtu, p).Some?
    requires frags == RoundTrip.WithSequences(LinkService.Fragmented(link, transportMtu, p).value, l, link.modulus)
    requires 2 <= |frags| <= cfg.nMaxFragments
    ensures RoundTrip.FragmentsOf(cfg, Reassembler.Key(endpoint, (l + 1) % link.modulus), frags)
    ensures Reassembler.Concat(frags) == p.fragment.value
    ensures frags[0].headers == p.headers && frags[0].congestionMark == p.congestionMark
  {
    RoundTrip.SentFragments(p, LinkService.FragmentMtu(link, transportMtu), link.nMaxFragments, l, cfg, endpoint);
  }

  lemma UncutPacket(p: Packet, link: LinkService.Options, transportMtu: int, l: nat, cfg: Reassembler.Config,
                    frags: seq<Packet>)
    requires LinkService.Usable(link, transportMtu) && Fragmenter.Unfragmented(p)
    requires LinkService.Fragmented(link, transportMtu, p).Some?
    requires frags == RoundTrip.WithSequences(LinkService.Fragmented(link, transportMtu, p).value, l, link.modulus)
    requires |frags| == 1 <= cfg.nMaxFragments
    ensures Deliveries.Uncut(cfg, frags) && Reassembler.Concat(frags) == p.fragment.value
    ensures frags[0].headers == p.headers && frags[0].congestionMark == p.congestionMark
  {
    PlainFields(p, link, transportMtu, 0);
    assert Reassembler.Concat(frags) == Reassembler.Concat(frags[..0]) + Reassembler.Bytes(frags[0]);
  }

  /** The fragments of a packet make it up, and the reassembler can tell. */
  lemma PacketIsSendable(pkts: seq<NetPacket>, link: LinkService.Options, transportMtu: int, last: nat,
                         cfg: Reassembler.Config, peer: Peer, id: nat)
    requires Sender(pkts, link, transportMtu, last) && cfg.modulus == link.modulus && id < |pkts|
    requires Deliverable(pkts[id], cfg, peer)
    ensures Deliveries.Sendable(cfg, KeyFor(pkts, last, link.modulus, peer.endpoint, id), pkts[id].frags)
    ensures pkts[id].frags != [] && Reassembler.Concat(pkts[id].frags) == pkts[id].pkt.fragment.value
    ensures pkts[id].frags[0].headers == pkts[id].pkt.headers
    ensures pkts[id].frags[0].congestionMark == pkts[id].pkt.congestionMark
  {
    assert MadeByLinkService(pkts, id, link, transportMtu, last);
    FragmentsExist(pkts, link, transportMtu, last, id);
    var l := LastSequence(pkts[..id], last, link.modulus);
    if |pkts[id].frags| == 1 {
      UncutPacket(pkts[id].pkt, link, transportMtu, l, cfg, pkts[id].frags);
    } else {
      KeyIsNext(pkts, last, link.modulus, peer.endpoint, id);
      CutPacket(pkts[id].pkt, link, transportMtu, l, cfg, peer.endpoint, pkts[id].frags);
    }
  }

  /** How often the peer has delivered packet `id`. */
  ghost function TimesDelivered(pkts: seq<NetPacket>, link: LinkService.Options, last: nat, inputs: seq<Input>,
                                cfg: Reassembler.Config, peer: Peer, id: nat): nat
    requires cfg.modulus == link.modulus > 0 && id < |pkts|
  {
    Deliveries.Deliveries(cfg, KeyFor(pkts, last, link.modulus, peer.endpoint, id), pkts[id].frags,
                          ToReassembler(peer, inputs))
  }

  /** For every run and any timeouts: the peer delivers a packet exactly as often as the copies of its fragments that
      pass the filter make up a complete set, and each time it delivers the whole packet. */
  lemma DeliveredPerRound(s: State, o: Options, link: LinkService.Options, transportMtu: int, last: nat,
                          inputs: seq<Input>, cfg: Reassembler.Config, peer: Peer, id: nat)
    requires Transfer(s, o, link, transportMtu, last, inputs, cfg, peer, id)
    ensures var pkts, events := s.ledger.pkts, ToReassembler(peer, inputs);
            var key := KeyFor(pkts, last, link.modulus, peer.endpoint, id);
            && TimesDelivered(pkts, link, last, inputs, cfg, peer, id) == Deliveries.Rounds(key, pkts[id].frags, events)
            && forall k :: 0 <= k < |events| && Deliveries.IsCopy(key, pkts[id].frags, events[k]) ==>
                 var outcome := Reassembler.OutcomeOf(cfg, events, k);
                 outcome.Delivered? ==> Delivers(outcome, pkts[id].pkt)
  {
    var pkts, events := s.ledger.pkts, ToReassembler(peer, inputs);
    var key := KeyFor(pkts, last, link.modulus, peer.endpoint, id);
    PacketIsSendable(pkts, link, transportMtu, last, cfg, peer, id);
    OnlyOwnCopies(s, o, link, transportMtu, last, inputs, cfg, peer, id);
    Deliveries.DeliveriesAreRounds(cfg, key, pkts[id].frags, events);
  }

  // ---------------------------------------------------------------- at least once

  /** Every fragment of a packet that the peer has received whole has passed. */
  lemma AllPassed(s: State, o: Options, link: LinkService.Options, transportMtu: int, last: nat,
                  inputs: seq<Input>, cfg: Reassembler.Config, peer: Peer, id: nat)
    requires Transfer(s, o, link, transportMtu, last, inputs, cfg, peer, id)
    requires AckSoundness.PeerHasAll(s.ledger, PacketsIn(inputs), id)
    ensures var pkts := s.ledger.pkts;
            RoundTrip.Arrived(KeyFor(pkts, last, link.modulus, peer.endpoint, id), pkts[id].frags,
                              ToReassembler(peer, inputs)) == RoundTrip.Upto(|pkts[id].frags|)
  {
    var pkts := s.ledger.pkts;
    var key, frags := KeyFor(pkts, last, link.modulus, peer.endpoint, id), pkts[id].frags;
    forall i | i in RoundTrip.Upto(|frags|) ensures RoundTrip.Copied(key, frags, ToReassembler(peer, inputs), i) {
      assert frags[i] in frags;
      var p :| p in PacketsIn(inputs) && CopyOf(frags[i], p);
      FragmentFields(pkts, link, transportMtu, last, id, i);
      var e := FragmentPasses(s, o, link, transportMtu, last, inputs, peer, id, i, p);
      assert RoundTrip.CopyArrives(key, frags, e, i);
    }
  }

  lemma NoTimeoutFrom(peer: Peer, inputs: seq<Input>, n: nat, key: Reassembler.Key)
    requires n <= |inputs| && Timeout(key) !in inputs[n..]
    ensures Reassembler.Timeout(key) !in EventsFrom(peer, inputs, n)
  {
    forall k | n <= k < |inputs| ensures inputs[k] != Timeout(key) {
      assert inputs[n..][k - n] == inputs[k];
    }
    if Reassembler.Timeout(key) in EventsFrom(peer, inputs, n) {
      var k := EventOrigin(peer, inputs, n, Reassembler.Timeout(key));
    }
  }

  lemma ReceivedIsDelivered(s: State, o: Options, link: LinkService.Options, transportMtu: int, last: nat,
                            inputs: seq<Input>, cfg: Reassembler.Config, peer: Peer, id: nat)
    requires Transfer(s, o, link, transportMtu, last, inputs, cfg, peer, id)
    requires AckSoundness.PeerHasAll(s.ledger, PacketsIn(inputs), id)
    requires Timeout(KeyFor(s.ledger.pkts, last, link.modulus, peer.endpoint, id)) !in inputs
    ensures TimesDelivered(s.ledger.pkts, link, last, inputs, cfg, peer, id) > 0
  {
    var pkts := s.ledger.pkts;
    var key := KeyFor(pkts, last, link.modulus, peer.endpoint, id);
    PacketIsSendable(pkts, link, transportMtu, last, cfg, peer, id);
    DeliveredPerRound(s, o, link, transportMtu, last, inputs, cfg, peer, id);
    AllPassed(s, o, link, transportMtu, last, inputs, cfg, peer, id);
    assert inputs[0..] == inputs;
    NoTimeoutFrom(peer, inputs, 0, key);
    Deliveries.RoundsNeedAll(key, pkts[id].frags, ToReassembler(peer, inputs));
  }

  /** The packets that came in over a joint run, and the sender x of the run. */
  ghost predicate RunOf(ox: Options, oy: Options, events: seq<AckSoundness.SystemEvent>, link: LinkService.Options,
                        transportMtu: int, last: nat, inputs: seq<Input>, s: State)
  {
    && ox.modulus > 0 && oy.modulus > 0
    && var sys := AckSoundness.SystemRun(ox, oy, events);
    && sys.Some? && s == sys.value.x.state && PacketsIn(inputs) == sys.value.y.got
    && |s.ledger.log| <= ox.modulus && Sender(s.ledger.pkts, link, transportMtu, last)
  }

  /** Across a network that loses, duplicates, reorders and marks but does not forge: in every run in which the
      sender x has used at most as many TxSequences and Sequences as there are, a packet that x counts as
      acknowledged or retransmitted and that the peer lets through has been delivered whole at least once, for
      instance at event `k` of its reassembler, unless the drop timer of that packet fired. */
  lemma CountedIsDelivered(ox: Options, oy: Options, events: seq<AckSoundness.SystemEvent>, link: LinkService.Options,
                           transportMtu: int, last: nat, inputs: seq<Input>, s: State, cfg: Reassembler.Config,
                           peer: Peer, id: nat) returns (k: nat)
    requires RunOf(ox, oy, events, link, transportMtu, last, inputs, s) && cfg.modulus == link.modulus
    requires id < |s.ledger.pkts| && Received(s.ledger.pkts[id].status) && Deliverable(s.ledger.pkts[id], cfg, peer)
    requires Timeout(KeyFor(s.ledger.pkts, last, link.modulus, peer.endpoint, id)) !in inputs
    ensures Transfer(s, ox, link, transportMtu, last, inputs, cfg, peer, id)
    ensures TimesDelivered(s.ledger.pkts, link, last, inputs, cfg, peer, id) > 0
    ensures k < |ToReassembler(peer, inputs)|
    ensures Delivers(Reassembler.OutcomeOf(cfg, ToReassembler(peer, inputs), k), s.ledger.pkts[id].pkt)
  {
    AckSoundness.AckSoundness(ox, oy, events, id);
    AckSoundness.SystemRunInv(ox, oy, events);
    ReceivedIsDelivered(s, ox, link, transportMtu, last, inputs, cfg, peer, id);
    DeliveredPerRound(s, ox, link, transportMtu, last, inputs, cfg, peer, id);
    k := Deliveries.DeliveryEvent(cfg, KeyFor(s.ledger.pkts, last, link.modulus, peer.endpoint, id),
                                  s.ledger.pkts[id].frags, ToReassembler(peer, inputs));
  }

  // ---------------------------------------------------------------- at most how often

  /** How many packets with Sequence `s` the filter let through. */
  function NewCount(inputs: seq<Input>, s: nat): nat
  {
    if inputs == [] then 0
    else
      var before, i := inputs[..|inputs| - 1], inputs[|inputs| - 1];
      NewCount(before, s) + if IsFiltered(i) && i.packet.sequence.value == s && IsNew(before, i) then 1 else 0
  }

  /** Packets with a Fragment have a TxSequence. */
  predicate AllNumbered(inputs: seq<Input>)
  {
    forall i :: i in inputs && i.Incoming? && i.packet.fragment.Some? ==> i.packet.txSequence.Some?
  }

  lemma {:induction false} CopiesAreNew(peer: Peer, inputs: seq<Input>, key: Reassembler.Key, frags: seq<Packet>,
                                        i: nat)
    requires AllNumbered(inputs) && i < |frags| && frags[i].sequence.Some?
    ensures Deliveries.CopyCount(key, frags, i, ToReassembler(peer, inputs))
            <= NewCount(inputs, frags[i].sequence.value)
  {
    if inputs != [] {
      var before, last := inputs[..|inputs| - 1], inputs[|inputs| - 1];
      assert inputs == before + [last] && last in inputs;
      CopiesAreNew(peer, before, key, frags, i);
      CopyCountNext(key, frags, i, ToReassembler(peer, before), EventsOf(peer, before, last));
    }
  }

  lemma CopyCountNext(key: Reassembler.Key, frags: seq<Packet>, i: nat, events: seq<Reassembler.Event>,
                      more: seq<Reassembler.Event>)
    requires |more| <= 1
    ensures Deliveries.CopyCount(key, frags, i, events + more) == Deliveries.CopyCount(key, frags, i, events)
              + if more != [] && RoundTrip.CopyArrives(key, frags, more[0], i) then 1 else 0
  {
    if more == [] {
      assert events + more == events;
    } else {
      assert (events + more)[..|events|] == events && (events + more)[|events|] == more[0];
    }
  }

  lemma AllAreNumbered(s: State, o: Options, inputs: seq<Input>)
    requires Inv(s, o) && AckSoundness.Carried(s.sent, PacketsIn(inputs))
    ensures AllNumbered(inputs)
  {
    forall i | i in inputs && i.Incoming? && i.packet.fragment.Some? ensures i.packet.txSequence.Some? {
      var k :| 0 <= k < |inputs| && inputs[k] == i;
      var a, b := InputIsCopy(s, o, inputs, k);
    }
  }

  /** A packet is delivered no more often than the filter lets the Sequence of any one of its fragments through. */
  lemma DeliveredAtMost(s: State, o: Options, link: LinkService.Options, transportMtu: int, last: nat,
                        inputs: seq<Input>, cfg: Reassembler.Config, peer: Peer, id: nat, i: nat)
    requires Transfer(s, o, link, transportMtu, last, inputs, cfg, peer, id) && i < |s.ledger.pkts[id].frags|
    ensures s.ledger.pkts[id].frags[i].sequence.Some?
    ensures TimesDelivered(s.ledger.pkts, link, last, inputs, cfg, peer, id)
            <= NewCount(inputs, s.ledger.pkts[id].frags[i].sequence.value)
  {
    var pkts := s.ledger.pkts;
    var key := KeyFor(pkts, last, link.modulus, peer.endpoint, id);
    DeliveredPerRound(s, o, link, transportMtu, last, inputs, cfg, peer, id);
    FragmentFields(pkts, link, transportMtu, last, id, i);
    Deliveries.RoundsTakeCopies(key, pkts[id].frags, i, ToReassembler(peer, inputs));
    AllAreNumbered(s, o, inputs);
    CopiesAreNew(peer, inputs, key, pkts[id].frags, i);
  }

  // ---------------------------------------------------------------- exactly once

  /** All arrivals of Sequence `s` lie within `r` of each other, and no RTO is below `r`. */
  predicate Prompt(history: seq<DuplicateFilter.Arrival>, s: nat, r: nat)
  {
    && (forall k :: 0 <= k < |history| ==> r <= history[k].rto)
    && forall i, j :: 0 <= i < j < |history| && history[i].seq_ == s && history[j].seq_ == s ==>
         history[j].now <= history[i].now + r
  }

  lemma {:induction false} ArrivalsPrefix(inputs: seq<Input>, k: nat)
    requires k < |inputs| && IsFiltered(inputs[k])
    ensures var m := |Arrivals(inputs[..k])|;
            && m < |Arrivals(inputs)| && Arrivals(inputs)[..m] == Arrivals(inputs[..k])
            && Arrivals(inputs)[m].seq_ == inputs[k].packet.sequence.value
  {
    var before := inputs[..|inputs| - 1];
    if k < |before| {
      assert before[..k] == inputs[..k] && before[k] == inputs[k];
      ArrivalsPrefix(before, k);
    }
  }

  lemma {:induction false} NewInput(inputs: seq<Input>, s: nat) returns (k: nat)
    requires NewCount(inputs, s) > 0
    ensures k < |inputs| && IsFiltered(inputs[k]) && inputs[k].packet.sequence.value == s
    ensures IsNew(inputs[..k], inputs[k])
  {
    var before, i := inputs[..|inputs| - 1], inputs[|inputs| - 1];
    if IsFiltered(i) && i.packet.sequence.value == s && IsNew(before, i) {
      k := |before|;
    } else {
      k := NewInput(before, s);
      assert inputs[k] == before[k] && inputs[..k] == before[..k];
    }
  }

  /** The second of two prompt arrivals is no longer new. */
  lemma PromptIsDuplicate(inputs: seq<Input>, k: nat, l: nat, r: nat)
    requires k < l < |inputs| && IsFiltered(inputs[k]) && IsFiltered(inputs[l]) && IsNew(inputs[..k], inputs[k])
    requires inputs[k].packet.sequence == inputs[l].packet.sequence
    requires DuplicateFilter.ClockMonotone(Arrivals(inputs))
    requires Prompt(Arrivals(inputs), inputs[k].packet.sequence.value, r)
    ensures !IsNew(inputs[..l], inputs[l])
  {
    var history := Arrivals(inputs);
    ArrivalsPrefix(inputs, k);
    ArrivalsPrefix(inputs, l);
    ArrivalsPrefix(inputs[..l], k);
    assert inputs[..l][..k] == inputs[..k];
    DuplicateFilter.NoMissedDuplicate(history, |Arrivals(inputs[..k])|, |Arrivals(inputs[..l])|, r);
  }

  lemma {:induction false} PromptIsOnce(inputs: seq<Input>, n: nat, s: nat, r: nat)
    requires DuplicateFilter.ClockMonotone(Arrivals(inputs)) && Prompt(Arrivals(inputs), s, r) && n <= |inputs|
    ensures NewCount(inputs[..n], s) <= 1
    decreases n
  {
    if n > 0 {
      PromptIsOnce(inputs, n - 1, s, r);
      assert inputs[..n][..n - 1] == inputs[..n - 1];
      var i := inputs[n - 1];
      if IsFiltered(i) && i.packet.sequence.value == s && NewCount(inputs[..n - 1], s) > 0 {
        var k := NewInput(inputs[..n - 1], s);
        assert inputs[..n - 1][..k] == inputs[..k];
        PromptIsDuplicate(inputs, k, n - 1, r);
      }
    }
  }

  /** Under the same conditions the packet is delivered exactly once if the arrivals of some one of its fragments lie
      within the RTO of each other. */
  lemma CountedIsDeliveredOnce(ox: Options, oy: Options, events: seq<AckSoundness.SystemEvent>,
                               link: LinkService.Options, transportMtu: int, last: nat, inputs: seq<Input>, s: State,
                               cfg: Reassembler.Config, peer: Peer, id: nat, i: nat, r: nat)
    requires RunOf(ox, oy, events, link, transportMtu, last, inputs, s) && cfg.modulus == link.modulus
    requires id < |s.ledger.pkts| && Received(s.ledger.pkts[id].status) && Deliverable(s.ledger.pkts[id], cfg, peer)
    requires Timeout(KeyFor(s.ledger.pkts, last, link.modulus, peer.endpoint, id)) !in inputs
    requires i < |s.ledger.pkts[id].frags| && s.ledger.pkts[id].frags[i].sequence.Some?
    requires DuplicateFilter.ClockMonotone(Arrivals(inputs))
    requires Prompt(Arrivals(inputs), s.ledger.pkts[id].frags[i].sequence.value, r)
    ensures TimesDelivered(s.ledger.pkts, link, last, inputs, cfg, peer, id) == 1
  {
    var k := CountedIsDelivered(ox, oy, events, link, transportMtu, last, inputs, s, cfg, peer, id);
    DeliveredAtMost(s, ox, link, transportMtu, last, inputs, cfg, peer, id, i);
    PromptIsOnce(inputs, |inputs|, s.ledger.pkts[id].frags[i].sequence.value, r);
    assert inputs[..|inputs|] == inputs;
  }

  // ---------------------------------------------------------------- again

  /** A copy of `f` is passed on from position `n` of the inputs on. */
  ghost predicate PassesFrom(peer: Peer, inputs: seq<Input>, n: nat, f: Packet)
  {
    exists k :: n <= k < |inputs| && IsPassed(peer, inputs, k) && CopyOf(f, inputs[k].packet)
  }

  lemma CopiedFrom(peer: Peer, inputs: seq<Input>, n: nat, key: Reassembler.Key, frags: seq<Packet>, i: nat)
    requires n <= |inputs| && i < |frags| && key.endpoint == peer.endpoint
    ensures RoundTrip.Copied(key, frags, EventsFrom(peer, inputs, n), i) <==> PassesFrom(peer, inputs, n, frags[i])
  {
    if RoundTrip.Copied(key, frags, EventsFrom(peer, inputs, n), i) {
      var e :| e in EventsFrom(peer, inputs, n) && RoundTrip.CopyArrives(key, frags, e, i);
      var k := EventOrigin(peer, inputs, n, e);
    }
    if PassesFrom(peer, inputs, n, frags[i]) {
      var k :| n <= k < |inputs| && IsPassed(peer, inputs, k) && CopyOf(frags[i], inputs[k].packet);
      PassedOn(peer, inputs, n, k);
      var e := Reassembler.Arrival(peer.endpoint, inputs[k].packet, inputs[k].deadline);
      assert RoundTrip.CopyArrives(key, frags, e, i);
    }
  }

  lemma ArrivedFrom(peer: Peer, inputs: seq<Input>, n: nat, key: Reassembler.Key, frags: seq<Packet>)
    requires n <= |inputs| && key.endpoint == peer.endpoint
    ensures RoundTrip.Arrived(key, frags, EventsFrom(peer, inputs, n)) == RoundTrip.Upto(|frags|)
            <==> forall i :: 0 <= i < |frags| ==> PassesFrom(peer, inputs, n, frags[i])
  {
    var all := RoundTrip.Arrived(key, frags, EventsFrom(peer, inputs, n));
    forall i | 0 <= i < |frags| ensures i in all <==> PassesFrom(peer, inputs, n, frags[i]) {
      CopiedFrom(peer, inputs, n, key, frags, i);
      assert i in RoundTrip.Upto(|frags|);
    }
    assert forall i :: i in all ==> i in RoundTrip.Upto(|frags|);
    if forall i :: 0 <= i < |frags| ==> PassesFrom(peer, inputs, n, frags[i]) {
      assert forall i :: i in RoundTrip.Upto(|frags|) ==> i in all;
    } else {
      var i :| 0 <= i < |frags| && !PassesFrom(peer, inputs, n, frags[i]);
      assert i in RoundTrip.Upto(|frags|) && i !in all;
    }
  }

  /** When the peer holds no part of the packet after the first `n` inputs, as right after a delivery, the others
      deliver it again, if its drop timer does not fire, if and only if a copy of each of its fragments passes the
      filter again. */
  lemma DeliveredAgain(s: State, o: Options, link: LinkService.Options, transportMtu: int, last: nat,
                       inputs: seq<Input>, n: nat, cfg: Reassembler.Config, peer: Peer, id: nat)
    requires Transfer(s, o, link, transportMtu, last, inputs, cfg, peer, id) && n <= |inputs|
    requires var key := KeyFor(s.ledger.pkts, last, link.modulus, peer.endpoint, id);
             && (|s.ledger.pkts[id].frags| == 1 || key !in Reassembler.Run(cfg, ToReassembler(peer, inputs[..n])))
             && Timeout(key) !in inputs[n..]
    ensures var pkts := s.ledger.pkts;
            TimesDelivered(pkts, link, last, inputs, cfg, peer, id)
              > TimesDelivered(pkts, link, last, inputs[..n], cfg, peer, id)
            <==> forall i :: 0 <= i < |pkts[id].frags| ==> PassesFrom(peer, inputs, n, pkts[id].frags[i])
  {
    var pkts := s.ledger.pkts;
    var key := KeyFor(pkts, last, link.modulus, peer.endpoint, id);
    PacketIsSendable(pkts, link, transportMtu, last, cfg, peer, id);
    OnlyOwnCopies(s, o, link, transportMtu, last, inputs, cfg, peer, id);
    EventsSplit(peer, inputs, n);
    NoTimeoutFrom(peer, inputs, n, key);
    Deliveries.DeliveredAgain(cfg, key, pkts[id].frags, ToReassembler(peer, inputs[..n]), EventsFrom(peer, inputs, n));
    ArrivedFrom(peer, inputs, n, key, pkts[id].frags);
  }

  /** A peer with reassembly switched off never delivers a packet that was cut, whatever comes in. */
  lemma NeverWithoutReassembly(pkts: seq<NetPacket>, link: LinkService.Options, transportMtu: int, last: nat,
                               inputs: seq<Input>, cfg: Reassembler.Config, peer: Peer, id: nat)
    requires Sender(pkts, link, transportMtu, last) && cfg.modulus == link.modulus
    requires id < |pkts| && |pkts[id].frags| > 1 && !peer.allowReassembly
    ensures TimesDelivered(pkts, link, last, inputs, cfg, peer, id) == 0
  {
    var key, frags := KeyFor(pkts, last, link.modulus, peer.endpoint, id), pkts[id].frags;
    forall e | e in ToReassembler(peer, inputs) ensures !Deliveries.IsCopy(key, frags, e) {
      var k := EventOrigin(peer, inputs, 0, e);
      forall i | 0 <= i < |frags| ensures !RoundTrip.CopyArrives(key, frags, e, i) {
        FragmentFields(pkts, link, transportMtu, last, id, i);
      }
    }
    Deliveries.NoCopyNoDelivery(cfg, key, frags, ToReassembler(peer, inputs));
  }

  // ---------------------------------------------------------------- a packet that is delivered twice

  const RTO: nat := 10

  /** A packet that was not cut, with the TxSequence of a first transmission or of a retransmission. */
  function Numbered(sequence: nat, txSequence: nat): Packet
  {
    AckQueue.NumberedFragment([1, 0], sequence, txSequence, None, None)
  }

  /** Packets 3 and 4 come in at times 0 and 50. The Ack of packet 3 is lost, and its retransmission comes in at
      time 100. The network repeats nothing. */
  predicate LostAck(inputs: seq<Input>)
  {
    && |inputs| == 3 && inputs[0] == Incoming(Numbered(3, 0), 0, RTO, 0)
    && inputs[1] == Incoming(Numbered(4, 1), 50, RTO, 0) && inputs[2] == Incoming(Numbered(3, 2), 100, RTO, 0)
  }

  lemma LostAckArrivals(inputs: seq<Input>)
    requires LostAck(inputs)
    ensures Arrivals(inputs[..0]) == [] && Arrivals(inputs[..1]) == [DuplicateFilter.Arrival(3, 0, RTO)]
    ensures Arrivals(inputs[..2]) == [DuplicateFilter.Arrival(3, 0, RTO), DuplicateFilter.Arrival(4, 50, RTO)]
  {
    assert inputs[..1][..0] == inputs[..0] && inputs[..2][..1] == inputs[..1];
  }

  /** An arrival at time 50 makes the filter forget one at time 0. */
  lemma ForgottenAt50(history: seq<DuplicateFilter.Arrival>)
    requires |history| == 3 && history[0] == DuplicateFilter.Arrival(3, 0, RTO)
    requires history[1] == DuplicateFilter.Arrival(4, 50, RTO) && history[2] == DuplicateFilter.Arrival(3, 100, RTO)
    ensures 3 !in DuplicateFilter.After(history[..2]).seqs
  {
    assert history[..0] == [];
    DuplicateFilter.ReportedExactly(history, 0, 2, RTO);
  }

  lemma LostAckIsNew(inputs: seq<Input>)
    requires LostAck(inputs)
    ensures IsNew(inputs[..0], inputs[0]) && IsNew(inputs[..1], inputs[1]) && IsNew(inputs[..2], inputs[2])
  {
    LostAckArrivals(inputs);
    var history := Arrivals(inputs[..2]) + [DuplicateFilter.Arrival(3, 100, RTO)];
    assert history[..2] == Arrivals(inputs[..2]);
    ForgottenAt50(history);
    DuplicateFilter.AfterCarried(Arrivals(inputs[..1]));
  }

  lemma OneMoreEvent(peer: Peer, inputs: seq<Input>, n: nat)
    requires n < |inputs| && IsPassed(peer, inputs, n)
    ensures ToReassembler(peer, inputs[..n + 1]) == ToReassembler(peer, inputs[..n])
              + [Reassembler.Arrival(peer.endpoint, inputs[n].packet, inputs[n].deadline)]
  {
    assert inputs[..n + 1][..n] == inputs[..n];
  }

  lemma NumberedIsDelivered(t: Reassembler.Table, cfg: Reassembler.Config, e: Reassembler.Event, sequence: nat, tx: nat)
    requires cfg.modulus > 0 && cfg.nMaxFragments > 0 && Reassembler.WellShaped(t)
    requires e.Arrival? && e.packet == Numbered(sequence, tx)
    ensures Reassembler.Step(t, cfg, e).1 == Reassembler.Delivered([1, 0], e.packet)
  {
  }

  /** The peer delivers packet 3 twice, the same octets each time. */
  lemma DeliveredTwice(cfg: Reassembler.Config, peer: Peer, inputs: seq<Input>)
    requires cfg.modulus > 0 && cfg.nMaxFragments > 0 && LostAck(inputs)
    ensures CopyOf(inputs[0].packet, inputs[2].packet)
    ensures var events := ToReassembler(peer, inputs);
            && |events| == 3
            && Reassembler.OutcomeOf(cfg, events, 0) == Reassembler.Delivered([1, 0], inputs[0].packet)
            && Reassembler.OutcomeOf(cfg, events, 2) == Reassembler.Delivered([1, 0], inputs[2].packet)
  {
    LostAckIsNew(inputs);
    OneMoreEvent(peer, inputs, 0);
    OneMoreEvent(peer, inputs, 1);
    OneMoreEvent(peer, inputs, 2);
    assert inputs[..3] == inputs;
    var events := ToReassembler(peer, inputs);
    NumberedIsDelivered(Reassembler.Run(cfg, events[..0]), cfg, events[0], 3, 0);
    NumberedIsDelivered(Reassembler.Run(cfg, events[..2]), cfg, events[2], 3, 2);
  }
}
