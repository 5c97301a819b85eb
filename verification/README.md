# A verified model of the NFD link service and its neighbours

This project models, in Dafny, the NDNLPv2 link service of the Named Data Networking Forwarding Daemon and
four smaller parts of the daemon around it, and proves what they promise for every input and every run.

**The link service.** `LpReliability` is a sliding-window protocol. Every fragment sent gets a TxSequence that
wraps around at 2^64. Unacknowledged fragments live in a sorted map that is walked circularly from an iterator to
the oldest one. Acks ride on outgoing packets. A fragment counts as lost when enough later fragments were
acknowledged or when its retransmission timer fires, and is retransmitted under a new TxSequence until a limit
is reached, at which point its whole network packet is given up. The project has three layers:

- `reliability_spec.dfy` says what each operation does on transmission numbers that never wrap, with histories
  of what was sent, acknowledged and dropped; `reliability_invariants.dfy` proves what every event keeps, and
  `reliability_theorems.dfy` what that means (conservation, loss rule, retransmission bound, draining);
- `tx_window.dfy` and `reliability_store.dfy` show that the sorted map with its circular iterator, the lists of
  back-pointers, the timers and the counters refine that specification, for every modulus, so that wraparound is
  the normal case; `reliability_reachable.dfy` states what then holds of the stored fields after every run;
- `reliability.dfy` is the class itself, with the loops and in-place updates of the program, proved against the
  specification; `reliability_pending.dfy` holds the relations its loops need.

`ack_soundness.dfy` joins two such services by a network that may lose, duplicate and reorder packets but not
forge them. `ack_queue.dfy` is the piggybacking arithmetic, `duplicate_filter.dfy` the filter of recent Sequences.
`fragmenter.dfy`, `reassembler.dfy` and `round_trip.dfy` are the fragmenter, the reassembler and the proof that
they undo each other under reordering, repetition and interleaving. `deliveries.dfy` counts how often a packet is
delivered. `delivery.dfy` puts all of it together: a packet that the sender counts as received was delivered whole by
the reassembler of its peer, and it is known exactly when more than once. `link_service.dfy` and `congestion.dfy` are
the send path around them: MTU reserve, Sequences, congestion marking and the check before transmission.

**Around it.** `stream_transport.dfy` cuts a byte stream into TLV elements inside a fixed buffer;
`best_route.dfy` is the best-route strategy with exponential retransmission suppression; `name_tree.dfy` is the
pruned enumeration that a new next hop starts; `network.dfy` is the construction of address ranges from a prefix
length (section 3.1 of RFC 4632). The control law of the congestion marks follows sections 3.3 and 5.6 of RFC 8289.

`packets.dfy` holds the packet record and the sizes of TLV encodings, `tlv.dfy` the recogniser of the first
complete TLV element, `arithmetic.dfy` a few facts about remainders.

Conventions. The clock, the deadlines that the RTT estimator yields, the send-queue length and what arrives from
the network are parameters. An operation that throws `std::length_error` has the result `None` (or `ok == false`);
invariants are for runs in which that has not happened. A timer is a key with a deadline, a `shared_ptr<NetPkt>` is
an identity in a map, and end() of a map is `None`.

Where the code and its comments disagree, the model follows the code:

- The comment in `piggyback` says that two octets are reserved for a longer TLV-LENGTH. The reserve is computed
  from the size of the whole packet instead of its TLV-LENGTH, so packets of 253 and 254 octets can end up to two
  octets over the MTU (`AckQueue.PiggybackFits`, `AckQueue.PiggybackCanExceedMtu`).
- `checkCongestionLevel` puts its mark on after `piggyback`, so a packet filled with Acks can go over the MTU
  (`LinkService.MarkedFits`, `LinkService.MarkAfterPiggybackCanExceedMtu`).
- `doesContain` compares IPv6 addresses with their scope id, so a scoped address equal to the upper end of a range
  is outside it (`Network.SubnetMembership`, `Network.ScopedAddressLeftOut`).
- `sendNetPacket` subtracts its two reserves of 12 octets one after the other and takes -1 for "no limit". An
  effective MTU of 11 with reliability or marking on, and one of 23 with both on, turn into that value, and the
  packet is passed on uncut (`LinkService.WhenReserveLiftsLimit`, `LinkService.ReserveCanLiftLimit`).
- The duplicate filter does not make delivery exactly-once. A retransmission after a lost Ack is delivered a second
  time when the filter has forgotten the first (`Delivery.DeliveredTwice`). A packet is delivered exactly as often as
  the copies that pass the filter make up a complete set (`Delivery.DeliveredPerRound`, `Delivery.DeliveredAgain`).
- A Sequence can be reported as a duplicate after its RTO is over: the check runs before the purge, and repeated
  entries can hold up the queue (`DuplicateFilter.ReportedExactly`, `DuplicateFilter.BlockedQueue`).

## Model

| member | source | states |
|---|---|---|
| AckSoundness.AckSoundness | daemon/face/lp-reliability.cpp:107-190 | For two link services joined by a network that loses, duplicates, reorders and marks but never forges: after every run in which an end used at most 2^64 TxSequences, whenever that end counts a packet as acknowledged or retransmitted, its peer's processIncomingPacket has received a copy of every fragment of it. |
| AckSoundness.SystemRunInv | daemon/face/lp-reliability.cpp:107-190 | Every joint run keeps: each TxSequence an end queued for acknowledgement came with a fragment it received, each transmission counted as acknowledged was named by an Ack received, and nothing is received that was not sent. |
| AckSoundness.AckedArrived | daemon/face/lp-reliability.cpp:115-168 | An acknowledged transmission did arrive at the peer: a received packet has its TxSequence and is a copy of the fragment that its number carried. |
| AckSoundness.AcksInOrder | daemon/face/lp-reliability.cpp:166-222 | After every run, the Acks of the packets sent, in order, followed by the queue are the TxSequences of the received packets with a Fragment, in order of arrival: each is acknowledged exactly once or still queued. |
| Delivery.CountedIsDelivered | daemon/face/generic-link-service.cpp:305-337 | End to end: in every joint run in which the sender used at most 2^64 TxSequences and Sequences, a packet that it counts as acknowledged or retransmitted was delivered at least once by the reassembler of its peer, byte for byte, with its own headers and at most marked on the way, if the drop timer of that packet did not fire and the peer lets it through (that many fragments, reassembly on if there are several, a payload that parses); the peer's duplicate filter never gets in the way. |
| Delivery.CountedIsDeliveredOnce | daemon/face/generic-link-service.cpp:305-337 | Under the same conditions the packet is delivered exactly once if the arrivals of some one of its fragments lie within the RTO of each other. |
| Delivery.DeliveredPerRound | daemon/face/generic-link-service.cpp:311-336 | For every run and any timeouts, the peer delivers a packet exactly as often as the copies of its fragments that pass the filter make up a complete set, counted from the last complete set or timeout; each time it delivers the whole packet. |
| Delivery.DeliveredAgain | daemon/face/generic-link-service.cpp:311-336 | When the peer holds no part of a packet, as after a delivery, later inputs without a timeout deliver it again if and only if a copy of each of its fragments passes the filter again. |
| Delivery.DeliveredAtMost | daemon/face/lp-reliability.cpp:170-184 | A packet is delivered no more often than the filter lets the Sequence of any one of its fragments through. |
| Delivery.DeliveredTwice | daemon/face/lp-reliability.cpp:170-184 | With an RTO of 10, packet 3 at time 0, packet 4 at time 50 and the retransmission of packet 3 at time 100: the peer delivers packet 3 twice, and the network repeated nothing. |
| Delivery.NeverWithoutReassembly | daemon/face/generic-link-service.cpp:324-328 | A peer with reassembly switched off never delivers a packet that was cut, whatever comes in. |
| Deliveries.DeliveriesAreRounds | daemon/face/lp-reassembler.cpp:77-155 | In every run of the reassembler in which nothing is forged under a packet's key, with any timeouts, deliveries of the packet and complete sets of copies of its fragments are equal in number, and each delivery is whole. |
| Deliveries.DeliveredAgain | daemon/face/lp-reassembler.cpp:107-113 | When no partial packet is held, further events without a timeout deliver the packet again if and only if they bring a copy of every fragment. |
| Delivery.FragmentPasses | daemon/face/lp-reliability.cpp:170-184 | Once a copy of a fragment that the peer accepts has come in, a copy of that very fragment has passed the duplicate filter to the reassembler. |
| Delivery.OnlyOwnCopies | daemon/face/lp-reassembler.cpp:77-83 | What arrives at the reassembler under the key of a packet are only copies of that packet's fragments. |
| Delivery.SequencesUnique | daemon/face/generic-link-service.cpp:146-152 | Among at most 2^64 fragments of any packets, the wrapped Sequence tells which fragment of which packet it is. |
| ReliabilityInvariants.StepInv | daemon/face/lp-reliability.cpp:65-406 | Each event that does not throw (sending, receiving, a timer firing, an idle packet) keeps the invariant of the sender: window order and span, TxSequences, links between fragments and packets, coverage of every fragment, retransmission counts, counts of later Acks, dropped Interests, order of what was sent, Ack order. |
| ReliabilityInvariants.RunInv | daemon/face/lp-reliability.cpp:65-406 | The invariant holds after every run. |
| ReliabilityInvariants.ProcessLostInv | daemon/face/lp-reliability.cpp:148-162 | The loop over the fragments that one Ack declared lost keeps the invariant even when several belong to one packet that is given up on the way; at its end no stored count has reached the threshold. |
| ReliabilityInvariants.AckAtInv | daemon/face/lp-reliability.cpp:139-146 | Taking one Ack (counting it for older fragments, removing the acknowledged one, settling its packet) keeps the invariant except that the fragments just declared lost are still to be handled. |
| ReliabilityTheorems.PacketConservation | daemon/face/lp-reliability.cpp:298-385 | After every run, packets given to handleOutgoing = nAcknowledged + nRetransmitted + nRetxExhausted + packets with a fragment in the window. |
| ReliabilityTheorems.OutcomesAreSound | daemon/face/lp-reliability.cpp:298-385 | After every run, onDroppedInterest has fired exactly once for each exhausted Interest and never for any other packet, and a packet counted as received had every one of its fragments acknowledged. |
| ReliabilityTheorems.RetransmissionBound | daemon/face/lp-reliability.cpp:278-361 | After every run, the packets handed to sendLpPacket that carry a fragment are the logged transmissions in the order of their TxSequences, each the right fragment with the right TxSequence, and no fragment is among them more than maxRetx + 1 times. |
| ReliabilityTheorems.LossRule | daemon/face/lp-reliability.cpp:251-275 | For thresholds of at least 1, an Ack declares a transmission lost if and only if that transmission was numbered before it and it is the threshold-th distinct later transmission acknowledged. |
| ReliabilityTheorems.StepDrains | daemon/face/lp-reliability.cpp:278-406 | Without new traffic, every timer firing and every matching Ack strictly lowers the sum of (maxRetx + 1 - retxCount) over the window, and every other event leaves the sender unchanged. |
| ReliabilityTheorems.WindowDrains | daemon/face/lp-reliability.cpp:278-406 | In every run without new traffic, the number of timer firings and matching Acks is at most that sum at the start, and a run that uses all of it ends with an empty window. |
| TxWindow.WalkIsAssignmentOrder | daemon/face/lp-reliability.cpp:251-275 | Walking the sorted map circularly from the iterator visits the fragments in the order in which their TxSequences were assigned, whatever the wraparound. |
| TxWindow.FullIsCollision | daemon/face/lp-reliability.cpp:225-233 | The next TxSequence equals that of the oldest fragment if and only if 2^64 numbers lie between them: the test in assignTxSequence detects exactly the exhausted range. |
| TxWindow.InsertRepresents | daemon/face/lp-reliability.cpp:82-99 | Inserting under a fresh TxSequence, and moving the iterator only when the map was empty, appends to the window. |
| TxWindow.EraseRepresents | daemon/face/lp-reliability.cpp:388-406 | Erasing a fragment and moving the iterator as deleteUnackedFrag does takes exactly that fragment out of the window and keeps the rest in order. |
| TxWindow.EndIffEmpty | daemon/face/lp-reliability.cpp:403-405 | The iterator is end() if and only if the map is empty, and the map has as many entries as the window. |
| ReliabilityReachable.WindowIsOrdered | daemon/face/lp-reliability.cpp:225-233 | After every run: the iterator is end() exactly when the map is empty, and the k-th step of the circular walk from it is the TxSequence of the k-th oldest unacknowledged transmission. |
| ReliabilityReachable.CountersConserve | daemon/face/lp-reliability.cpp:364-385 | After every run the stored counters add up: NetPkt objects created = nAcknowledged + nRetransmitted + nRetxExhausted + live NetPkt objects. |
| ReliabilityReachable.FieldsAgree | daemon/face/lp-reliability.cpp:92-102 | After every run the armed timers are exactly the keys of the map and each NetPkt's list is duplicate-free and equals the map entries that point back to it, which the methods of the class establish by keeping `Valid`; moreover every fragment's NetPkt is live and no live NetPkt has an empty list. |
| ReliabilityReachable.CountsBelowThreshold | daemon/face/lp-reliability.cpp:264-271 | Between events every stored count of later Acks is below the threshold, for thresholds of at least 1. |
| ReliabilityStore.AckRefines | daemon/face/lp-reliability.cpp:364-385 | What onLpPacketAcknowledged does to map, iterator, list, timers and counters is what the specification says of the window and the packet. |
| ReliabilityStore.GiveUpRefines | daemon/face/lp-reliability.cpp:298-320 | Erasing the other fragments of an exhausted packet one by one, then its own, leaves fields that hold the specified window, with one packet more counted as exhausted. |
| ReliabilityStore.ResendRefines | daemon/face/lp-reliability.cpp:321-358 | Inserting under the new TxSequence, replacing the list entry and erasing the old key leaves fields that hold the renumbered window, although the new key is put in before the old one goes. |
| ReliabilityStore.LostCallRefines | daemon/face/lp-reliability.cpp:278-361 | A call of onLpPacketLost leaves fields that hold what the specification says, and reports exactly the TxSequences that left the window. |
| ReliabilityStore.InsertCallRefines | daemon/face/lp-reliability.cpp:79-102 | One turn of the loop in handleOutgoing numbers the next transmission, or throws exactly when the range is exhausted. |
| Reliability.LpReliability.constructor | daemon/face/lp-reliability.cpp:36-44 | A new object holds the initial state: no fragment, counter one before zero. |
| Reliability.LpReliability.AssignTxSequence | daemon/face/lp-reliability.cpp:224-233 | The counter advances by one with wraparound, also when the range is exhausted and the call fails. |
| Reliability.LpReliability.DeleteUnackedFrag | daemon/face/lp-reliability.cpp:387-406 | The fragment and its timer go, and the iterator moves to the circular successor when it stood there. |
| Reliability.LpReliability.FindLostLpPackets | daemon/face/lp-reliability.cpp:250-275 | The walk ends; it raises the count of exactly the fragments numbered before the acknowledged one and returns exactly those that reach the threshold, oldest first. |
| Reliability.LpReliability.Piggyback | daemon/face/lp-reliability.cpp:192-222 | The oldest Acks that fit are appended to the packet in order and leave the queue; the number is the quotient of the space left by the size of an Ack. |
| Reliability.LpReliability.OnLpPacketAcknowledged | daemon/face/lp-reliability.cpp:363-385 | The fragment leaves the list of its NetPkt, the map and the timers; the last one of a packet counts it in nRetransmitted or nAcknowledged, depending on whether any fragment was retransmitted. |
| Reliability.LpReliability.GiveUp | daemon/face/lp-reliability.cpp:298-320 | All fragments of the packet and their timers go, the exhausted counter rises by one, and onDroppedInterest fires exactly for an Interest. |
| Reliability.LpReliability.Resend | daemon/face/lp-reliability.cpp:321-358 | The fragment moves to the next TxSequence with its timer re-armed and is sent with Acks attached; it fails exactly when the next TxSequence is that of the oldest fragment. |
| Reliability.LpReliability.OnLpPacketLost | daemon/face/lp-reliability.cpp:277-361 | Gives up when no retransmission is left and retransmits otherwise; returns the TxSequences removed. |
| Reliability.LpReliability.HandleLostPackets | daemon/face/lp-reliability.cpp:148-162 | onLpPacketLost is called exactly for the lost fragments still stored, never for one that an earlier call removed, and the state is the specified one. |
| Reliability.LpReliability.ProcessAcks | daemon/face/lp-reliability.cpp:114-163 | The Acks of a packet are taken in order, unknown ones ignored, as the specification says. |
| Reliability.LpReliability.CheckDuplicate | daemon/face/lp-reliability.cpp:170-184 | A Sequence is a duplicate if it is stored when it arrives; then expired ones are purged and this one recorded. |
| Reliability.LpReliability.ProcessIncomingPacket | daemon/face/lp-reliability.cpp:106-190 | From the fields after any run, the call is the specified receive event and leaves the fields after the longer run; it reports a duplicate as the filter says and arms the idle-Ack timer when an Ack is queued. |
| Reliability.LpReliability.HandleOutgoing | daemon/face/lp-reliability.cpp:64-104 | The fragments get consecutive TxSequences and are stored in order, or the call fails exactly where the specification says. |
| Reliability.LpReliability.SendFragments | daemon/face/generic-link-service.cpp:251-257 | handleOutgoing and the loop over sendLpPacket are the specified send event. |
| Reliability.LpReliability.OnRtoTimer | daemon/face/lp-reliability.cpp:92-94 | An armed timer that fires belongs to a stored transmission, and the call is the specified timer event for it. |
| Reliability.LpReliability.OnIdleAckTimer | daemon/face/lp-reliability.cpp:243-247 | On an unlimited or at least 16-octet MTU the loop ends with the queue empty, and the idle packets carry exactly the queued Acks in order. |
| AckQueue.AttachIsFifo | daemon/face/lp-reliability.cpp:205-221 | Attaching loses, repeats and reorders no Ack, and leaves the fragment alone. |
| AckQueue.PiggybackFits | daemon/face/lp-reliability.cpp:198-221 | For MTUs up to 65535, a packet that fit before still fits if and only if its size was not 253 or 254, or no Ack was attached, or two octets stay free; it is never more than two octets over. |
| AckQueue.PiggybackCanExceedMtu | daemon/face/lp-reliability.cpp:198-203 | An unfragmented numbered packet of 253 octets with an MTU of 265 and one queued Ack ends at 267 octets, and the third of three fragments, of 253 octets, with an MTU of 289 and three Acks at 291, whatever they carry. |
| AckQueue.IdleProgress | daemon/face/lp-reliability.cpp:243-247 | An idle packet takes an Ack off the queue if and only if the MTU is unlimited or at least 16. |
| ReliabilityPending.IdleLoopEnds | daemon/face/lp-reliability.cpp:243-247 | With Acks queued, some number of idle packets empties the queue if and only if the MTU is unlimited or at least 16: on every smaller MTU the loop of the idle-Ack timer never ends. |
| DuplicateFilter.NoFalseDuplicate | daemon/face/lp-reliability.cpp:170-184 | A Sequence is never reported as a duplicate unless an earlier packet carried it, although repeats leave repeated entries in the expiry queue. |
| DuplicateFilter.NoMissedDuplicate | daemon/face/lp-reliability.cpp:170-184 | With a clock that does not go back, a Sequence accepted as new at time t is reported as a duplicate at every arrival up to t + r, for any r that the RTO did not fall below meanwhile. |
| DuplicateFilter.ReportedExactly | daemon/face/lp-reliability.cpp:170-184 | With a clock that does not go back and a constant RTO r, a Sequence accepted as new at arrival i is reported at its next arrival j if and only if arrival j-1 came by t_i + r, provided no Sequence seen by arrival i comes again before j. |
| DuplicateFilter.Forgotten | daemon/face/lp-reliability.cpp:175-183 | For any traffic: a Sequence is accepted as new again if, since it last came, some arrival found every earlier arrival of every Sequence seen by then more than the RTO back. |
| DuplicateFilter.LateDuplicate | daemon/face/lp-reliability.cpp:173-181 | The check runs before the purge: Sequence 5 at times 0 and 100 with an RTO of 10 is reported. |
| DuplicateFilter.BlockedQueue | daemon/face/lp-reliability.cpp:177-183 | Repeats block the queue: with Sequences 1, 2, 1, 3, 1, 4, 5, 3 at times 0, 4, 5, 6, 11, 15, 17, 17 and an RTO of 10, the last is reported although the purge at time 17 ran after its RTO had ended at 16. |
| Fragmenter.SlicesCount | daemon/face/lp-fragmenter.cpp:112-140 | The closed form for the number of fragments equals the number of slices the loop cuts. |
| Fragmenter.SlowPathSplits | daemon/face/lp-fragmenter.cpp:85-115 | When the fast path does not apply and the MTU is not too small, there are at least two fragments. |
| Fragmenter.FragmentsJoin | daemon/face/lp-fragmenter.cpp:123-142 | The fragments are numbered 0 to n-1 of n, none is empty, their payloads join to the network packet, and the first keeps all other fields of the packet. |
| Fragmenter.MtuBudget | daemon/face/lp-fragmenter.cpp:45-115 | For every packet and effective MTU of at least 64, every fragment still fits after Sequence, TxSequence and CongestionMark are put on. |
| Fragmenter.Run | daemon/face/lp-fragmenter.cpp:78-143 | fragmentPacket with its slicing loop yields the specified fragments, or fails when the MTU is too small or the limit on fragments is passed. |
| Reassembler.ReassemblySafety | daemon/face/lp-reassembler.cpp:43-155 | Over every run of arbitrary fragments and timeouts, each partial packet has at least two slots, a received count equal to its filled slots, every filled slot i from its endpoint with Sequence id + i, and an armed timer; every multi-fragment delivery is the in-order concatenation of such slots. |
| Reassembler.LpReassembler.DoReassembly | daemon/face/lp-reassembler.cpp:121-143 | The buffer filled by copying is the concatenation of the slots. |
| Reassembler.LpReassembler.ReceiveFragment | daemon/face/lp-reassembler.cpp:43-119 | Table and result are the specified ones for every packet, including the checks that drop it and the reassembled bytes that do not parse, which leave the full partial packet in the table. |
| Reassembler.LpReassembler.TimeoutPartialPacket | daemon/face/lp-reassembler.cpp:145-155 | The partial packet goes and beforeTimeout fires with its count, if it is still there. |
| RoundTrip.Collecting | daemon/face/lp-reassembler.cpp:77-118 | As long as a fragment is missing, the partial packet holds exactly the fragments that arrived, whatever their order, repeats and interleaving with other packets, and nothing is delivered for it. |
| RoundTrip.Completing | daemon/face/lp-reassembler.cpp:104-113 | The arrival that completes the set delivers the joined payload with the headers of the first fragment and removes the partial packet. |
| RoundTrip.FragmentationRoundTrip | daemon/face/lp-fragmenter.cpp:78-143 | Any packet split into two or more fragments and given consecutive Sequences from any start is delivered exactly when the last missing fragment arrives, byte for byte and with its own headers, for every order, repeats, mix of originals and retransmissions and interleaving, given no timeout and a receiver limit of at least its FragCount. |
| LinkService.FragmentNeverOverMtu | daemon/face/generic-link-service.cpp:202-243 | With the space that sendNetPacket reserves and an effective MTU of at least 64, a numbered fragment without Acks passes the MTU check of sendLpPacket, marked or not. |
| LinkService.MarkedFits | daemon/face/generic-link-service.cpp:98-112 | A packet that has no mark yet fits the MTU after marking if and only if five octets are left in it, or seven when TLV-LENGTH grows; a packet that has one does not grow. |
| LinkService.AckedAndMarkedFits | daemon/face/generic-link-service.cpp:93-112 | piggyback and mark together: an unmarked packet of s octets that gets k Acks and the mark fits an MTU up to 65535 if and only if s + 12k + 5 octets do, plus two when TLV-LENGTH grows (s at most 254 and s + 12k at least 250), where k is the number of Acks that piggyback attaches for that size, MTU and queue length. |
| LinkService.MarkAfterPiggybackCanExceedMtu | daemon/face/generic-link-service.cpp:98-112 | On an MTU of 64, an IDLE packet filled with five Acks has 62 octets, and 67 once marked. |
| LinkService.WhenReserveLiftsLimit | daemon/face/generic-link-service.cpp:208-218 | A limited effective MTU turns into "no limit" if and only if it is 11 with reliability or marking on, or 23 with both on. |
| LinkService.ReserveCanLiftLimit | daemon/face/generic-link-service.cpp:208-218 | It does so at 11 with marking alone, at 11 with reliability alone and at 23 with both. |
| LinkService.SmallMtuOutcome | daemon/face/generic-link-service.cpp:220-236 | On an effective MTU of at most 50 octets with fragmentation on, the packet is passed on uncut on exactly those MTUs, and on all others is dropped if and only if it does not take the fast path. |
| LinkService.LiftedLimitStillDrops | daemon/face/generic-link-service.cpp:106-111 | A packet passed on uncut like that and numbered for reliability is always over the MTU and is dropped there. |
| LinkService.GenericLinkService.constructor | daemon/face/generic-link-service.cpp:42-54 | Sequence numbering starts at -2 and no congestion incident is open. |
| LinkService.GenericLinkService.AssignSequences | daemon/face/generic-link-service.cpp:146-152 | Consecutive Sequences modulo 2^64, in order. |
| LinkService.GenericLinkService.FragmentNetPacket | daemon/face/generic-link-service.cpp:202-249 | The fragments and their Sequences, the dropped packet and its counter, as specified; Sequences are used up only when assigned. |
| LinkService.GenericLinkService.CheckCongestionLevel | daemon/face/generic-link-service.cpp:260-303 | Marks the packet and moves the marking state as the control law says. |
| LinkService.GenericLinkService.TransmitLpPacket | daemon/face/generic-link-service.cpp:93-113 | The packet is marked first and then transmitted if and only if the effective MTU is unlimited or not exceeded; otherwise it is counted. |
| Congestion.ControlLaw | daemon/face/generic-link-service.cpp:260-303 | In every run the k-th mark of an incident that began at time s with base interval B comes no earlier than s plus the sum of floor(B / sqrt(i)) for i from 1 to k, and the mark count is nonzero only while an incident is open. |
| Congestion.MarkedExactlyWhenDue | daemon/face/generic-link-service.cpp:275-296 | A packet is marked if and only if an incident is open, the queue is above the threshold and the time of the next mark by that law has come. |
| Congestion.SumBounds | daemon/face/generic-link-service.cpp:289-294 | Marks come due ever closer: each interval is at most the one before, and the k-th sum lies between k times the k-th interval and k times the base interval. |
| Congestion.IntervalUnique | daemon/face/generic-link-service.cpp:289-294 | Integer squares determine the truncated interval floor(B / sqrt(k)). |
| StreamTransport.ParseTwice | daemon/face/stream-transport.hpp:250-260 | Parsing what is left together with later bytes gives the same elements as parsing all bytes at once. |
| StreamTransport.ParseSplits | daemon/face/stream-transport.hpp:250-260 | What is delivered are whole TLV elements, and what is left does not start with one. |
| StreamTransport.ParseUnique | daemon/face/stream-transport.hpp:250-260 | There is only one way to cut bytes like that. |
| StreamTransport.ChunkingIsIrrelevant | daemon/face/stream-transport.hpp:225-280 | For every way the socket chunks a byte stream, elements delivered, buffer and failure are a function of the concatenated bytes. |
| StreamTransport.SameBytesSameOutcome | daemon/face/stream-transport.hpp:225-280 | Two chunkings of the same bytes end alike. |
| StreamTransport.Conservation | daemon/face/stream-transport.hpp:236-280 | Delivered elements followed by the buffer are the bytes received, and a transport that has not failed has free buffer space. |
| StreamTransport.ReceiveLeavesSpace | daemon/face/stream-transport.hpp:262-277 | A call fails if and only if the buffer is full afterwards, that is, full without a single complete element. |
| StreamTransport.OctetsRun | daemon/face/stream-transport.hpp:225-234 | Every byte stream no proper prefix of which fills the buffer can be received, one octet at a time; with RunNeverPassesChoke these are exactly the streams that can. |
| StreamTransport.RunNeverPassesChoke | daemon/face/stream-transport.hpp:262-267 | Nothing is received after a prefix that fills the buffer. |
| StreamTransport.Transport.HandleReceive | daemon/face/stream-transport.hpp:236-280 | The parse loop and the move within the fixed buffer do what the specification says. |
| BestRoute.Scheduling | daemon/fw/best-route-strategy.cpp:64-123 | For one downstream, a fixed list of n eligible next hops and no Nack, expiry or hop-limit drop (a zero hop limit is fine for local next hops), the i-th transmission (from 0) goes to eligible hop i mod n in FIB order, and from the second on comes at least min(maxInterval, initialInterval * 2^(i-1)) after the one before. |
| BestRoute.RunInv | daemon/fw/best-route-strategy.cpp:64-123 | Every such run keeps: transmissions are cyclic, the out-records are those of the last n transmissions, and the suppression interval is the backoff reached. |
| BestRoute.NoneUnused | daemon/fw/algorithm.cpp:116-126 | When no eligible next hop is unused, every eligible one has an out-record: the assertion in the search for the earliest record never fails. |
| BestRoute.NextEarliest | daemon/fw/algorithm.cpp:108-128 | Once every hop was used, the earliest out-record is that of the hop whose turn it is. |
| BestRoute.PitEntry.GetLastOutgoing | daemon/fw/algorithm.cpp:95-106 | The latest renewal among the out-records. |
| BestRoute.PitEntry.DecidePerPitEntry | daemon/fw/retx-suppression-exponential.cpp:69-92 | New without a pending out-record; otherwise suppressed within the interval, forwarded after it, with the interval doubled up to its maximum. |
| BestRoute.PitEntry.FindNextHop | daemon/fw/algorithm.cpp:130-152 | The first eligible, and if wanted unused, next hop. |
| BestRoute.PitEntry.FindEarliest | daemon/fw/algorithm.cpp:108-128 | The eligible next hop with the earliest out-record, the first of equals. |
| BestRoute.PitEntry.AfterReceive | daemon/fw/best-route-strategy.cpp:64-123 | The strategy's decision and the entry it leaves, for every Interest, entry and list of next hops. |
| NameTree.EnumerationIsLongestPrefixMatch | daemon/fw/forwarder.cpp:555-576 | For every name tree and prefix with a FIB entry, the pruned enumeration visits exactly the nodes with PIT entries whose longest FIB prefix is that prefix, each once. |
| NameTree.NotifiedEntries | daemon/fw/forwarder.cpp:571-575 | A PIT entry is notified if and only if it hangs at such a node. |
| NameTree.NotifiedOnce | daemon/fw/forwarder.cpp:571-575 | No PIT entry is notified twice. |
| NameTree.VisitExact | daemon/fw/forwarder.cpp:558-569 | Below the prefix, a node is visited if and only if it has PIT entries and no node with a FIB entry lies between the prefix and it. |
| NameTree.PartialEnumeration.Advance | daemon/table/name-tree-iterator.cpp:164-226 | One step of the iterator, from any position, goes to the next wanted node of the pre-order, or to the end when there is none. |
| NameTree.Enumerate | daemon/table/name-tree.cpp:231-237 | Stepping the iterator to its end terminates and yields the selected nodes in pre-order, nothing when the prefix has no node. |
| NameTree.OnNewNextHop | daemon/fw/forwarder.cpp:555-576 | The PIT entries notified, in order, are those of the pruned enumeration. |
| Network.SubnetMembership | core/network.hpp:41-45 | An address is inside the range made from an address and a prefix length if and only if it is of the same family and shares the first bits, and is not a scoped IPv6 address equal to the upper end. |
| Network.ScopedAddressLeftOut | core/network.hpp:41-45 | A scoped IPv6 address with the same prefix that is nevertheless outside. |
| Network.SubnetRange | core/network.cpp:143-146 | For every byte width, the byte-wise minimum and maximum bracket in byte order exactly the addresses that share the first bits. |
| Network.OctetRange | core/network.cpp:144-145 | The same within one octet, for the masking and the complement used. |
| Network.SetMaskBytes | core/network.cpp:132-137 | The loop that sets one bit at a time makes the mask of the given length. |
| Network.MakeRange | core/network.cpp:139-146 | The loops over the byte arrays fill minimum and maximum. |
| Network.MakeSubnet | core/network.cpp:126-175 | The range for both families, and the failure when the prefix length is too large. |

## Left out

- TLV encoding and decoding in ndn-cxx: a packet is a record with the size of its encoding, other header fields
  are opaque octets, and the first complete element of a buffer is recognised from its type and length only.
- Bytes after the first element of a reassembled payload: `Block` construction is modelled as succeeding exactly
  when the payload starts with a complete element.
- The RTT estimator: deadlines and RTO values are parameters, and RTT measurements are not modelled.
- Changing options while a link service is running, and the case of reliability switched off in `LpReliability`.
- ReliabilitySpec.Step: an event that throws `std::length_error` has no successor state, so what the program does
  after such an exception is not modelled.
- Reliability.LpReliability.OnIdleAckTimer: requires an MTU on which the loop of the program terminates; `IdleLoopEnds`
  shows that on every other one it does not, so there is no result to state.
- Delivery.CountedIsDelivered: from one end to the other; the two ends of the system are alike, so the other direction
  is the same statement with the ends exchanged.
- Congestion.Interval: the exact floor of the quotient; rounding of the floating-point square root is not modelled.
- BestRoute.PitEntry.DecidePerPitEntry: the multiplier is the default 2, not an arbitrary `float`; per-upstream
  suppression is not modelled.
- BestRoute.Scheduling: the clock readings within one call are one reading.
- NameTree.PartialEnumeration.Advance: the tree is a value and a position is a path, instead of entries with parent
  pointers in a hash table; aliasing between entries and updates during an enumeration are not captured.
- Full enumeration and prefix matching in the name tree, and the strategy call made for each notified PIT entry.
- Parsing of address text and a network without a prefix length, whose range is the one address.
- The send queue of the stream transport, socket errors and closing.
- `decodeNetPacket`, `encodeLpFields` and the checks on single header fields after reassembly: easy one at a time.
- The rest of the forwarder pipelines, the tables, the other strategies, channels, protocol factories, management,
  tools and logging.
