/** StreamTransport: a byte stream that arrives in chunks is cut into TLV elements in a fixed buffer. */
module StreamTransport {
  import opened Packets
  import opened Tlv

  const CAPACITY: nat := MAX_NDN_PACKET_SIZE

  /** The complete elements at the start of a byte sequence, and what is left after them. */
  datatype Parsed = Parsed(elements: seq<seq<Byte>>, rest: seq<Byte>)

  function Parse(b: seq<Byte>): Parsed
    decreases |b|
  {
    match FirstElement(b)
    case None => Parsed([], b)
    case Some(n) =>
      var tail := Parse(b[n..]);
      Parsed([b[..n]] + tail.elements, tail.rest)
  }

  lemma JoinCons(e: seq<Byte>, elements: seq<seq<Byte>>)
    ensures Join([e] + elements) == e + Join(elements)
  {
    assert ([e] + elements)[1..] == elements;
  }

  lemma JoinSplit(b: seq<Byte>, n: nat, x: seq<Byte>, y: seq<Byte>)
    requires n <= |b| && x + y == b[n..]
    ensures b[..n] + x + y == b
  {
    assert b[..n] + (x + y) == b;
  }

  /** The elements and the rest are the bytes that were parsed. */
  lemma {:induction false} ParseConserves(b: seq<Byte>)
    ensures Join(Parse(b).elements) + Parse(b).rest == b
    decreases |b|
  {
    match FirstElement(b)
    case None =>
    case Some(n) =>
      ParseConserves(b[n..]);
      JoinCons(b[..n], Parse(b[n..]).elements);
      JoinSplit(b, n, Join(Parse(b[n..]).elements), Parse(b[n..]).rest);
  }

  lemma SumParts(b: seq<Byte>, more: seq<Byte>, n: nat)
    requires n <= |b|
    ensures (b + more)[..n] == b[..n] && (b + more)[n..] == b[n..] + more
  {
  }

  lemma ParseSome(b: seq<Byte>, n: nat)
    requires FirstElement(b) == Some(n)
    ensures Parse(b) == Parsed([b[..n]] + Parse(b[n..]).elements, Parse(b[n..]).rest)
  {
  }

  lemma ConsConcat(e: seq<Byte>, xs: seq<seq<Byte>>, ys: seq<seq<Byte>>)
    ensures [e] + (xs + ys) == [e] + xs + ys
  {
  }

  /** Bytes that arrive later only add elements: parsing in two goes is parsing once. */
  lemma {:induction false} ParseTwice(b: seq<Byte>, more: seq<Byte>)
    ensures var p := Parse(b);
            var q := Parse(p.rest + more);
            Parse(b + more) == Parsed(p.elements + q.elements, q.rest)
    decreases |b|
  {
    match FirstElement(b)
    case None =>
      var q := Parse(b + more);
      assert [] + q.elements == q.elements;
    case Some(n) =>
      ParseTwice(b[n..], more);
      FirstElementStable(b, more);
      SumParts(b, more, n);
      ParseSome(b, n);
      ParseSome(b + more, n);
      var p := Parse(b[n..]);
      ConsConcat(b[..n], p.elements, Parse(p.rest + more).elements);
  }

  /** `e` is one whole TLV element. */
  predicate IsElement(e: seq<Byte>)
  {
    FirstElement(e) == Some(|e|)
  }

  /** Parsing cuts the bytes into whole elements and a rest that does not start with one. */
  lemma {:induction false} ParseSplits(b: seq<Byte>)
    ensures forall e :: e in Parse(b).elements ==> IsElement(e)
    ensures FirstElement(Parse(b).rest).None?
    decreases |b|
  {
    match FirstElement(b)
    case None =>
    case Some(n) =>
      FirstElementPrefix(b);
      ParseSplits(b[n..]);
      ParseSome(b, n);
  }

  lemma ElementThen(e: seq<Byte>, tail: seq<Byte>)
    requires IsElement(e)
    ensures Parse(e + tail) == Parsed([e] + Parse(tail).elements, Parse(tail).rest)
  {
    FirstElementStable(e, tail);
    assert (e + tail)[..|e|] == e && (e + tail)[|e|..] == tail;
    ParseSome(e + tail, |e|);
  }

  lemma JoinFirst(elements: seq<seq<Byte>>, rest: seq<Byte>)
    requires elements != []
    ensures elements[0] in elements && [elements[0]] + elements[1..] == elements
    ensures Join(elements) + rest == elements[0] + (Join(elements[1..]) + rest)
  {
  }

  /** There is only one such way to cut them. */
  lemma {:induction false} ParseUnique(elements: seq<seq<Byte>>, rest: seq<Byte>)
    requires (forall e :: e in elements ==> IsElement(e)) && FirstElement(rest).None?
    ensures Parse(Join(elements) + rest) == Parsed(elements, rest)
  {
    if elements == [] {
      assert Join(elements) + rest == rest;
    } else {
      ParseUnique(elements[1..], rest);
      JoinFirst(elements, rest);
      ElementThen(elements[0], Join(elements[1..]) + rest);
    }
  }

  // ---------------------------------------------------------------- runs

  /** What the transport has delivered, what its buffer holds, and whether it failed. */
  datatype Stream = Stream(delivered: seq<seq<Byte>>, buffer: seq<Byte>, failed: bool)

  function Init(): Stream
  {
    Stream([], [], false)
  }

  /** handleReceive() for one chunk. */
  function Receive(s: Stream, chunk: seq<Byte>): Stream
  {
    var p := Parse(s.buffer + chunk);
    Stream(s.delivered + p.elements, p.rest, p.elements == [] && |p.rest| == CAPACITY)
  }

  /** A read is issued only by a transport that has not failed, for no more than the free space. */
  predicate CanReceive(s: Stream, chunk: seq<Byte>)
  {
    !s.failed && |s.buffer| + |chunk| <= CAPACITY
  }

  /** The transport after a sequence of chunks; None when one of them could not have been read. */
  function Run(chunks: seq<seq<Byte>>): Option<Stream>
  {
    if chunks == [] then Some(Init())
    else
      var s := Run(chunks[..|chunks| - 1]);
      var chunk := chunks[|chunks| - 1];
      if s.None? || !CanReceive(s.value, chunk) then None else Some(Receive(s.value, chunk))
  }

  function Concat(chunks: seq<seq<Byte>>): seq<Byte>
  {
    if chunks == [] then [] else Concat(chunks[..|chunks| - 1]) + chunks[|chunks| - 1]
  }

  /** Delivered elements, buffer and failure after a stream of bytes, without chunks. */
  function Outcome(bytes: seq<Byte>): Stream
  {
    var p := Parse(bytes);
    Stream(p.elements, p.rest, |p.rest| == CAPACITY)
  }

  lemma {:induction false} ElementsNonEmpty(b: seq<Byte>)
    ensures Parse(b).elements != [] ==> |Parse(b).rest| < |b|
    decreases |b|
  {
    if FirstElement(b).Some? {
      ElementsNonEmpty(b[FirstElement(b).value..]);
    }
  }

  /** One call keeps the buffer within bounds, and a call that does not fail leaves free space. */
  lemma ReceiveLeavesSpace(s: Stream, chunk: seq<Byte>)
    requires CanReceive(s, chunk)
    ensures var t := Receive(s, chunk);
            && |t.buffer| <= CAPACITY
            && (t.failed <==> |t.buffer| == CAPACITY)
            && (t.failed ==> t.buffer == s.buffer + chunk && t.delivered == s.delivered)
            && Join(t.delivered[|s.delivered|..]) + t.buffer == s.buffer + chunk
  {
    ElementsNonEmpty(s.buffer + chunk);
    ParseConserves(s.buffer + chunk);
    var p := Parse(s.buffer + chunk);
    assert (s.delivered + p.elements)[|s.delivered|..] == p.elements;
    if p.elements == [] { assert Join([]) + p.rest == p.rest; }
  }

  /** However the bytes were chunked, the outcome depends on the bytes alone. */
  lemma {:induction false} ChunkingIsIrrelevant(chunks: seq<seq<Byte>>)
    requires Run(chunks).Some?
    ensures Run(chunks).value == Outcome(Concat(chunks))
  {
    if chunks == [] {
      assert FirstElement([]).None?;
    } else {
      var before, chunk := chunks[..|chunks| - 1], chunks[|chunks| - 1];
      ChunkingIsIrrelevant(before);
      var s := Run(before).value;
      ParseTwice(Concat(before), chunk);
      ReceiveLeavesSpace(s, chunk);
    }
  }

  lemma SameBytesSameOutcome(a: seq<seq<Byte>>, b: seq<seq<Byte>>)
    requires Run(a).Some? && Run(b).Some? && Concat(a) == Concat(b)
    ensures Run(a) == Run(b)
  {
    ChunkingIsIrrelevant(a);
    ChunkingIsIrrelevant(b);
  }

  /** Nothing is lost, duplicated or reordered. */
  lemma Conservation(chunks: seq<seq<Byte>>)
    requires Run(chunks).Some?
    ensures Join(Run(chunks).value.delivered) + Run(chunks).value.buffer == Concat(chunks)
    ensures !Run(chunks).value.failed ==> |Run(chunks).value.buffer| < CAPACITY
  {
    ChunkingIsIrrelevant(chunks);
    ParseConserves(Concat(chunks));
    if chunks != [] {
      ReceiveLeavesSpace(Run(chunks[..|chunks| - 1]).value, chunks[|chunks| - 1]);
    }
  }

  // ---------------------------------------------------------------- which streams can be read to the end

  /** Some proper prefix of the bytes already fills the buffer. */
  ghost predicate Chokes(bytes: seq<Byte>)
  {
    exists k :: 0 <= k < |bytes| && |Parse(bytes[..k]).rest| == CAPACITY
  }

  /** No chunking reads past the point where the buffer is full, and a failure can be caused by no
      chunking unless the bytes cause it. */
  lemma {:induction false} RunNeverPassesChoke(chunks: seq<seq<Byte>>)
    requires Run(chunks).Some?
    ensures !Chokes(Concat(chunks))
  {
    if chunks != [] {
      var before, chunk := chunks[..|chunks| - 1], chunks[|chunks| - 1];
      RunNeverPassesChoke(before);
      ChunkingIsIrrelevant(before);
      var bytes, s := Concat(before), Run(before).value;
      forall k | 0 <= k < |bytes + chunk| ensures |Parse((bytes + chunk)[..k]).rest| != CAPACITY {
        if k < |bytes| {
          assert (bytes + chunk)[..k] == bytes[..k];
        } else {
          assert (bytes + chunk)[..k] == bytes + chunk[..k - |bytes|];
          ParseTwice(bytes, chunk[..k - |bytes|]);
          ElementsNonEmpty(s.buffer + chunk[..k - |bytes|]);
        }
      }
    }
  }

  function Octets(bytes: seq<Byte>): seq<seq<Byte>>
  {
    if bytes == [] then [] else Octets(bytes[..|bytes| - 1]) + [[bytes[|bytes| - 1]]]
  }

  lemma ChokesLater(bytes: seq<Byte>, k: nat)
    requires k < |bytes| && !Chokes(bytes)
    ensures !Chokes(bytes[..k]) && |Parse(bytes[..k]).rest| != CAPACITY
  {
    forall i | 0 <= i < k ensures bytes[..k][..i] == bytes[..i] {}
  }

  lemma RunMore(chunks: seq<seq<Byte>>, chunk: seq<Byte>)
    requires Run(chunks).Some? && CanReceive(Run(chunks).value, chunk)
    ensures Run(chunks + [chunk]).Some? && Concat(chunks + [chunk]) == Concat(chunks) + chunk
  {
    assert (chunks + [chunk])[..|chunks|] == chunks;
  }

  lemma SpaceForOctet(chunks: seq<seq<Byte>>, octet: Byte)
    requires Run(chunks).Some? && |Parse(Concat(chunks)).rest| != CAPACITY
    ensures CanReceive(Run(chunks).value, [octet])
  {
    ChunkingIsIrrelevant(chunks);
    Conservation(chunks);
  }

  lemma SplitLast(bytes: seq<Byte>)
    requires bytes != []
    ensures bytes[..|bytes| - 1] + [bytes[|bytes| - 1]] == bytes
  {
  }

  /** A stream that does not choke earlier can be read to its end, octet by octet. */
  lemma {:induction false} OctetsRun(bytes: seq<Byte>)
    requires !Chokes(bytes)
    ensures Run(Octets(bytes)).Some? && Concat(Octets(bytes)) == bytes
  {
    if bytes != [] {
      var before, last := bytes[..|bytes| - 1], bytes[|bytes| - 1];
      SplitLast(bytes);
      ChokesLater(bytes, |before|);
      OctetsRun(before);
      SpaceForOctet(Octets(before), last);
      RunMore(Octets(before), [last]);
    }
  }

  // ---------------------------------------------------------------- the buffer

  /** When `all` is to be delivered after `before`, it is `now` plus what the `tail` still holds. */
  ghost predicate DeliveredUpTo(before: seq<seq<Byte>>, all: Parsed, now: seq<seq<Byte>>, tail: Parsed)
  {
    before + all.elements == now + tail.elements && all.rest == tail.rest
  }

  lemma DeliverNext(before: seq<seq<Byte>>, all: Parsed, now: seq<seq<Byte>>, tail: Parsed, e: seq<Byte>, tail': Parsed)
    requires DeliveredUpTo(before, all, now, tail) && tail.elements == [e] + tail'.elements && tail.rest == tail'.rest
    ensures DeliveredUpTo(before, all, now + [e], tail')
  {
    assert now + ([e] + tail'.elements) == now + [e] + tail'.elements;
  }

  lemma DeliverEnd(before: seq<seq<Byte>>, all: Parsed, now: seq<seq<Byte>>, tail: Parsed)
    requires DeliveredUpTo(before, all, now, tail) && tail.elements == []
    ensures now == before + all.elements && tail.rest == all.rest && |now| == |before| + |all.elements|
  {
    assert now + [] == now;
  }

  lemma ParseOne(b: seq<Byte>, offset: nat, n: nat, end: nat)
    requires offset <= |b| && FirstElement(b[offset..]) == Some(n) && end == offset + n
    ensures Parse(b[offset..]).elements == [b[offset..end]] + Parse(b[end..]).elements
    ensures Parse(b[offset..]).rest == Parse(b[end..]).rest
  {
    assert b[offset..][n..] == b[end..] && b[offset..][..n] == b[offset..end];
  }

  class Transport {
    const receiveBuffer: array<Byte>
    var receiveBufferSize: nat
    var delivered: seq<seq<Byte>>   // elements passed to receive()
    var failed: bool                // state is FAILED

    ghost predicate Valid()
      reads this, receiveBuffer
    {
      receiveBuffer.Length == CAPACITY && receiveBufferSize <= CAPACITY
    }

    ghost function Contents(): Stream
      requires Valid()
      reads this, receiveBuffer
    {
      Stream(delivered, receiveBuffer[..receiveBufferSize], failed)
    }

    constructor ()
      ensures Valid() && Contents() == Init() && fresh(receiveBuffer)
    {
      receiveBuffer := new Byte[CAPACITY](_ => 0);
      receiveBufferSize, delivered, failed := 0, [], false;
    }

    /** The socket's part of async_receive(): octets are written behind those in the buffer. */
    method Fill(chunk: seq<Byte>)
      requires Valid() && CanReceive(Contents(), chunk)
      modifies receiveBuffer
      ensures receiveBuffer[..receiveBufferSize + |chunk|] == old(receiveBuffer[..receiveBufferSize]) + chunk
    {
      for i := 0 to |chunk|
        invariant receiveBuffer[..receiveBufferSize + i] == old(receiveBuffer[..receiveBufferSize]) + chunk[..i]
      {
        receiveBuffer[receiveBufferSize + i] := chunk[i];
        assert receiveBuffer[..receiveBufferSize + i + 1] == receiveBuffer[..receiveBufferSize + i] + [chunk[i]];
        assert chunk[..i + 1] == chunk[..i] + [chunk[i]];
      }
      assert chunk[..|chunk|] == chunk;
    }

    /** The loop of handleReceive() that delivers the complete elements. */
    method Deliver(bufferView: seq<Byte>) returns (offset: nat, isOk: bool)
      modifies this`delivered
      ensures offset <= |bufferView|
      ensures var p := Parse(bufferView);
              && delivered == old(delivered) + p.elements && bufferView[offset..] == p.rest
              && (isOk <==> offset == |bufferView|) && (offset == 0 <==> p.elements == [])
    {
      offset, isOk := 0, true;
      ghost var before, now, all := delivered, delivered, Parse(bufferView);
      ghost var tail := all;
      assert bufferView[0..] == bufferView;
      while offset < |bufferView|
        invariant isOk && offset <= |bufferView| && tail == Parse(bufferView[offset..]) && delivered == now
        invariant DeliveredUpTo(before, all, now, tail) && |before| <= |now| && (offset == 0 <==> |before| == |now|)
      {
        var element := FirstElement(bufferView[offset..]);
        if element.None? {
          isOk := false;
          break;
        }
        var end := offset + element.value;
        ParseOne(bufferView, offset, element.value, end);
        DeliverNext(before, all, now, tail, bufferView[offset..end], Parse(bufferView[end..]));
        now, tail := now + [bufferView[offset..end]], Parse(bufferView[end..]);
        delivered := delivered + [bufferView[offset..end]];
        offset := end;
      }
      DeliverEnd(before, all, now, tail);
    }

    /** std::copy() of the rest to the start of the buffer. */
    method MoveRest(offset: nat)
      requires Valid() && offset <= receiveBufferSize
      modifies receiveBuffer
      ensures receiveBuffer[..receiveBufferSize - offset] == old(receiveBuffer[offset..receiveBufferSize])
    {
      for i := 0 to receiveBufferSize - offset
        invariant forall k :: 0 <= k < i ==> receiveBuffer[k] == old(receiveBuffer[offset + k])
        invariant forall k :: offset + i <= k < receiveBufferSize ==> receiveBuffer[k] == old(receiveBuffer[k])
      {
        receiveBuffer[i] := receiveBuffer[offset + i];
      }
    }

    /** A read of `chunk` completes: handleReceive(). */
    method HandleReceive(chunk: seq<Byte>)
      requires Valid() && CanReceive(Contents(), chunk)
      modifies this, receiveBuffer
      ensures Valid() && Contents() == Receive(old(Contents()), chunk)
    {
      Fill(chunk);
      receiveBufferSize := receiveBufferSize + |chunk|;
      var offset, isOk := Deliver(receiveBuffer[..receiveBufferSize]);
      ElementsNonEmpty(old(Contents()).buffer + chunk);
      if !isOk && receiveBufferSize == CAPACITY && offset == 0 {
        failed := true;
        return;
      }
      if offset > 0 {
        if offset != receiveBufferSize {
          MoveRest(offset);
          receiveBufferSize := receiveBufferSize - offset;
        } else {
          receiveBufferSize := 0;
        }
      }
    }
  }
}
