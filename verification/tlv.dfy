/** The first complete TLV element at the start of a buffer, as Block::fromBuffer() finds it. */
module Tlv {
  import opened Packets

  /** A number read from the start of a buffer and the octets it took. */
  datatype Read = Read(value: nat, size: nat)

  function BigEndian(b: seq<Byte>): nat
  {
    if b == [] then 0 else BigEndian(b[..|b| - 1]) * 256 + b[|b| - 1]
  }

  /** Octets of a VAR-NUMBER, told by its first octet. */
  function VarNumberLength(first: Byte): (n: nat)
    ensures n > 0
  {
    if first < 253 then 1 else if first == 253 then 3 else if first == 254 then 5 else 9
  }

  /** tlv::readVarNumber(): None when the buffer ends inside the number. */
  function ReadVarNumber(b: seq<Byte>): (r: Option<Read>)
    ensures r.Some? ==> 0 < r.value.size <= |b|
  {
    if b == [] || |b| < VarNumberLength(b[0]) then None
    else
      var n := VarNumberLength(b[0]);
      Some(Read(if n == 1 then b[0] else BigEndian(b[1..n]), n))
  }

  /** Size of the first element of the buffer. None when the element is not complete, or its TLV-TYPE is
      outside 1 .. 2^32-1. */
  function FirstElement(b: seq<Byte>): (r: Option<nat>)
    ensures r.Some? ==> 0 < r.value <= |b|
  {
    match ReadVarNumber(b)
    case None => None
    case Some(t) =>
      if t.value == 0 || t.value >= 0x1_0000_0000 then None
      else
        match ReadVarNumber(b[t.size..])
        case None => None
        case Some(l) => if l.value > |b| - t.size - l.size then None else Some(t.size + l.size + l.value)
  }

  lemma ReadVarNumberStable(b: seq<Byte>, more: seq<Byte>)
    requires ReadVarNumber(b).Some?
    ensures ReadVarNumber(b + more) == ReadVarNumber(b)
  {
    var n := VarNumberLength(b[0]);
    assert (b + more)[1..n] == b[1..n];
  }

  /** A complete element stays the first element whatever bytes follow. */
  lemma FirstElementStable(b: seq<Byte>, more: seq<Byte>)
    requires FirstElement(b).Some?
    ensures FirstElement(b + more) == FirstElement(b)
  {
    ReadVarNumberStable(b, more);
    var t := ReadVarNumber(b).value;
    ReadVarNumberStable(b[t.size..], more);
    assert (b + more)[t.size..] == b[t.size..] + more;
  }

  lemma ReadVarNumberPrefix(b: seq<Byte>, k: nat)
    requires ReadVarNumber(b).Some? && ReadVarNumber(b).value.size <= k <= |b|
    ensures ReadVarNumber(b[..k]) == ReadVarNumber(b)
  {
    ReadVarNumberStable(b[..k], b[k..]);
    assert b[..k] + b[k..] == b;
  }

  /** An element taken on its own parses as itself. */
  lemma FirstElementPrefix(b: seq<Byte>)
    requires FirstElement(b).Some?
    ensures FirstElement(b[..FirstElement(b).value]) == FirstElement(b)
  {
    var n := FirstElement(b).value;
    var t := ReadVarNumber(b).value;
    ReadVarNumberPrefix(b, n);
    ReadVarNumberPrefix(b[t.size..], n - t.size);
    assert b[..n][t.size..] == b[t.size..][..n - t.size];
  }
}
