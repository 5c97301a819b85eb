/** Network: the address range of a subnet, built from an address and a prefix length. */
module Network {
  import opened Packets
  import opened Arithmetic

  // ---------------------------------------------------------------- octets

  /** Bits of a number, the most significant first. */
  type Bits = seq<bool>

  type Octet = b: Bits | |b| == 8 witness [false, false, false, false, false, false, false, false]

  const ZERO: Octet := [false, false, false, false, false, false, false, false]

  /** The number that bits stand for; octets are compared as numbers. */
  function Value(b: Bits): nat
  {
    if b == [] then 0 else (if b[0] then Power2(|b| - 1) else 0) + Value(b[1..])
  }

  function And(x: Octet, y: Octet): Octet
  {
    seq(8, k requires 0 <= k < 8 => x[k] && y[k])
  }

  function Or(x: Octet, y: Octet): Octet
  {
    seq(8, k requires 0 <= k < 8 => x[k] || y[k])
  }

  function Not(x: Octet): Octet
  {
    seq(8, k requires 0 <= k < 8 => !x[k])
  }

  /** 1 << bitIndex */
  function OneShifted(bitIndex: nat): Octet
    requires bitIndex < 8
  {
    seq(8, k => k == 7 - bitIndex)
  }

  /** The octet in which the first `r` bits are set. */
  function TopBits(r: nat): Octet
  {
    seq(8, k => k < r)
  }

  /** `n` times the same bit. */
  function Fill(bit: bool, n: nat): Bits
  {
    seq(n, _ => bit)
  }

  lemma {:induction false} ValueBound(b: Bits)
    ensures Value(b) < Power2(|b|)
  {
    if b != [] { ValueBound(b[1..]); }
  }

  lemma {:induction false} ValueFill(bit: bool, n: nat)
    ensures Value(Fill(bit, n)) == if bit then Power2(n) - 1 else 0
  {
    if n > 0 {
      ValueFill(bit, n - 1);
      assert Fill(bit, n)[1..] == Fill(bit, n - 1);
    }
  }

  /** Numbers of the same width are the same when their values are. */
  lemma {:induction false} ValueInjective(x: Bits, y: Bits)
    requires |x| == |y| && Value(x) == Value(y)
    ensures x == y
  {
    if x != [] {
      ValueBound(x[1..]);
      ValueBound(y[1..]);
      ValueInjective(x[1..], y[1..]);
      assert x == [x[0]] + x[1..] && y == [y[0]] + y[1..];
    }
  }

  /** The smallest and the largest number with the first `r` bits of `x`. */
  function Low(x: Bits, r: nat): (b: Bits)
    requires r <= |x|
    ensures |b| == |x|
  {
    x[..r] + Fill(false, |x| - r)
  }

  function High(x: Bits, r: nat): (b: Bits)
    requires r <= |x|
    ensures |b| == |x|
  {
    x[..r] + Fill(true, |x| - r)
  }

  lemma TailOfRange(x: Bits, r: nat)
    requires 0 < r <= |x|
    ensures Low(x, r)[0] == High(x, r)[0] == x[0]
    ensures Low(x, r)[1..] == Low(x[1..], r - 1) && High(x, r)[1..] == High(x[1..], r - 1)
  {
  }

  lemma SamePrefixTail(x: Bits, y: Bits, r: nat)
    requires |x| == |y| && 0 < r <= |x|
    ensures x[..r] == y[..r] <==> x[0] == y[0] && x[1..][..r - 1] == y[1..][..r - 1]
  {
    assert x[..r] == [x[0]] + x[1..][..r - 1] && y[..r] == [y[0]] + y[1..][..r - 1];
  }

  /** A number lies between them exactly when it has these first bits. */
  lemma {:induction false} BitsRange(x: Bits, y: Bits, r: nat)
    requires |x| == |y| && r <= |x|
    ensures Value(Low(x, r)) <= Value(y) <= Value(High(x, r)) <==> x[..r] == y[..r]
  {
    if r == 0 {
      ValueFill(false, |x|);
      ValueFill(true, |x|);
      ValueBound(y);
      assert Low(x, 0) == Fill(false, |x|) && High(x, 0) == Fill(true, |x|);
    } else {
      BitsRange(x[1..], y[1..], r - 1);
      SamePrefixTail(x, y, r);
      TailOfRange(x, r);
      ValueBound(y[1..]);
      ValueBound(Low(x[1..], r - 1));
      ValueBound(High(x[1..], r - 1));
    }
  }

  lemma MaskedOctet(x: Octet, r: nat)
    requires r <= 8
    ensures And(x, TopBits(r)) == Low(x, r) && Or(x, Not(TopBits(r))) == High(x, r)
  {
  }

  /** An octet lies between the smallest and the largest with the masked bits exactly when it has these bits. */
  lemma OctetRange(x: Octet, y: Octet, r: nat)
    requires r <= 8
    ensures Value(And(x, TopBits(r))) <= Value(y) <= Value(Or(x, Not(TopBits(r)))) <==> x[..r] == y[..r]
  {
    MaskedOctet(x, r);
    BitsRange(x, y, r);
  }

  // ---------------------------------------------------------------- byte sequences

  /** The first `r` bits are the same. */
  predicate SameBits(x: Octet, y: Octet, r: nat)
    requires r <= 8
  {
    x[..r] == y[..r]
  }

  function Clamp(n: int): (r: nat)
    ensures r <= 8
  {
    if n < 0 then 0 else if n > 8 then 8 else n
  }

  /** The mask of octet `j` for a prefix length. */
  function MaskAt(mask: nat, j: nat): Octet
  {
    TopBits(Clamp(mask - 8 * j))
  }

  function MinBytes(x: seq<Octet>, mask: nat): (r: seq<Octet>)
    ensures |r| == |x|
  {
    seq(|x|, j requires 0 <= j < |x| => And(x[j], MaskAt(mask, j)))
  }

  function MaxBytes(x: seq<Octet>, mask: nat): (r: seq<Octet>)
    ensures |r| == |x|
  {
    seq(|x|, j requires 0 <= j < |x| => Or(x[j], Not(MaskAt(mask, j))))
  }

  /** Lexicographic order of byte sequences of the same length, from octet `j` on. */
  predicate LexLe(a: seq<Octet>, b: seq<Octet>, j: nat)
    requires |a| == |b| && j <= |a|
    decreases |a| - j
  {
    j == |a| || Value(a[j]) < Value(b[j]) || (a[j] == b[j] && LexLe(a, b, j + 1))
  }

  /** Every octet from `j` on has the first bits that the prefix covers in it. */
  predicate AgreeFrom(x: seq<Octet>, y: seq<Octet>, mask: nat, j: nat)
    requires |x| == |y|
  {
    forall i :: j <= i < |x| ==> SameBits(x[i], y[i], Clamp(mask - 8 * i))
  }

  /** Between two sequences that agree on octet `j`. */
  lemma BetweenEqual(lo: seq<Octet>, y: seq<Octet>, hi: seq<Octet>, j: nat)
    requires |lo| == |y| == |hi| && j < |y| && lo[j] == hi[j]
    ensures LexLe(lo, y, j) && LexLe(y, hi, j)
            <==> Value(lo[j]) <= Value(y[j]) <= Value(hi[j]) && LexLe(lo, y, j + 1) && LexLe(y, hi, j + 1)
  {
    if Value(lo[j]) == Value(y[j]) { ValueInjective(lo[j], y[j]); }
  }

  /** Between two sequences that allow everything after octet `j`. */
  lemma BetweenLast(lo: seq<Octet>, y: seq<Octet>, hi: seq<Octet>, j: nat)
    requires |lo| == |y| == |hi| && j < |y| && LexLe(lo, y, j + 1) && LexLe(y, hi, j + 1)
    ensures LexLe(lo, y, j) && LexLe(y, hi, j) <==> Value(lo[j]) <= Value(y[j]) <= Value(hi[j])
  {
    if Value(lo[j]) == Value(y[j]) { ValueInjective(lo[j], y[j]); }
    if Value(hi[j]) == Value(y[j]) { ValueInjective(hi[j], y[j]); }
  }

  /** Octet `j` of the range. */
  lemma RangeAt(x: seq<Octet>, y: seq<Octet>, mask: nat, j: nat)
    requires |x| == |y| && j < |x|
    ensures Value(MinBytes(x, mask)[j]) <= Value(y[j]) <= Value(MaxBytes(x, mask)[j])
            <==> SameBits(x[j], y[j], Clamp(mask - 8 * j))
  {
    OctetRange(x[j], y[j], Clamp(mask - 8 * j));
  }

  lemma AgreeSplit(x: seq<Octet>, y: seq<Octet>, mask: nat, j: nat)
    requires |x| == |y| && j < |x|
    ensures AgreeFrom(x, y, mask, j) <==> SameBits(x[j], y[j], Clamp(mask - 8 * j)) && AgreeFrom(x, y, mask, j + 1)
  {
  }

  /** Octets past the prefix allow everything. */
  lemma {:induction false} Unmasked(x: seq<Octet>, y: seq<Octet>, mask: nat, j: nat)
    requires |x| == |y| && j <= |x| && mask <= 8 * j
    ensures LexLe(MinBytes(x, mask), y, j) && LexLe(y, MaxBytes(x, mask), j) && AgreeFrom(x, y, mask, j)
    decreases |x| - j
  {
    if j < |x| {
      Unmasked(x, y, mask, j + 1);
      AgreeSplit(x, y, mask, j);
      RangeAt(x, y, mask, j);
      BetweenLast(MinBytes(x, mask), y, MaxBytes(x, mask), j);
    }
  }

  /** A fully masked octet is fixed. */
  lemma FullOctet(x: seq<Octet>, mask: nat, j: nat)
    requires j < |x| && mask >= 8 * j + 8
    ensures MinBytes(x, mask)[j] == MaxBytes(x, mask)[j]
  {
  }

  /** Between the smallest and the largest byte sequence of the subnet, in lexicographic order, are exactly
      those that agree with the address on the prefix. */
  lemma {:induction false} RangeIsAgreement(x: seq<Octet>, y: seq<Octet>, mask: nat, j: nat)
    requires |x| == |y| && j <= |x|
    ensures LexLe(MinBytes(x, mask), y, j) && LexLe(y, MaxBytes(x, mask), j) <==> AgreeFrom(x, y, mask, j)
    decreases |x| - j
  {
    if j < |x| {
      AgreeSplit(x, y, mask, j);
      RangeAt(x, y, mask, j);
      if mask >= 8 * j + 8 {
        RangeIsAgreement(x, y, mask, j + 1);
        FullOctet(x, mask, j);
        BetweenEqual(MinBytes(x, mask), y, MaxBytes(x, mask), j);
      } else {
        Unmasked(x, y, mask, j + 1);
        BetweenLast(MinBytes(x, mask), y, MaxBytes(x, mask), j);
      }
    }
  }

  /** Bit `i` of an address, the most significant bit of the first octet first. */
  predicate AddressBit(x: seq<Octet>, i: nat)
    requires i < 8 * |x|
  {
    x[i / 8][i % 8]
  }

  /** The first `mask` bits are the same. */
  predicate SamePrefix(x: seq<Octet>, y: seq<Octet>, mask: nat)
    requires |x| == |y| && mask <= 8 * |x|
  {
    forall i :: 0 <= i < mask ==> AddressBit(x, i) == AddressBit(y, i)
  }

  lemma AgreementIsPrefix(x: seq<Octet>, y: seq<Octet>, mask: nat)
    requires |x| == |y| && mask <= 8 * |x|
    ensures AgreeFrom(x, y, mask, 0) <==> SamePrefix(x, y, mask)
  {
    if AgreeFrom(x, y, mask, 0) {
      forall i | 0 <= i < mask ensures AddressBit(x, i) == AddressBit(y, i) {
        var j, k := i / 8, i % 8;
        assert SameBits(x[j], y[j], Clamp(mask - 8 * j));
        assert x[j][k] == x[j][..Clamp(mask - 8 * j)][k];
      }
    }
    if SamePrefix(x, y, mask) {
      forall j | 0 <= j < |x| ensures SameBits(x[j], y[j], Clamp(mask - 8 * j)) {
        forall k | 0 <= k < Clamp(mask - 8 * j) ensures x[j][k] == y[j][k] {
          assert (8 * j + k) / 8 == j && (8 * j + k) % 8 == k;
          assert AddressBit(x, 8 * j + k) == AddressBit(y, 8 * j + k);
        }
      }
    }
  }

  /** For every byte width and every prefix length within it. */
  lemma SubnetRange(x: seq<Octet>, y: seq<Octet>, mask: nat)
    requires |x| == |y| && mask <= 8 * |x|
    ensures LexLe(MinBytes(x, mask), y, 0) && LexLe(y, MaxBytes(x, mask), 0) <==> SamePrefix(x, y, mask)
  {
    RangeIsAgreement(x, y, mask, 0);
    AgreementIsPrefix(x, y, mask);
  }

  // ---------------------------------------------------------------- addresses

  /** ip::address */
  datatype Address = V4(bytes: seq<Octet>) | V6(bytes: seq<Octet>, scopeId: nat)

  predicate ValidAddress(a: Address)
  {
    |a.bytes| == if a.V4? then 4 else 16
  }

  /** operator<=: IPv4 before IPv6, then by octets, then (for IPv6) by scope id. */
  predicate AddressLe(a: Address, b: Address)
    requires ValidAddress(a) && ValidAddress(b)
  {
    if a.V4? && b.V6? then true
    else if a.V6? && b.V4? then false
    else if a.V6? && a.bytes == b.bytes then a.scopeId <= b.scopeId
    else LexLe(a.bytes, b.bytes, 0)
  }

  datatype Range = Range(minAddress: Address, maxAddress: Address)

  predicate ValidRange(n: Range)
  {
    ValidAddress(n.minAddress) && ValidAddress(n.maxAddress)
  }

  /** Network::doesContain() */
  predicate DoesContain(n: Range, a: Address)
    requires ValidRange(n) && ValidAddress(a)
  {
    AddressLe(n.minAddress, a) && AddressLe(a, n.maxAddress)
  }

  /** The range of a subnet; None (failbit) when the prefix is longer than the address. */
  function Subnet(a: Address, mask: nat): Option<Range>
    requires ValidAddress(a)
  {
    if mask > 8 * |a.bytes| then None
    else if a.V4? then Some(Range(V4(MinBytes(a.bytes, mask)), V4(MaxBytes(a.bytes, mask))))
    else Some(Range(V6(MinBytes(a.bytes, mask), 0), V6(MaxBytes(a.bytes, mask), 0)))
  }

  lemma {:induction false} LexReflexive(x: seq<Octet>, j: nat)
    requires j <= |x|
    ensures LexLe(x, x, j)
    decreases |x| - j
  {
    if j < |x| { LexReflexive(x, j + 1); }
  }

  /** Exactly the addresses of the same family that share the first `mask` bits are contained, except that an
      address with a scope id is left out when its octets are the highest of the subnet. */
  lemma SubnetMembership(a: Address, mask: nat, b: Address)
    requires ValidAddress(a) && ValidAddress(b) && mask <= 8 * |a.bytes|
    ensures DoesContain(Subnet(a, mask).value, b)
            <==> && (a.V4? <==> b.V4?) && SamePrefix(a.bytes, b.bytes, mask)
                 && !(b.V6? && b.scopeId != 0 && b.bytes == MaxBytes(a.bytes, mask))
  {
    if a.V4? <==> b.V4? {
      SubnetRange(a.bytes, b.bytes, mask);
      LexReflexive(b.bytes, 0);
    }
  }

  /** A highest address with a scope id shares the prefix and is not contained. */
  lemma ScopedAddressLeftOut()
    ensures exists a: Address, mask: nat, b: Address ::
              && ValidAddress(a) && ValidAddress(b) && a.V6? && b.V6? && mask <= 8 * |a.bytes|
              && SamePrefix(a.bytes, b.bytes, mask) && !DoesContain(Subnet(a, mask).value, b)
  {
    var bytes := seq(16, _ => Not(ZERO));
    var a, b := V6(bytes, 0), V6(bytes, 1);
    forall j | 0 <= j < 16 ensures MaxBytes(bytes, 0)[j] == bytes[j] {
      assert Or(Not(ZERO), Not(MaskAt(0, j))) == Not(ZERO);
    }
    assert MaxBytes(bytes, 0) == bytes;
    SubnetMembership(a, 0, b);
    assert SamePrefix(a.bytes, b.bytes, 0) && !DoesContain(Subnet(a, 0).value, b);
  }

  // ---------------------------------------------------------------- the program

  lemma MaskStep(i: nat, j: nat)
    ensures MaskAt(i + 1, j) == if j == i / 8 then Or(MaskAt(i, j), OneShifted(7 - i % 8)) else MaskAt(i, j)
  {
    var k := i % 8;
    if j == i / 8 {
      assert Clamp(i - 8 * j) == k && Clamp(i + 1 - 8 * j) == k + 1;
    } else {
      assert Clamp(i + 1 - 8 * j) == Clamp(i - 8 * j);
    }
  }

  /** The loop that sets the first `mask` bits. */
  method SetMaskBytes(maskBytes: array<Octet>, mask: nat)
    requires mask <= 8 * maskBytes.Length && forall j :: 0 <= j < maskBytes.Length ==> maskBytes[j] == ZERO
    modifies maskBytes
    ensures forall j :: 0 <= j < maskBytes.Length ==> maskBytes[j] == MaskAt(mask, j)
  {
    for i := 0 to mask
      invariant forall j :: 0 <= j < maskBytes.Length ==> maskBytes[j] == MaskAt(i, j)
    {
      var byteId := i / 8;
      var bitIndex := 7 - i % 8;
      forall j | 0 <= j < maskBytes.Length
        ensures MaskAt(i + 1, j) == if j == byteId then Or(MaskAt(i, j), OneShifted(bitIndex)) else MaskAt(i, j)
      {
        MaskStep(i, j);
      }
      maskBytes[byteId] := Or(maskBytes[byteId], OneShifted(bitIndex));
    }
  }

  /** The two loops of operator>>, for an address of any width. */
  method MakeRange(addressBytes: seq<Octet>, mask: nat) returns (min: array<Octet>, max: array<Octet>)
    requires mask <= 8 * |addressBytes|
    ensures min[..] == MinBytes(addressBytes, mask) && max[..] == MaxBytes(addressBytes, mask)
  {
    var n := |addressBytes|;
    var maskBytes := new Octet[n](_ => ZERO);
    SetMaskBytes(maskBytes, mask);
    min, max := ApplyMask(addressBytes, maskBytes);
  }

  method ApplyMask(addressBytes: seq<Octet>, maskBytes: array<Octet>) returns (min: array<Octet>, max: array<Octet>)
    requires maskBytes.Length == |addressBytes|
    ensures min.Length == max.Length == |addressBytes|
    ensures forall j :: 0 <= j < |addressBytes| ==> min[j] == And(addressBytes[j], maskBytes[j])
    ensures forall j :: 0 <= j < |addressBytes| ==> max[j] == Or(addressBytes[j], Not(maskBytes[j]))
  {
    var n := |addressBytes|;
    min := new Octet[n](_ => ZERO);
    max := new Octet[n](_ => ZERO);
    for i := 0 to n
      invariant forall j :: 0 <= j < i ==> min[j] == And(addressBytes[j], maskBytes[j])
      invariant forall j :: 0 <= j < i ==> max[j] == Or(addressBytes[j], Not(maskBytes[j]))
    {
      min[i] := And(addressBytes[i], maskBytes[i]);
      max[i] := Or(addressBytes[i], Not(maskBytes[i]));
    }
  }

  /** operator>> for an address and a prefix length. */
  method MakeSubnet(address: Address, mask: nat) returns (network: Option<Range>)
    requires ValidAddress(address)
    ensures network == Subnet(address, mask)
  {
    if address.V4? {
      if mask > 32 {
        return None;
      }
      var min, max := MakeRange(address.bytes, mask);
      return Some(Range(V4(min[..]), V4(max[..])));
    } else {
      if mask > 128 {
        return None;
      }
      var min, max := MakeRange(address.bytes, mask);
      return Some(Range(V6(min[..], 0), V6(max[..], 0)));
    }
  }
}
