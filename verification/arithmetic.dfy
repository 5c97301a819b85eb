/** Small arithmetic, and counters that wrap around. */
module Arithmetic {

  function Min(a: int, b: int): int
  {
    if a < b then a else b
  }

  function Power2(k: nat): nat
  {
    if k == 0 then 1 else 2 * Power2(k - 1)
  }

  lemma AtLeastOnce(k: nat, m: nat)
    requires k > 0
    ensures k * m >= m
  {
  }

  /** Quotient and remainder are unique. */
  lemma DivUnique(n: int, modulus: nat, q: int, r: nat)
    requires r < modulus && n == q * modulus + r
    ensures n / modulus == q && n % modulus == r
  {
    var q', r' := n / modulus, n % modulus;
    assert n == q' * modulus + r';
    if q < q' { AtLeastOnce(q' - q, modulus); assert false; }
    if q' < q { AtLeastOnce(q - q', modulus); assert false; }
  }

  /** Counting `d` further moves the residue by `d`, wrapping at most once. */
  lemma ModStep(a: nat, d: nat, modulus: nat)
    requires d < modulus
    ensures (a + d) % modulus == if a % modulus + d < modulus then a % modulus + d else a % modulus + d - modulus
  {
    var q, r := a / modulus, a % modulus;
    assert a == q * modulus + r;
    if r + d < modulus {
      DivUnique(a + d, modulus, q, r + d);
    } else {
      assert a + d == (q + 1) * modulus + (r + d - modulus);
      DivUnique(a + d, modulus, q + 1, r + d - modulus);
    }
  }

  /** A residue does not change by whole rounds. */
  lemma ShiftMod(a: int, q: int, modulus: nat)
    requires modulus > 0
    ensures (a - q * modulus) % modulus == a % modulus
  {
    var b := a - q * modulus;
    assert b == (b / modulus) * modulus + b % modulus;
    assert a == (b / modulus + q) * modulus + b % modulus;
    DivUnique(a, modulus, b / modulus + q, b % modulus);
  }

  /** A sum may be reduced in between. */
  lemma ModAdd(a: nat, b: nat, modulus: nat)
    requires modulus > 0
    ensures (a % modulus + b) % modulus == (a + b) % modulus
  {
    ShiftMod(a + b, a / modulus, modulus);
    assert a == (a / modulus) * modulus + a % modulus;
  }

  /** Within one round, residues tell numbers apart. */
  lemma SameResidue(a: nat, b: nat, start: nat, modulus: nat)
    requires start <= a < start + modulus && start <= b < start + modulus && a % modulus == b % modulus
    ensures a == b
  {
    if a < b {
      ModStep(a, b - a, modulus);
    } else if b < a {
      ModStep(b, a - b, modulus);
    }
  }

  /** Counting `i` up and down again gives the residue back. */
  lemma UpAndDown(a: nat, i: nat, modulus: nat)
    requires modulus > 0
    ensures ((a + i) % modulus - i) % modulus == a % modulus
  {
    var b := a + i;
    assert b == (b / modulus) * modulus + b % modulus;
    ShiftMod(a, b / modulus, modulus);
    assert b % modulus - i == a - (b / modulus) * modulus;
  }
}
