/** Bitwise operations on naturals, defined bit by bit, so that mio_httpc's
    shifts, masks and ors can be written as they are and then related to
    plain arithmetic. */
module Bits {

  function Pow2(k: nat): (p: nat)
    ensures p >= 1
  {
    if k == 0 then 1 else 2 * Pow2(k - 1)
  }

  /** The width of one half of the packed word. */
  lemma Pow2Of16()
    ensures Pow2(16) == 0x1_0000
  {
    assert Pow2(4) == 16;
    assert Pow2(8) == 256;
    assert Pow2(12) == 4096;
  }

  /** Bitwise or, one bit at a time from the least significant. */
  function Or(a: nat, b: nat): nat
    decreases a + b
  {
    if a == 0 then b
    else if b == 0 then a
    else 2 * Or(a / 2, b / 2) + (if a % 2 == 1 || b % 2 == 1 then 1 else 0)
  }

  /** Bitwise and, one bit at a time from the least significant. */
  function And(a: nat, b: nat): nat
    decreases a + b
  {
    if a == 0 || b == 0 then 0
    else 2 * And(a / 2, b / 2) + (if a % 2 == 1 && b % 2 == 1 then 1 else 0)
  }

  function Shl(a: nat, k: nat): nat
  {
    a * Pow2(k)
  }

  /** Shift right: k halvings, each dropping the lowest bit. */
  function Shr(a: nat, k: nat): nat
  {
    if k == 0 then a else Shr(a / 2, k - 1)
  }

  /** Shifting right by k is dividing by 2^k. */
  lemma {:induction false} ShrIsDiv(a: nat, k: nat)
    ensures Shr(a, k) == a / Pow2(k)
    decreases k
  {
    if k > 0 {
      ShrIsDiv(a / 2, k - 1);
      HalveThenDivide(a, Pow2(k - 1));
    }
  }

  /** (a / 2) / p == a / (2p) */
  lemma HalveThenDivide(a: nat, p: nat)
    requires p >= 1
    ensures (a / 2) / p == a / (2 * p)
  {
    var q, r := (a / 2) / p, (a / 2) % p;
    assert a / 2 == q * p + r;
    assert 2 * (q * p) == q * (2 * p);
    ModUnique(a, 2 * p, q, 2 * r + a % 2);
  }

  /** Or-ing a value into the zero low bits of a shifted word is addition. */
  lemma {:induction false} OrDisjointIsAdd(x: nat, y: nat, k: nat)
    requires y < Pow2(k)
    ensures Or(Shl(x, k), y) == Shl(x, k) + y
    decreases k
  {
    if k == 0 {
      assert y == 0;
    } else if x == 0 {
      assert Shl(x, k) == 0;
    } else if y == 0 {
      assert Shl(x, k) != 0;
    } else {
      var a := Shl(x, k);
      assert a == 2 * (x * Pow2(k - 1));
      assert a / 2 == Shl(x, k - 1) && a % 2 == 0;
      assert y / 2 < Pow2(k - 1);
      OrDisjointIsAdd(x, y / 2, k - 1);
    }
  }

  /** Masking with k one-bits keeps the value modulo 2^k. */
  lemma {:induction false} AndLowMaskIsMod(w: nat, k: nat)
    ensures And(w, Pow2(k) - 1) == w % Pow2(k)
    decreases k
  {
    if k == 0 {
    } else if w == 0 {
    } else {
      var m := Pow2(k) - 1;
      assert m % 2 == 1 && m / 2 == Pow2(k - 1) - 1;
      AndLowMaskIsMod(w / 2, k - 1);
      DivModHalf(w, Pow2(k - 1));
    }
  }

  /** w % 2p == 2 * ((w / 2) % p) + w % 2 */
  lemma DivModHalf(w: nat, p: nat)
    requires p >= 1
    ensures w % (2 * p) == 2 * ((w / 2) % p) + w % 2
  {
    var q, r := (w / 2) / p, (w / 2) % p;
    assert w / 2 == q * p + r;
    assert 2 * (q * p) == q * (2 * p);
    ModUnique(w, 2 * p, q, 2 * r + w % 2);
  }

  /** Quotient and remainder are the only ones of their kind. */
  lemma ModUnique(w: nat, d: nat, q: nat, r: nat)
    requires d > 0 && r < d && w == q * d + r
    ensures w % d == r && w / d == q
  {
    var q', r' := w / d, w % d;
    assert w == q' * d + r' && r' < d;
    if q > q' {
      MulSplit(q', q - q', d);
      assert false;
    } else if q < q' {
      MulSplit(q, q' - q, d);
      assert false;
    }
  }

  lemma MulSplit(a: nat, k: nat, d: nat)
    requires k >= 1
    ensures (a + k) * d >= a * d + d
  {
    assert (a + k) * d == a * d + k * d;
    assert k * d == d + (k - 1) * d;
  }

  /** `w >> 16` is `w / 65536`. */
  lemma ShrSixteen(w: nat)
    ensures Shr(w, 16) == w / 0x1_0000
  {
    Pow2Of16();
    ShrIsDiv(w, 16);
  }

  /** `w & 0xFFFF` is `w % 65536`. */
  lemma MaskSixteen(w: nat)
    ensures And(w, 0xFFFF) == w % 0x1_0000
  {
    Pow2Of16();
    AndLowMaskIsMod(w, 16);
  }
}
