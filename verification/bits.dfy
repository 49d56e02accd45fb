/** Bytes, bitwise operations and the masks of src/common/hash.c: `x & (cap - 1)` for a power-of-two cap is the remainder. */
module Bits {

  type Byte = b: nat | b < 256

  predicate IsPow2(c: nat) {
    c == 1 || (c > 0 && c % 2 == 0 && IsPow2(c / 2))
  }

  /** The bitwise and of two natural numbers. */
  function And(a: nat, b: nat): (r: nat)
    ensures r <= b
  {
    if a == 0 || b == 0 then 0
    else (if a % 2 == 1 && b % 2 == 1 then 1 else 0) + 2 * And(a / 2, b / 2)
  }

  /** The bitwise exclusive or of two natural numbers. */
  function Xor(a: nat, b: nat): nat {
    if a == 0 then b
    else if b == 0 then a
    else (if a % 2 == b % 2 then 0 else 1) + 2 * Xor(a / 2, b / 2)
  }

  lemma MultipleIsFar(k: int, c: int)
    requires c > 0
    ensures k >= 1 ==> k * c >= c
    ensures k <= -1 ==> k * c <= -c
  {
  }

  lemma ModUnique(x: int, q: int, r: int, c: int)
    requires c > 0 && 0 <= r < c && x == q * c + r
    ensures x % c == r
  {
    var k := q - x / c;
    assert k * c == x % c - r by {
      assert x == (x / c) * c + x % c;
      assert k * c == q * c - (x / c) * c;
    }
    MultipleIsFar(k, c);
  }

  lemma ModHalf(a: nat, h: nat)
    requires h > 0
    ensures a % (2 * h) == a % 2 + 2 * (a / 2 % h)
  {
    var q, r := a / 2 / h, a / 2 % h;
    assert a / 2 == q * h + r;
    assert q * (2 * h) == 2 * (q * h);
    ModUnique(a, q, 2 * r + a % 2, 2 * h);
  }

  lemma {:induction false} MaskIsMod(a: nat, c: nat)
    requires IsPow2(c)
    ensures And(a, c - 1) == a % c
  {
    if c > 1 {
      var h := c / 2;
      MaskIsMod(a / 2, h);
      ModHalf(a, h);
      assert (c - 1) / 2 == h - 1 && (c - 1) % 2 == 1;
      if a == 0 {
        ModUnique(0, 0, 0, c);
      }
    }
  }

  lemma ModAdd(x: int, y: int, c: nat)
    requires c > 0
    ensures (x % c + y) % c == (x + y) % c
  {
    var q, r := (x % c + y) / c, (x % c + y) % c;
    var p := x / c;
    assert x + y == (p + q) * c + r by {
      assert x == p * c + x % c;
      assert x % c + y == q * c + r;
    }
    ModUnique(x + y, p + q, r, c);
  }

  // ---------- Exclusive or, digit by digit ----------

  function Power(k: nat): nat {
    if k == 0 then 1 else 2 * Power(k - 1)
  }

  lemma XorHalf(a: nat, b: nat)
    ensures Xor(a, b) == (if a % 2 == b % 2 then 0 else 1) + 2 * Xor(a / 2, b / 2)
  {
  }

  lemma XorStep(x: nat, r: nat, y: nat, t: nat, z: nat)
    requires Xor(x + r / 2, y + t / 2) == z + Xor(r / 2, t / 2)
    ensures Xor(2 * x + r, 2 * y + t) == 2 * z + Xor(r, t)
  {
    hide Xor;
    XorHalf(2 * x + r, 2 * y + t);
    XorHalf(r, t);
  }

  lemma Twice(w: nat, p: nat)
    ensures (2 * w) * p == 2 * (w * p)
  {
  }

  lemma {:induction false} XorDigits(p: nat, r: nat, q: nat, t: nat, k: nat)
    requires r < Power(k) && t < Power(k)
    ensures Xor(Power(k) * p + r, Power(k) * q + t) == Power(k) * Xor(p, q) + Xor(r, t)
    decreases k
  {
    if k == 0 {
      assert Xor(0, 0) == 0;
    } else {
      var w := Power(k - 1);
      XorDigitsOnce(p, r, q, t, w) by { XorDigits(p, r / 2, q, t / 2, k - 1); }
    }
  }

  lemma XorDigitsOnce(p: nat, r: nat, q: nat, t: nat, w: nat)
    requires Xor(w * p + r / 2, w * q + t / 2) == w * Xor(p, q) + Xor(r / 2, t / 2)
    ensures Xor((2 * w) * p + r, (2 * w) * q + t) == (2 * w) * Xor(p, q) + Xor(r, t)
  {
    hide Xor;
    Twice(w, p);
    Twice(w, q);
    Twice(w, Xor(p, q));
    XorStep(w * p, r, w * q, t, w * Xor(p, q));
  }

  /** Two bytes, given by their hexadecimal digits. */
  lemma XorHex(p: nat, r: nat, q: nat, t: nat)
    requires r < 16 && t < 16
    ensures Xor(16 * p + r, 16 * q + t) == 16 * Xor(p, q) + Xor(r, t)
  {
    assert Power(4) == 16;
    XorDigits(p, r, q, t, 4);
  }

  /** A byte changes the lowest byte alone. */
  lemma XorByte(q: nat, r: Byte, b: Byte)
    ensures Xor(0x100 * q + r, b) == 0x100 * q + Xor(r, b)
  {
    assert Power(8) == 0x100 by { assert Power(4) == 16; }
    XorDigits(q, r, 0, b, 8);
  }

  /** Two hexadecimal digits, bit by bit. */
  lemma XorBits(a: nat, b: nat)
    requires a < 16 && b < 16
    ensures Xor(a, b) == (if a % 2 == b % 2 then 0 else 1) + (if a / 2 % 2 == b / 2 % 2 then 0 else 2)
                       + (if a / 4 % 2 == b / 4 % 2 then 0 else 4) + (if a / 8 == b / 8 then 0 else 8)
  {
    assert Xor(0, 0) == 0;
    hide Xor;
    XorHalf(a, b);
    XorHalf(a / 2, b / 2);
    XorHalf(a / 4, b / 4);
    XorHalf(a / 8, b / 8);
    assert a / 2 / 2 == a / 4 && a / 4 / 2 == a / 8 && a / 8 / 2 == 0;
    assert b / 2 / 2 == b / 4 && b / 4 / 2 == b / 8 && b / 8 / 2 == 0;
  }
}
