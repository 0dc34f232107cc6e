/** hash32, on 32-bit words as natural numbers with the bit operations written out. */
module Hashes {
  import opened Order

  type Word32 = x: int | 0 <= x < TWO32

  // ---- Exclusive or ----

  function Xor(a: nat, b: nat): nat
    decreases a + b
  {
    if a == 0 && b == 0 then 0 else 2 * Xor(a / 2, b / 2) + (a + b) % 2
  }

  function Pow2(n: nat): nat {
    if n == 0 then 1 else 2 * Pow2(n - 1)
  }

  lemma {:induction false} XorBound(a: nat, b: nat, n: nat)
    requires a < Pow2(n) && b < Pow2(n)
    ensures Xor(a, b) < Pow2(n)
  {
    if n > 0 && a + b > 0 {
      XorBound(a / 2, b / 2, n - 1);
    }
  }

  /** Bit by bit. */
  lemma XorBits(a: nat, b: nat)
    ensures Xor(a, b) == 2 * Xor(a / 2, b / 2) + (a + b) % 2
    ensures Xor(a, b) / 2 == Xor(a / 2, b / 2) && Xor(a, b) % 2 == (a + b) % 2
  {
  }

  /** Combining twice with the same word gives the other word back. */
  lemma {:induction false} XorTwice(a: nat, b: nat)
    ensures Xor(a, Xor(a, b)) == b
    decreases a + b
  {
    if a + b > 0 {
      var x := Xor(a, b);
      XorBits(a, b);
      XorBits(a, x);
      XorTwice(a / 2, b / 2);
      LowBit(a, b, x);
    }
  }

  lemma LowBit(a: nat, b: nat, x: nat)
    requires x % 2 == (a + b) % 2
    ensures (a + x) % 2 == b % 2
  {
  }

  lemma {:induction false} XorZero(b: nat)
    ensures Xor(0, b) == b
  {
    if b > 0 {
      XorZero(b / 2);
    }
  }

  /** A word of n bits leaves the bits above alone. */
  lemma {:induction false} XorLow(a: nat, q: nat, r: nat, n: nat)
    requires a < Pow2(n) && r < Pow2(n)
    ensures Xor(a, q * Pow2(n) + r) == q * Pow2(n) + Xor(a, r)
    decreases n
  {
    if n == 0 {
      XorZero(q);
    } else {
      var h := q * Pow2(n - 1);
      assert q * Pow2(n) == 2 * h;
      assert (2 * h + r) / 2 == h + r / 2 && (a + (2 * h + r)) % 2 == (a + r) % 2;
      XorBits(a, 2 * h + r);
      XorBits(a, r);
      XorLow(a / 2, q, r / 2, n - 1);
    }
  }

  // ---- The hash ----

  const TWO16 := 0x1_0000
  const MULTIPLIER := 0x45d9f3b
  const INVERSE := 0x119de1f3

  /** Shifting a word right by 16 and combining it with itself changes its low half only. */
  lemma XorShiftLow(x: Word32)
    ensures var q, r := x / TWO16, x % TWO16;
            Xor(q, x) == q * TWO16 + Xor(q, r) && Xor(q, r) < TWO16
  {
    var q, r := x / TWO16, x % TWO16;
    assert Pow2(4) == 16 && Pow2(8) == 16 * Pow2(4) && Pow2(12) == 16 * Pow2(8) && Pow2(16) == 16 * Pow2(12);
    XorLow(q, q, r, 16);
    XorBound(q, r, 16);
  }

  /** (x >> 16) ^ x */
  function XorShift(x: Word32): Word32 {
    XorShiftLow(x);
    Xor(x / TWO16, x)
  }

  lemma XorShiftTwice(x: Word32)
    ensures XorShift(XorShift(x)) == x
  {
    var q, r, y := x / TWO16, x % TWO16, XorShift(x);
    XorShiftLow(x);
    XorShiftLow(y);
    assert y / TWO16 == q && y % TWO16 == Xor(q, r);
    XorTwice(q, r);
  }

  /** Unsigned multiplication keeps the low 32 bits. */
  function Times(x: Word32, m: nat): Word32 {
    x * m % TWO32
  }

  function Hash32(x: Word32): Word32 {
    XorShift(Times(XorShift(Times(XorShift(x), MULTIPLIER)), MULTIPLIER))
  }

  function Unhash32(y: Word32): Word32 {
    XorShift(Times(XorShift(Times(XorShift(y), INVERSE)), INVERSE))
  }

  /** Multiplying by the inverse undoes multiplying, modulo 2^32, both ways. */
  lemma TimesBack(x: Word32, a: nat, b: nat, k: nat)
    requires a * b == 1 + k * TWO32
    ensures Times(Times(x, a), b) == x
  {
    var q, y := x * a / TWO32, Times(x, a);
    assert y == x * a - q * TWO32;
    assert y * b == x * (a * b) - q * TWO32 * b;
    assert y * b == x + (x * k - q * b) * TWO32;
  }

  /** hash32 is a bijection on 32-bit words: no two words collide and every word is a hash. */
  lemma HashIsBijection(x: Word32)
    ensures Unhash32(Hash32(x)) == x && Hash32(Unhash32(x)) == x
  {
    Undo(x, MULTIPLIER, INVERSE);
    Undo(x, INVERSE, MULTIPLIER);
  }

  lemma Undo(x: Word32, m: nat, n: nat)
    requires m * n == 1 + (MULTIPLIER * INVERSE / TWO32) * TWO32
    ensures XorShift(Times(XorShift(Times(XorShift(
              XorShift(Times(XorShift(Times(XorShift(x), m)), m))), n)), n)) == x
  {
    var a := Times(XorShift(x), m);
    var b := Times(XorShift(a), m);
    var k := MULTIPLIER * INVERSE / TWO32;
    XorShiftTwice(b);
    TimesBack(XorShift(a), m, n, k);
    XorShiftTwice(a);
    TimesBack(XorShift(x), m, n, k);
    XorShiftTwice(x);
  }

  lemma NoCollision(x: Word32, y: Word32)
    ensures Hash32(x) == Hash32(y) <==> x == y
  {
    HashIsBijection(x);
    HashIsBijection(y);
  }

  lemma ShortShift(x: Word32)
    requires x < TWO16
    ensures XorShift(x) == x
  {
    XorZero(x);
  }

  /** One of its values, on the way to which no word is longer than 16 bits. */
  lemma OneHash()
    ensures Hash32(XorShift(3477965953)) == 53273
  {
    XorShiftTwice(3477965953);
    assert Times(3477965953, MULTIPLIER) == 32955 && Times(32955, MULTIPLIER) == 53273;
    ShortShift(32955);
    ShortShift(53273);
  }
}
