/** Bytes, two-byte fields, and exclusive or on natural numbers. */
module Bytes {
  import opened Words

  /** uint8_t. */
  type byte = x: int | 0 <= x < 256

  /** uint16_t. */
  type half = x: int | 0 <= x < 65536

  // ---------- Two-byte fields ----------

  /** rd_u16le: the number two bytes spell, low byte first. */
  function U16(lo: byte, hi: byte): half {
    lo as int + 256 * hi as int
  }

  /** The bytes wr_u16le stores for a number cut to sixteen bits. */
  function LowByte(n: nat): byte {
    n % 256
  }

  function HighByte(n: nat): byte {
    n / 256 % 256
  }

  lemma FieldOfNumber(n: nat)
    ensures U16(LowByte(n), HighByte(n)) == n % 65536
  {
    assert n == n % 256 + 256 * (n / 256 % 256) + 65536 * (n / 256 / 256);
  }

  lemma FieldOfBytes(lo: byte, hi: byte)
    ensures LowByte(U16(lo, hi)) == lo && HighByte(U16(lo, hi)) == hi
  {}

  // ---------- Exclusive or ----------

  function Xor(a: nat, b: nat): nat
    decreases a + b
  {
    if a == 0 && b == 0 then 0 else 2 * Xor(a / 2, b / 2) + (a + b) % 2
  }

  lemma XorHalf(a: nat, b: nat)
    ensures Xor(a, b) / 2 == Xor(a / 2, b / 2) && Xor(a, b) % 2 == (a + b) % 2
  {}

  /** A number is its half and its parity. */
  lemma Halves(a: nat, b: nat)
    requires a / 2 == b / 2 && a % 2 == b % 2
    ensures a == b
  {}

  lemma {:induction false} XorComm(a: nat, b: nat)
    ensures Xor(a, b) == Xor(b, a)
    decreases a + b
  {
    if a + b > 0 {
      XorComm(a / 2, b / 2);
    }
  }

  lemma {:induction false} XorAssoc(a: nat, b: nat, c: nat)
    ensures Xor(Xor(a, b), c) == Xor(a, Xor(b, c))
    decreases a + b + c
  {
    hide Xor;
    if a + b + c > 0 {
      XorAssoc(a / 2, b / 2, c / 2);
      XorHalf(a, b);
      XorHalf(b, c);
      XorHalf(Xor(a, b), c);
      XorHalf(a, Xor(b, c));
      Parity(a, b, c, Xor(a, b), Xor(b, c));
      Halves(Xor(Xor(a, b), c), Xor(a, Xor(b, c)));
    } else {
      assert Xor(0, 0) == 0 by { XorSame(0); }
    }
  }

  lemma Parity(a: nat, b: nat, c: nat, ab: nat, bc: nat)
    requires ab % 2 == (a + b) % 2 && bc % 2 == (b + c) % 2
    ensures (ab + c) % 2 == (a + bc) % 2
  {}

  lemma {:induction false} XorSame(a: nat)
    ensures Xor(a, a) == 0
  {
    if a > 0 {
      XorSame(a / 2);
    }
  }

  lemma {:induction false} XorNone(a: nat)
    ensures Xor(0, a) == a && Xor(a, 0) == a
  {
    if a > 0 {
      XorNone(a / 2);
    }
  }

  lemma XorBack(a: nat, b: nat)
    ensures Xor(Xor(a, b), b) == a
  {
    XorAssoc(a, b, b);
    XorSame(b);
    XorNone(a);
  }

  lemma XorZero(a: nat, b: nat)
    ensures Xor(a, b) == 0 <==> a == b
  {
    XorSame(a);
    XorBack(a, b);
    XorNone(b);
  }

  lemma XorSwap(a: nat, b: nat, c: nat, d: nat)
    ensures Xor(Xor(a, b), Xor(c, d)) == Xor(Xor(a, c), Xor(b, d))
  {
    hide Xor;
    XorAssoc(a, b, Xor(c, d));
    XorAssoc(b, c, d);
    XorComm(b, c);
    XorAssoc(c, b, d);
    XorAssoc(a, c, Xor(b, d));
  }

  lemma {:induction false} XorBound(a: nat, b: nat, k: nat)
    requires a < Pow2(k) && b < Pow2(k)
    ensures Xor(a, b) < Pow2(k)
  {
    if k > 0 {
      XorBound(a / 2, b / 2, k - 1);
    }
  }

  /** Exclusive or with a number of k bits only touches the low k bits. */
  lemma {:induction false} XorLow(h: nat, lo: nat, d: nat, k: nat)
    requires lo < Pow2(k) && d < Pow2(k)
    ensures UpBits(h, k) >= 0 && Xor(UpBits(h, k) + lo, d) == UpBits(h, k) + Xor(lo, d)
  {
    hide Xor;
    UpBitsPositive(h, k);
    if k == 0 {
      XorNone(h);
      XorNone(0);
    } else {
      UpBitsPositive(h, k - 1);
      XorLow(h, lo / 2, d / 2, k - 1);
      XorLowStep(UpBits(h, k - 1), lo, d);
    }
  }

  lemma XorLowStep(up: int, lo: nat, d: nat)
    requires up >= 0 && Xor(up + lo / 2, d / 2) == up + Xor(lo / 2, d / 2)
    ensures Xor(2 * up + lo, d) == 2 * up + Xor(lo, d)
  {
    hide Xor;
    DoubleHalf(up, lo, d);
    XorHalf(2 * up + lo, d);
    XorHalf(lo, d);
    DoubleHalf(up, Xor(lo, d), 0);
    Halves(Xor(2 * up + lo, d), 2 * up + Xor(lo, d));
  }

  lemma DoubleHalf(up: nat, lo: nat, d: nat)
    ensures (2 * up + lo) / 2 == up + lo / 2 && (2 * up + lo + d) % 2 == (lo + d) % 2
  {}

  lemma SmallPowers()
    ensures Pow2(8) == 256 && Pow2(16) == 65536
  {
    assert Pow2(4) == 2 * Pow2(3) && Pow2(6) == 2 * Pow2(5) && Pow2(8) == 2 * Pow2(7);
    assert Pow2(10) == 2 * Pow2(9) && Pow2(12) == 2 * Pow2(11) && Pow2(14) == 2 * Pow2(13) && Pow2(16) == 2 * Pow2(15);
  }

  /** Exclusive or of two bytes. */
  function XorByte(a: byte, b: byte): byte {
    SmallPowers();
    XorBound(a, b, 8);
    Xor(a, b)
  }

  /** Exclusive or of two sixteen-bit numbers. */
  function XorHalfWord(a: half, b: half): half {
    SmallPowers();
    XorBound(a, b, 16);
    Xor(a, b)
  }

  /** Exclusive or with a byte keeps the high byte. */
  lemma XorLowByte(c: half, d: byte)
    ensures XorHalfWord(c, d) == 256 * (c / 256) + XorByte(c % 256, d)
  {
    SmallPowers();
    UpBitsEight(c / 256);
    XorLow(c / 256, c % 256, d, 8);
    assert c == 256 * (c / 256) + c % 256;
  }

  /** Two bytes side by side, as an exclusive or. */
  lemma XorBytes(lo: byte, hi: byte)
    ensures XorHalfWord(256 * hi as int, lo) == U16(lo, hi)
  {
    var c: half := 256 * hi as int;
    XorLowByte(c, lo);
    XorNone(lo);
    assert c / 256 == hi && c % 256 == 0;
  }
}
