/** Polynomials over the field of two elements, and the CRCs as remainders of a division. */
module Polynomials {
  import opened Words
  import opened Bytes
  import opened Crc

  // ---------- Polynomials as numbers: bit i is the coefficient of x^i ----------

  /** The product; the sum is the exclusive or. */
  function Product(q: nat, g: nat): nat
    decreases q
  {
    if q == 0 then 0 else Xor(Chosen(q, g), 2 * Product(q / 2, g))
  }

  /** a and b differ by a multiple of g. */
  ghost predicate Congruent(a: nat, b: nat, g: nat) {
    exists q: nat :: Xor(a, b) == Product(q, g)
  }

  /** r is the remainder of m divided by g, which has degree deg. */
  ghost predicate IsRemainder(r: nat, m: nat, g: nat, deg: nat) {
    r < Pow2(deg) && Congruent(m, r, g)
  }

  ghost predicate Degree(g: nat, deg: nat) {
    Pow2(deg) <= g < Pow2(deg + 1)
  }

  // ---------- Exclusive or and doubling ----------

  lemma XorDouble(a: nat, b: nat)
    ensures Xor(2 * a, 2 * b) == 2 * Xor(a, b)
  {
    if a + b == 0 {
      XorSame(0);
    } else {
      assert (2 * a) / 2 == a && (2 * b) / 2 == b;
    }
  }

  lemma {:induction false} ProductSum(q: nat, r: nat, g: nat)
    ensures Product(Xor(q, r), g) == Xor(Product(q, g), Product(r, g))
    decreases q + r
  {
    hide Xor, Product, Chosen;
    if q + r == 0 {
      XorSame(0);
      ProductNone(g);
    } else {
      ProductSum(q / 2, r / 2, g);
      XorHalf(q, r);
      ProductStep(q, g);
      ProductStep(r, g);
      ProductStep(Xor(q, r), g);
      SumStep(q, r, g, Product(q / 2, g), Product(r / 2, g));
      ChosenSum(q, r, Xor(q, r), g);
    }
  }

  /** g or zero, as the low bit says. */
  function Chosen(q: nat, g: nat): nat {
    if q % 2 == 1 then g else 0
  }

  lemma SumStep(q: nat, r: nat, g: nat, s: nat, t: nat)
    ensures Xor(Xor(Chosen(q, g), 2 * s), Xor(Chosen(r, g), 2 * t))
            == Xor(Xor(Chosen(q, g), Chosen(r, g)), 2 * Xor(s, t))
  {
    hide Xor, Chosen;
    XorDouble(s, t);
    XorSwap(Chosen(q, g), 2 * s, Chosen(r, g), 2 * t);
  }

  lemma ChosenSum(q: nat, r: nat, x: nat, g: nat)
    requires x % 2 == (q + r) % 2
    ensures Chosen(x, g) == Xor(Chosen(q, g), Chosen(r, g))
  {
    hide Xor;
    XorSame(g);
    XorNone(g);
    XorSame(0);
  }

  lemma ProductStep(q: nat, g: nat)
    ensures Product(q, g) == Xor(Chosen(q, g), 2 * Product(q / 2, g))
  {
    if q == 0 {
      XorSame(0);
    }
  }

  lemma ProductDouble(q: nat, g: nat)
    ensures Product(2 * q, g) == 2 * Product(q, g)
  {
    ProductStep(2 * q, g);
    XorNone(2 * Product(q, g));
    assert (2 * q) / 2 == q;
  }

  // ---------- Congruence ----------

  lemma CongruentBy(a: nat, b: nat, g: nat, q: nat)
    requires Xor(a, b) == Product(q, g)
    ensures Congruent(a, b, g)
  {}

  lemma CongruentSame(a: nat, g: nat)
    ensures Congruent(a, a, g)
  {
    XorSame(a);
    CongruentBy(a, a, g, 0);
  }

  lemma CongruentSwap(a: nat, b: nat, g: nat)
    requires Congruent(a, b, g)
    ensures Congruent(b, a, g)
  {
    XorComm(a, b);
  }

  lemma CongruentTrans(a: nat, b: nat, c: nat, g: nat)
    requires Congruent(a, b, g) && Congruent(b, c, g)
    ensures Congruent(a, c, g)
  {
    hide Xor, Product;
    var q: nat :| Xor(a, b) == Product(q, g);
    var r: nat :| Xor(b, c) == Product(r, g);
    ProductSum(q, r, g);
    XorAssoc(Xor(a, b), b, c);
    XorBack(a, b);
    CongruentBy(a, c, g, Xor(q, r));
  }

  lemma CongruentSum(a: nat, b: nat, c: nat, g: nat)
    requires Congruent(a, b, g)
    ensures Congruent(Xor(a, c), Xor(b, c), g)
  {
    hide Xor, Product;
    var q: nat :| Xor(a, b) == Product(q, g);
    XorSwap(a, c, b, c);
    XorSame(c);
    XorNone(Xor(a, b));
    CongruentBy(Xor(a, c), Xor(b, c), g, q);
  }

  lemma CongruentDouble(a: nat, b: nat, g: nat)
    requires Congruent(a, b, g)
    ensures Congruent(2 * a, 2 * b, g)
  {
    var q: nat :| Xor(a, b) == Product(q, g);
    XorDouble(a, b);
    ProductDouble(q, g);
    CongruentBy(2 * a, 2 * b, g, 2 * q);
  }

  lemma {:induction false} CongruentUp(a: nat, b: nat, g: nat, k: nat)
    requires Congruent(a, b, g)
    ensures UpBits(a, k) >= 0 && UpBits(b, k) >= 0 && Congruent(UpBits(a, k), UpBits(b, k), g)
  {
    hide Congruent;
    if k > 0 {
      CongruentUp(a, b, g, k - 1);
      CongruentDouble(UpBits(a, k - 1), UpBits(b, k - 1), g);
    }
  }

  // ---------- A remainder is unique ----------

  /** A number with a higher top bit keeps it. */
  lemma {:induction false} XorTop(a: nat, b: nat, k: nat)
    requires a < Pow2(k) <= b < Pow2(k + 1)
    ensures Pow2(k) <= Xor(a, b) < Pow2(k + 1)
  {
    hide Xor;
    if k == 0 {
      XorNone(b);
    } else {
      XorTop(a / 2, b / 2, k - 1);
      XorHalf(a, b);
    }
  }

  /** A multiple of g other than zero has at least its degree. */
  lemma {:induction false} ProductTop(q: nat, g: nat, deg: nat) returns (k: nat)
    requires q > 0 && Degree(g, deg)
    ensures Pow2(deg + k) <= Product(q, g) < Pow2(deg + k + 1)
    ensures q > 1 ==> k > 0
    decreases q
  {
    hide Xor, Product;
    ProductStep(q, g);
    if q == 1 {
      k := 0;
      assert Product(0, g) == 0 by { ProductNone(g); }
      XorNone(g);
    } else {
      var j := ProductTop(q / 2, g, deg);
      k := j + 1;
      assert Pow2(deg + k) == 2 * Pow2(deg + j) && Pow2(deg + k + 1) == 2 * Pow2(deg + j + 1);
      Pow2Grows(deg, j);
      XorTop(Chosen(q, g), 2 * Product(q / 2, g), deg + k);
    }
  }

  lemma ProductNone(g: nat)
    ensures Product(0, g) == 0
  {}

  lemma {:induction false} Pow2Grows(deg: nat, j: nat)
    ensures Pow2(deg + 1) <= Pow2(deg + j + 1)
  {
    if j > 0 {
      Pow2Grows(deg, j - 1);
    }
  }

  /** Two remainders of the same division are equal. */
  lemma RemainderUnique(r: nat, s: nat, m: nat, g: nat, deg: nat)
    requires Degree(g, deg) && IsRemainder(r, m, g, deg) && IsRemainder(s, m, g, deg)
    ensures r == s
  {
    hide Xor, Product;
    CongruentSwap(m, r, g);
    CongruentTrans(r, m, s, g);
    var q: nat :| Xor(r, s) == Product(q, g);
    XorBound(r, s, deg);
    if q > 0 {
      var k := ProductTop(q, g, deg);
      if k > 0 { Pow2Grows(deg, k - 1); }
    } else {
      ProductNone(g);
    }
    XorZero(r, s);
  }

  // ---------- CRC-8 ----------

  /** The bytes read as a polynomial, the first bit of the first byte highest, in front of it m. */
  function Message8(m: nat, s: seq<byte>): nat
    decreases |s|
  {
    if |s| == 0 then m else Message8(256 * m + s[0], s[1..])
  }

  /** x^8 + x^2 + x + 1. */
  const G8: nat := 0x107

  lemma {:induction false} XorTops(a: nat, b: nat, k: nat)
    requires a < Pow2(k) && b < Pow2(k)
    ensures Xor(Pow2(k) + a, Pow2(k) + b) == Xor(a, b)
  {
    hide Xor, Pow2;
    if k == 0 {
      NoBits(a);
      NoBits(b);
      XorSame(Pow2(0));
      XorSame(0);
    } else {
      TopHalf(a, k);
      TopHalf(b, k);
      XorTops(a / 2, b / 2, k - 1);
      XorHalf(Pow2(k) + a, Pow2(k) + b);
      XorHalf(a, b);
      SameParity(Pow2(k) + a, a, Pow2(k) + b, b);
      Halves(Xor(Pow2(k) + a, Pow2(k) + b), Xor(a, b));
    }
  }

  lemma NoBits(a: nat)
    requires a < Pow2(0)
    ensures a == 0
  {}

  lemma TopHalf(a: nat, k: nat)
    requires k > 0 && a < Pow2(k)
    ensures a / 2 < Pow2(k - 1) && (Pow2(k) + a) / 2 == Pow2(k - 1) + a / 2 && (Pow2(k) + a) % 2 == a % 2
  {}

  lemma SameParity(x: nat, a: nat, y: nat, b: nat)
    requires x % 2 == a % 2 && y % 2 == b % 2
    ensures (x + y) % 2 == (a + b) % 2
  {}

  lemma ShiftCongruent8(c: byte)
    ensures Congruent(2 * c as int, Shift8(c), G8)
  {
    hide Xor, Product;
    SmallPowers();
    if c >= 0x80 {
      var lo := 2 * c as int - 256;
      XorTops(lo, 7, 8);
      var z: nat := 2 * c as int;
      assert Shift8(c) == Xor(z, G8);
      XorSelf(z, G8);
      ProductStep(1, G8);
      ProductNone(G8);
      XorNone(G8);
      CongruentBy(z, Xor(z, G8), G8, 1);
    } else {
      CongruentSame(2 * c as int, G8);
    }
  }

  lemma XorSelf(a: nat, b: nat)
    ensures Xor(a, Xor(a, b)) == b
  {
    XorAssoc(a, a, b);
    XorSame(a);
    XorNone(b);
  }

  lemma {:induction false} TimesCongruent8(c: byte, n: nat)
    ensures UpBits(c, n) >= 0 && Congruent(UpBits(c, n), Times8(c, n), G8)
  {
    hide Congruent, Shift8;
    if n == 0 {
      CongruentSame(c, G8);
    } else {
      TimesCongruent8(c, n - 1);
      CongruentDouble(UpBits(c, n - 1), Times8(c, n - 1), G8);
      ShiftCongruent8(Times8(c, n - 1));
      CongruentTrans(UpBits(c, n), 2 * Times8(c, n - 1) as int, Times8(c, n), G8);
    }
  }

  lemma AppendByte(m: nat, d: byte)
    ensures UpBits(m, 8) == 256 * m && Xor(256 * m, d) == 256 * m + d
  {
    hide Xor;
    UpBitsEight(m);
    SmallPowers();
    XorLow(m, 0, d, 8);
    XorNone(d);
  }

  lemma {:induction false} CrcCongruent8(c: byte, m: nat, s: seq<byte>)
    requires Congruent(256 * m, c, G8)
    ensures Congruent(256 * Message8(m, s), Crc8From(c, s), G8)
    decreases |s|
  {
    hide Congruent, Times8, Xor;
    if |s| > 0 {
      var d := s[0];
      var next: nat := 256 * m + d;
      AppendByte(m, d);
      CongruentSum(256 * m, c, d, G8);
      var x := XorByte(c, d);
      CongruentUp(next, x, G8, 8);
      UpBitsEight(next);
      TimesCongruent8(x, 8);
      CongruentTrans(256 * next, UpBits(x, 8), Feed8(c, d), G8);
      CrcCongruent8(Feed8(c, d), next, s[1..]);
    }
  }

  /** CRC-8 is the remainder of the message times x^8 divided by x^8 + x^2 + x + 1. */
  lemma Crc8IsRemainder(s: seq<byte>)
    ensures Pow2(8) + Pow2(2) + Pow2(1) + Pow2(0) == 0x107 && Degree(0x107, 8)
    ensures IsRemainder(Crc8(s), 256 * Message8(0, s), 0x107, 8)
  {
    hide Congruent;
    SmallPowers();
    assert Pow2(9) == 2 * Pow2(8);
    assert Pow2(2) == 4 && Pow2(1) == 2 && Pow2(0) == 1;
    CongruentSame(0, G8);
    CrcCongruent8(0, 0, s);
  }

  // ---------- CRC-16, reflected ----------

  /** The low n bits in reverse order. */
  function Reversed(c: nat, n: nat): nat {
    if n == 0 then 0 else (if c % 2 == 1 then Pow2(n - 1) else 0) + Reversed(c / 2, n - 1)
  }

  /** The bytes read as a polynomial, the last bit of the first byte highest, in front of it m. */
  function Message16(m: nat, s: seq<byte>): nat
    decreases |s|
  {
    if |s| == 0 then m else Message16(256 * m + Reversed(s[0], 8), s[1..])
  }

  /** x^16 + x^15 + x^2 + 1. */
  const G16: nat := 0x18005

  lemma {:induction false} ReversedBound(c: nat, n: nat)
    ensures Reversed(c, n) < Pow2(n)
  {
    if n > 0 {
      ReversedBound(c / 2, n - 1);
    }
  }

  lemma {:induction false} ReversedUp(c: nat, n: nat)
    requires c < Pow2(n)
    ensures Reversed(c, n + 1) == 2 * Reversed(c, n)
  {
    if n > 0 {
      ReversedUp(c / 2, n - 1);
    }
  }

  lemma {:induction false} Pow2Rises(n: nat, k: nat)
    ensures Pow2(n) <= Pow2(n + k)
  {
    if k > 0 {
      Pow2Rises(n, k - 1);
    }
  }

  lemma {:induction false} ReversedUps(c: nat, n: nat, k: nat)
    requires c < Pow2(n)
    ensures Reversed(c, n + k) == UpBits(Reversed(c, n), k)
  {
    hide Reversed;
    if k > 0 {
      ReversedUps(c, n, k - 1);
      Pow2Rises(n, k - 1);
      ReversedUp(c, n + k - 1);
    }
  }

  lemma {:induction false} ReversedSum(a: nat, b: nat, n: nat)
    ensures Reversed(Xor(a, b), n) == Xor(Reversed(a, n), Reversed(b, n))
  {
    hide Xor, Pow2, Reversed;
    if n == 0 {
      NothingLeft(a);
      NothingLeft(b);
      NothingLeft(Xor(a, b));
      XorSame(0);
    } else {
      ReversedSum(a / 2, b / 2, n - 1);
      XorHalf(a, b);
      ReversedStep(a, n);
      ReversedStep(b, n);
      ReversedStep(Xor(a, b), n);
      ReversedBound(a / 2, n - 1);
      ReversedBound(b / 2, n - 1);
      TopsSum(a % 2 == 1, Reversed(a / 2, n - 1), b % 2 == 1, Reversed(b / 2, n - 1), n - 1);
    }
  }

  /** Top bits and the rest add separately. */
  lemma TopsSum(s: bool, a: nat, t: bool, b: nat, k: nat)
    requires a < Pow2(k) && b < Pow2(k)
    ensures Xor((if s then Pow2(k) else 0) + a, (if t then Pow2(k) else 0) + b)
            == (if s != t then Pow2(k) else 0) + Xor(a, b)
  {
    hide Xor;
    XorTops(a, b, k);
    XorLow(1, a, b, k);
    XorLow(1, b, a, k);
    XorComm(a, b);
    XorComm(a, Pow2(k) + b);
  }

  lemma {:induction false} ReversedZero(c: nat, n: nat)
    requires c < Pow2(n)
    ensures Reversed(c, n) == 0 <==> c == 0
  {
    if n > 0 {
      ReversedZero(c / 2, n - 1);
    }
  }

  /** No two numbers of n bits have the same reversal. */
  lemma ReversedInjective(a: nat, b: nat, n: nat)
    requires a < Pow2(n) && b < Pow2(n)
    ensures Reversed(a, n) == Reversed(b, n) <==> a == b
  {
    ReversedSum(a, b, n);
    XorBound(a, b, n);
    ReversedZero(Xor(a, b), n);
    XorZero(Reversed(a, n), Reversed(b, n));
    XorZero(a, b);
  }

  lemma ReversedStep(c: nat, n: nat)
    requires n > 0
    ensures Reversed(c, n) == (if c % 2 == 1 then Pow2(n - 1) else 0) + Reversed(c / 2, n - 1)
  {}

  /** The reversed polynomial of the code is the one of the division without its leading term. */
  lemma PolynomialReversed()
    ensures Reversed(0xA001, 16) == 0x8005
  {
    hide Reversed;
    SmallPowers();
    assert Pow2(16) == 2 * Pow2(15) && Pow2(2) == 4 && Pow2(0) == 1;
    ReversedStep(0xA001, 16); ReversedStep(0x5000, 15); ReversedStep(0x2800, 14);
    ReversedStep(0x1400, 13); ReversedStep(0xA00, 12); ReversedStep(0x500, 11);
    ReversedStep(0x280, 10); ReversedStep(0x140, 9); ReversedStep(0xA0, 8);
    ReversedStep(0x50, 7); ReversedStep(0x28, 6); ReversedStep(0x14, 5);
    ReversedStep(0xA, 4); ReversedStep(0x5, 3); ReversedStep(0x2, 2);
    ReversedStep(0x1, 1);
    NothingLeft(0);
  }

  lemma NothingLeft(c: nat)
    ensures Reversed(c, 0) == 0
  {}

  lemma ShiftCongruent16(c: half)
    ensures Congruent(2 * Reversed(c, 16), Reversed(Shift16(c), 16), G16)
  {
    hide Xor, Product, Congruent;
    SmallPowers();
    assert Pow2(16) == 2 * Pow2(15);
    var h, r := c / 2, Reversed(c / 2, 16);
    ReversedUp(h, 15);
    if c % 2 == 1 {
      ReversedBound(h, 16);
      ReversedSum(h, 0xA001, 16);
      PolynomialReversed();
      XorTops(r, 0x8005, 16);
      var z: nat := 65536 + r;
      XorSelf(z, G16);
      ProductStep(1, G16);
      ProductNone(G16);
      XorNone(G16);
      CongruentBy(z, Xor(z, G16), G16, 1);
    } else {
      CongruentSame(r, G16);
    }
  }

  lemma {:induction false} TimesCongruent16(c: half, n: nat)
    ensures UpBits(Reversed(c, 16), n) >= 0
            && Congruent(UpBits(Reversed(c, 16), n), Reversed(Times16(c, n), 16), G16)
  {
    hide Congruent, Shift16, Reversed;
    if n == 0 {
      CongruentSame(Reversed(c, 16), G16);
    } else {
      TimesCongruent16(c, n - 1);
      var before := Reversed(Times16(c, n - 1), 16);
      CongruentDouble(UpBits(Reversed(c, 16), n - 1), before, G16);
      ShiftCongruent16(Times16(c, n - 1));
      CongruentTrans(UpBits(Reversed(c, 16), n), 2 * before, Reversed(Times16(c, n), 16), G16);
    }
  }

  lemma {:induction false} XorUp(a: nat, b: nat, k: nat)
    ensures UpBits(a, k) >= 0 && UpBits(b, k) >= 0 && Xor(UpBits(a, k), UpBits(b, k)) == UpBits(Xor(a, b), k)
  {
    UpBitsPositive(a, k);
    UpBitsPositive(b, k);
    if k > 0 {
      XorUp(a, b, k - 1);
      XorDouble(UpBits(a, k - 1), UpBits(b, k - 1));
    }
  }

  /** Feeding a byte appends its reversed bits to the message. */
  lemma AppendReversed(m: nat, c: half, d: byte)
    requires Congruent(65536 * m, Reversed(c, 16), G16)
    ensures Congruent(256 * (256 * m + Reversed(d, 8)), Reversed(XorHalfWord(c, d), 16), G16)
  {
    hide Congruent, Xor, Reversed;
    SmallPowers();
    var rd := Reversed(d, 8);
    ReversedBound(d, 8);
    ReversedUps(d, 8, 8);
    UpBitsEight(rd);
    ReversedSum(c, d, 16);
    CongruentSum(65536 * m, Reversed(c, 16), 256 * rd, G16);
    AppendByte(m, rd);
    XorUp(256 * m, rd, 8);
    UpBitsEight(256 * m);
    UpBitsEight(256 * m + rd);
  }

  lemma {:induction false} CrcCongruent16(c: half, m: nat, s: seq<byte>)
    requires Congruent(65536 * m, Reversed(c, 16), G16)
    ensures Congruent(65536 * Message16(m, s), Reversed(Crc16From(c, s), 16), G16)
    decreases |s|
  {
    hide Congruent, Times16, Xor, Reversed;
    if |s| > 0 {
      var d := s[0];
      var next := 256 * m + Reversed(d, 8);
      var x := XorHalfWord(c, d);
      AppendReversed(m, c, d);
      CongruentUp(256 * next, Reversed(x, 16), G16, 8);
      UpBitsEight(256 * next);
      TimesCongruent16(x, 8);
      CongruentTrans(65536 * next, UpBits(Reversed(x, 16), 8), Reversed(Feed16(c, d), 16), G16);
      CrcCongruent16(Feed16(c, d), next, s[1..]);
    }
  }

  /** CRC-16, its bits reversed, is the remainder of the message times x^16 divided by x^16 + x^15 + x^2 + 1. */
  lemma Crc16IsRemainder(s: seq<byte>)
    ensures Pow2(16) + Pow2(15) + Pow2(2) + Pow2(0) == 0x18005 && Degree(0x18005, 16)
    ensures IsRemainder(Reversed(Crc16(s), 16), 65536 * Message16(0, s), 0x18005, 16)
  {
    hide Congruent, Reversed;
    SmallPowers();
    assert Pow2(17) == 2 * Pow2(16) && Pow2(16) == 2 * Pow2(15);
    assert Pow2(2) == 4 && Pow2(0) == 1;
    NothingReversed();
    CongruentSame(0, G16);
    CrcCongruent16(0, 0, s);
    ReversedBound(Crc16(s), 16);
  }

  lemma NothingReversed()
    ensures Reversed(0, 16) == 0
  {
    ReversedZero(0, 16);
  }

  // ---------- Codewords ----------

  /** x can be cancelled, as g has a constant term. */
  lemma CongruentHalve(a: nat, g: nat)
    requires g % 2 == 1 && Congruent(2 * a, 0, g)
    ensures Congruent(a, 0, g)
  {
    hide Xor, Product;
    var q: nat :| Xor(2 * a, 0) == Product(q, g);
    XorNone(2 * a);
    XorNone(a);
    ProductStep(q, g);
    XorHalf(Chosen(q, g), 2 * Product(q / 2, g));
    assert q % 2 == 0;
    ProductDouble(q / 2, g);
    CongruentBy(a, 0, g, q / 2);
  }

  lemma {:induction false} CongruentDown(a: nat, g: nat, k: nat)
    requires g % 2 == 1 && UpBits(a, k) >= 0
    ensures Congruent(UpBits(a, k), 0, g) <==> Congruent(a, 0, g)
  {
    hide Congruent;
    UpBitsPositive(a, k);
    if k > 0 {
      UpBitsPositive(a, k - 1);
      CongruentDown(a, g, k - 1);
      if Congruent(UpBits(a, k), 0, g) {
        CongruentHalve(UpBits(a, k - 1), g);
      }
      if Congruent(UpBits(a, k - 1), 0, g) {
        CongruentDouble(UpBits(a, k - 1), 0, g);
      }
    }
  }

  lemma MultipleOf(a: nat, g: nat)
    ensures Congruent(a, 0, g) <==> exists q: nat :: a == Product(q, g)
  {
    hide Xor, Product;
    XorNone(a);
    if Congruent(a, 0, g) {
      var q: nat :| Xor(a, 0) == Product(q, g);
      assert a == Product(q, g);
    }
    if exists q: nat :: a == Product(q, g) {
      var q: nat :| a == Product(q, g);
      CongruentBy(a, 0, g, q);
    }
  }

  /** The strings with CRC-16 zero are exactly the multiples of x^16 + x^15 + x^2 + 1. */
  lemma Codewords16(s: seq<byte>)
    ensures Crc16(s) == 0 <==> exists q: nat :: Message16(0, s) == Product(q, 0x18005)
  {
    hide Congruent, Reversed, Message16, Crc16, Product;
    var m := Message16(0, s);
    var c := Reversed(Crc16(s), 16);
    Crc16IsRemainder(s);
    SmallPowers();
    ReversedZero(Crc16(s), 16);
    MultipleOf(m, G16);
    UpBitsPositive(m, 16);
    Up16(m);
    CongruentDown(m, G16, 16);
    if Congruent(m, 0, G16) {
      RemainderUnique(c, 0, 65536 * m, G16, 16);
    }
  }

  lemma Up16(m: nat)
    ensures UpBits(m, 16) == 65536 * m
  {
    UpBitsEight(m);
    UpBitsEight(256 * m);
    UpBitsUpBits(m, 8, 8);
  }

  /** The strings with CRC-8 zero are exactly the multiples of x^8 + x^2 + x + 1. */
  lemma Codewords8(s: seq<byte>)
    ensures Crc8(s) == 0 <==> exists q: nat :: Message8(0, s) == Product(q, 0x107)
  {
    hide Congruent, Message8, Crc8, Product;
    var m := Message8(0, s);
    Crc8IsRemainder(s);
    SmallPowers();
    MultipleOf(m, G8);
    UpBitsPositive(m, 8);
    UpBitsEight(m);
    CongruentDown(m, G8, 8);
    if Congruent(m, 0, G8) {
      RemainderUnique(Crc8(s), 0, 256 * m, G8, 8);
    }
  }
}
