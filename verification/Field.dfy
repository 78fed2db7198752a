/** Field elements as micro-ecc keeps them: at most p, not always below it. */
module Field {
  import opened Words
  import opened Vli
  import opened VliMult
  import opened VliMod
  import opened ModInverse
  import opened Secp160r1
  import Secp256r1
  import opened Congruence

  /** The modulus, and whether products go through the curve's own reduction (uECC_OPTIMIZATION_LEVEL > 0). */
  datatype Field = Field(p: nat, fast: bool) {
    predicate Valid() {
      p > 1 && p % 2 == 1 && (fast ==> p == P160 || p == Secp256r1.P256)
    }

    /** The reduction in use is the one that can be wrong. */
    predicate Lossy() {
      fast && p == P160
    }
  }

  /** A register's value, and whether every reduction behind it gave a congruent result. */
  datatype Fe = Fe(v: nat, ok: bool)

  predicate In(f: Field, a: Fe) {
    a.v <= f.p
  }

  function Reduce(f: Field, product: nat): (r: nat)
    requires f.Valid()
    ensures r <= f.p
  {
    if f.Lossy() then FastReduce(product) else product % f.p
  }

  /** Only the fast reduction of secp160r1 can be wrong, and only in its gap. */
  predicate Sound(f: Field, product: nat) {
    f.Lossy() ==> !InGap(Folded(product))
  }

  /** a times b, by repeated addition, so that chains of products stay out of the solver's arithmetic. */
  function Repeated(a: nat, b: nat): nat {
    if a == 0 then 0 else b + Repeated(a - 1, b)
  }

  lemma {:induction false} RepeatedIs(a: nat, b: nat)
    ensures Repeated(a, b) == a * b
  {
    if a > 0 {
      RepeatedIs(a - 1, b);
      assert (a - 1) * b == a * b - b;
    }
  }

  /** The number uECC_vli_mult hands to the reduction. */
  function Product(a: Fe, b: Fe): nat {
    Repeated(a.v, b.v)
  }

  function Mul(f: Field, a: Fe, b: Fe): (r: Fe)
    requires f.Valid() && In(f, a) && In(f, b)
    ensures In(f, r)
  {
    Fe(Reduce(f, Product(a, b)), a.ok && b.ok && Sound(f, Product(a, b)))
  }

  function Add(f: Field, a: Fe, b: Fe): (r: Fe)
    requires f.Valid() && In(f, a) && In(f, b)
    ensures In(f, r)
  {
    Fe(AddMod(a.v, b.v, f.p), a.ok && b.ok)
  }

  function Sub(f: Field, a: Fe, b: Fe): (r: Fe)
    requires f.Valid() && In(f, a) && In(f, b)
    ensures In(f, r)
  {
    Fe(SubMod(a.v, b.v, f.p), a.ok && b.ok)
  }

  /** Half of a, by adding p first when a is odd. */
  function Half(f: Field, a: Fe): (r: Fe)
    requires f.Valid() && In(f, a)
    ensures In(f, r)
  {
    Fe(HalveMod(a.v, f.p), a.ok)
  }

  function Inv(f: Field, a: Fe): (r: Fe)
    requires f.Valid() && In(f, a)
    ensures In(f, r)
  {
    Fe(Inverse(a.v, f.p), a.ok)
  }

  // ---------- What a register stands for ----------

  /** The register holds a number at most p that, if its reductions were sound, is e modulo p. */
  ghost predicate Rep(f: Field, a: Fe, e: int) {
    In(f, a) && (a.ok ==> Cong(a.v, e, f.p))
  }

  lemma RepCong(f: Field, a: Fe, e: int, e': int)
    requires Rep(f, a, e) && Cong(e, e', f.p)
    ensures Rep(f, a, e')
  {
    if a.ok { CongTrans(a.v, e, e', f.p); }
  }

  lemma ProductSmall(a: nat, b: nat)
    requires a <= P160 && b <= P160
    ensures 0 <= a * b < E160 * E160
  {
    MulNonneg(a, b);
    MulMono(a, P160, b);
  }

  /** The reduction contract: congruent and at most p, unless secp160r1's fast reduction meets its gap. */
  lemma ReduceCong(f: Field, a: nat, b: nat)
    requires f.Valid() && a <= f.p && b <= f.p
    ensures a * b >= 0
    ensures Sound(f, a * b) <==> Cong(Reduce(f, a * b), a * b, f.p)
    ensures !f.Lossy() ==> Sound(f, a * b)
  {
    MulNonneg(a, b);
    if f.Lossy() {
      ProductSmall(a, b);
      FastReduceCong(a * b);
    } else {
      CongMod(a * b, f.p);
    }
  }

  lemma RepMul(f: Field, a: Fe, b: Fe, x: int, y: int)
    requires f.Valid() && Rep(f, a, x) && Rep(f, b, y)
    ensures Rep(f, Mul(f, a, b), x * y)
  {
    ReduceCong(f, a.v, b.v);
    RepeatedIs(a.v, b.v);
    if Mul(f, a, b).ok {
      CongMul(a.v, x, b.v, y, f.p);
      CongTrans(Reduce(f, a.v * b.v), a.v * b.v, x * y, f.p);
    }
  }

  lemma RepAdd(f: Field, a: Fe, b: Fe, x: int, y: int)
    requires f.Valid() && Rep(f, a, x) && Rep(f, b, y)
    ensures Rep(f, Add(f, a, b), x + y)
  {
    AddModCong(a.v, b.v, f.p);
    if a.ok && b.ok {
      CongAdd(a.v, x, b.v, y, f.p);
      CongTrans(AddMod(a.v, b.v, f.p), a.v + b.v, x + y, f.p);
    }
  }

  lemma RepSub(f: Field, a: Fe, b: Fe, x: int, y: int)
    requires f.Valid() && Rep(f, a, x) && Rep(f, b, y)
    ensures Rep(f, Sub(f, a, b), x - y)
  {
    SubModCong(a.v, b.v, f.p);
    if a.ok && b.ok {
      CongSub(a.v, x, b.v, y, f.p);
      CongTrans(SubMod(a.v, b.v, f.p), a.v - b.v, x - y, f.p);
    }
  }

  /** Halving gives any h with 2h = x. */
  lemma RepHalf(f: Field, a: Fe, x: int, h: int)
    requires f.Valid() && Rep(f, a, x) && Cong(x, 2 * h, f.p)
    ensures Rep(f, Half(f, a), h)
  {
    HalveModCong(a.v, f.p);
    if a.ok {
      var w := HalveMod(a.v, f.p);
      CongTrans(2 * w, a.v, x, f.p);
      CongTrans(2 * w, x, 2 * h, f.p);
      TwoInvertible(f.p);
      CongCancel(2, w, h, f.p);
    }
  }

  lemma RepInv(f: Field, a: Fe, x: int)
    requires f.Valid() && Rep(f, a, x) && Invertible(x, f.p)
    ensures Inv(f, a).ok ==> Cong(x * Inv(f, a).v, 1, f.p)
  {
    if a.ok {
      CongSym(a.v, x, f.p);
      InvertibleCong(x, a.v, f.p);
      InverseOfUnit(a.v, f.p);
      var i := Inverse(a.v, f.p);
      CongRefl(i, f.p);
      CongMul(x, a.v, i, i, f.p);
      CongTrans(x * i, a.v * i, 1, f.p);
    }
  }

  // ---------- What the operations compute, on the numbers themselves ----------

  /** The product does not fit: secp160r1's fast reduction is in use and its sum lies in [2^161 - c, 2^161 - 1]. */
  predicate Misses(f: Field, product: nat) {
    f.fast && f.p == P160 && 2 * E160 - OMEGA <= Folded(product) <= 2 * E160 - 1
  }

  /** A product is congruent, and adds no unsoundness, exactly when its sum is outside the gap; a small one is exact. */
  lemma MulMeans(f: Field, a: Fe, b: Fe)
    requires f.Valid() && In(f, a) && In(f, b)
    ensures a.v * b.v >= 0 && Mul(f, a, b).v <= f.p
    ensures Cong(Mul(f, a, b).v, a.v * b.v, f.p) <==> !Misses(f, a.v * b.v)
    ensures Mul(f, a, b).ok <==> a.ok && b.ok && !Misses(f, a.v * b.v)
    ensures a.v * b.v < f.p ==> Mul(f, a, b).v == a.v * b.v
  {
    hide Cong, Reduce, Sound, Misses;
    RepeatedIs(a.v, b.v);
    ReduceCong(f, a.v, b.v);
    MissesUnsound(f, a.v * b.v);
    if a.v * b.v < f.p {
      SmallReduced(f, a.v * b.v);
    }
  }

  lemma MissesUnsound(f: Field, product: nat)
    requires f.Valid()
    ensures Misses(f, product) <==> !Sound(f, product)
  {
    hide Folded;
  }

  lemma SmallReduced(f: Field, product: nat)
    requires f.Valid() && product < f.p
    ensures Reduce(f, product) == product
  {
    hide Folded, FastReduce;
    if f.Lossy() {
      SmallProduct(product);
    } else {
      CongRefl(product, f.p);
      CongIsMod(product, product, f.p);
    }
  }

  /** Sums, differences, halves and inverses are always congruent, and as sound as their operands. */
  lemma OthersMean(f: Field, a: Fe, b: Fe)
    requires f.Valid() && In(f, a) && In(f, b)
    ensures Cong(Add(f, a, b).v, a.v + b.v, f.p) && (Add(f, a, b).ok <==> a.ok && b.ok)
    ensures Cong(Sub(f, a, b).v, a.v - b.v, f.p) && (Sub(f, a, b).ok <==> a.ok && b.ok)
    ensures Cong(2 * Half(f, a).v, a.v, f.p) && (Half(f, a).ok <==> a.ok)
    ensures Invertible(a.v, f.p) ==> Cong(a.v * Inv(f, a).v, 1, f.p)
    ensures Inv(f, a).ok <==> a.ok
  {
    AddModCong(a.v, b.v, f.p);
    SubModCong(a.v, b.v, f.p);
    HalveModCong(a.v, f.p);
    if Invertible(a.v, f.p) {
      InverseOfUnit(a.v, f.p);
    }
  }

  // ---------- The word routines on a curve ----------

  /** The parts of a curve that its field arithmetic uses. */
  datatype Curve = Curve(numWords: nat, p: array<word>, fast: bool)

  ghost function FieldOf(c: Curve): Field
    reads c.p
  {
    Field(Val(c.p[..]), c.fast)
  }

  ghost predicate ValidCurve(c: Curve)
    reads c.p
  {
    && 0 < c.numWords < BASE && c.p.Length == c.numWords && c.p[c.numWords - 1] != 0
    && FieldOf(c).Valid() && (c.fast ==> c.numWords == if FieldOf(c).p == P160 then 5 else 8)
  }

  /** The array is a register of the curve holding a. */
  ghost predicate Holds(c: Curve, r: array<word>, a: Fe)
    reads r
  {
    r.Length == c.numWords && Val(r[..]) == a.v
  }

  /** uECC_vli_modMult_fast; the right operand starts at word at. */
  method ModMultFast(result: array<word>, left: array<word>, right: array<word>, at: nat, c: Curve, ghost a: Fe,
                     ghost b: Fe)
    requires ValidCurve(c) && result != c.p && result.Length == c.numWords
    requires Holds(c, left, a) && In(FieldOf(c), a)
    requires at + c.numWords <= right.Length && Val(right[at..at + c.numWords]) == b.v && In(FieldOf(c), b)
    modifies result
    ensures Holds(c, result, Mul(FieldOf(c), a, b))
    ensures Val(result[..]) <= FieldOf(c).p && a.v * b.v >= 0
    ensures Cong(Val(result[..]), a.v * b.v, FieldOf(c).p) <==> !Misses(FieldOf(c), a.v * b.v)
  {
    MulMeans(FieldOf(c), a, b);
    RepeatedIs(a.v, b.v);
    hide Misses, Cong;
    var n := c.numWords;
    var product := new word[2 * n];
    assert left[..n] == left[..];
    Mult(product, left, right, at, n);
    assert product[..2 * n] == product[..];
    if c.fast && n == 5 {
      assert c.p[..5] == c.p[..];
      MmodFast(result, product, c.p);
      assert result[..5] == result[..];
    } else if c.fast {
      assert c.p[..8] == c.p[..];
      Secp256r1.MmodFast(result, product, c.p);
      assert result[..8] == result[..];
    } else {
      assert c.p[..n] == c.p[..];
      Mmod(result, product, c.p, n);
      assert result[..n] == result[..];
    }
  }

  /** uECC_vli_modSquare_fast: without uECC_SQUARE_FUNC, a multiplication by itself. */
  method ModSquareFast(result: array<word>, left: array<word>, c: Curve, ghost a: Fe)
    requires ValidCurve(c) && result != c.p && result.Length == c.numWords
    requires Holds(c, left, a) && In(FieldOf(c), a)
    modifies result
    ensures Holds(c, result, Mul(FieldOf(c), a, a))
    ensures a.v * a.v >= 0 && (Cong(Val(result[..]), a.v * a.v, FieldOf(c).p) <==> !Misses(FieldOf(c), a.v * a.v))
  {
    assert left[0..0 + c.numWords] == left[..];
    ModMultFast(result, left, left, 0, c, a, a);
  }

  /** The multiplication of two whole registers. */
  method FMul(result: array<word>, left: array<word>, right: array<word>, c: Curve, ghost a: Fe, ghost b: Fe)
    requires ValidCurve(c) && result != c.p && result.Length == c.numWords
    requires Holds(c, left, a) && In(FieldOf(c), a) && Holds(c, right, b) && In(FieldOf(c), b)
    modifies result
    ensures Holds(c, result, Mul(FieldOf(c), a, b))
  {
    assert right[0..0 + c.numWords] == right[..];
    ModMultFast(result, left, right, 0, c, a, b);
  }

  method FAdd(result: array<word>, left: array<word>, right: array<word>, c: Curve, ghost a: Fe, ghost b: Fe)
    requires ValidCurve(c) && result != c.p && result.Length == c.numWords
    requires Holds(c, left, a) && In(FieldOf(c), a) && Holds(c, right, b) && In(FieldOf(c), b)
    modifies result
    ensures Holds(c, result, Add(FieldOf(c), a, b))
  {
    var n := c.numWords;
    assert left[..n] == left[..] && right[..n] == right[..] && c.p[..n] == c.p[..];
    ModAdd(result, left, right, c.p, n);
    assert result[..n] == result[..];
  }

  method FSub(result: array<word>, left: array<word>, right: array<word>, c: Curve, ghost a: Fe, ghost b: Fe)
    requires ValidCurve(c) && result != c.p && result.Length == c.numWords
    requires Holds(c, left, a) && In(FieldOf(c), a) && Holds(c, right, b) && In(FieldOf(c), b)
    modifies result
    ensures Holds(c, result, Sub(FieldOf(c), a, b))
  {
    var n := c.numWords;
    assert left[..n] == left[..] && right[..n] == right[..] && c.p[..n] == c.p[..];
    ModSub(result, left, right, c.p, n);
    assert result[..n] == result[..];
  }

  /** uECC_vli_set between registers. */
  method FSet(dest: array<word>, src: array<word>, c: Curve, ghost a: Fe)
    requires dest.Length == c.numWords && dest != src && Holds(c, src, a)
    modifies dest
    ensures Holds(c, dest, a)
  {
    var n := c.numWords;
    Set(dest, 0, src, 0, n);
    assert dest[0..0 + n] == dest[..] && src[0..0 + n] == src[..];
  }

  method FInv(result: array<word>, input: array<word>, c: Curve, ghost a: Fe)
    requires ValidCurve(c) && result != c.p && result.Length == c.numWords
    requires Holds(c, input, a) && In(FieldOf(c), a)
    modifies result
    ensures Holds(c, result, Inv(FieldOf(c), a))
  {
    var n := c.numWords;
    assert input[..n] == input[..] && c.p[..n] == c.p[..];
    ghost var rounds := ModInv(result, input, c.p, n);
    assert result[..n] == result[..];
  }

  /** The halving inside double_jacobian_default: add p when odd, shift, put the carry on top. */
  method FHalf(X1: array<word>, c: Curve, ghost a: Fe)
    requires ValidCurve(c) && X1.Length == c.numWords && X1 != c.p && Holds(c, X1, a) && In(FieldOf(c), a)
    modifies X1
    ensures Holds(c, X1, Half(old(FieldOf(c)), a))
  {
    var n := c.numWords;
    assert X1[..n] == X1[..];
    ValHead(X1[..]);
    if X1[0] % 2 == 1 {
      FHalfOdd(X1, c, a);
    } else {
      assert X1[0..0 + n] == X1[..];
      Rshift1(X1, 0, n);
      assert X1[0..0 + n] == X1[..];
    }
  }

  method FHalfOdd(X1: array<word>, c: Curve, ghost a: Fe)
    requires ValidCurve(c) && X1.Length == c.numWords && X1 != c.p && Holds(c, X1, a) && In(FieldOf(c), a)
             && a.v % 2 == 1
    modifies X1
    ensures Holds(c, X1, Half(old(FieldOf(c)), a))
  {
    hide Val, Up;
    var n := c.numWords;
    ghost var sum := a.v + Val(c.p[..]);
    assert X1[..n] == X1[..] && c.p[..n] == c.p[..];
    var carry := Vli.Add(X1, X1, c.p, n);
    ValBound(X1[..n]);
    HalveSum(sum, Val(X1[..n]), carry, n);
    assert X1[0..0 + n] == X1[..n];
    Rshift1(X1, 0, n);
    assert X1[0..0 + n] == X1[..n];
    OrTopBit(X1, n, carry * HALF);
    assert X1[..n] == X1[..];
  }

  method SetOne(z: array<word>)
    requires z.Length > 0
    modifies z
    ensures Val(z[..]) == 1
  {
    Clear(z, 0, z.Length);
    z[0] := 1;
    ValZeros(z[1..]);
    ValHead(z[..]);
  }

  method FIsZero(r: array<word>, c: Curve, ghost a: Fe) returns (zero: bool)
    requires Holds(c, r, a)
    ensures zero <==> a.v == 0
  {
    assert r[..c.numWords] == r[..];
    zero := IsZero(r, c.numWords);
  }
}
