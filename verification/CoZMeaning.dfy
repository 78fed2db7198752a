/** What the point steps compute: registers read as affine coordinates scaled by powers of a common z. */
module CoZMeaning {
  import opened Congruence
  import opened Field
  import opened CoZ

  /** The point (a, b) in registers scaled by z: X = a z^2, Y = b z^3. */
  ghost predicate Scaled(f: Field, x: Fe, y: Fe, a: int, b: int, z: int) {
    Rep(f, x, a * (z * z)) && Rep(f, y, b * (z * z * z))
  }

  /** The third point on the line of slope l through a point with coordinates a, b and one with abscissa a2. */
  function SumX(l: int, a: int, a2: int): int {
    l * l - a - a2
  }

  function SumY(l: int, a: int, b: int, x3: int): int {
    l * (a - x3) - b
  }

  // ---------- Integer identities ----------

  lemma PullOut(a: int, b: int, q: int)
    ensures a * q - b * q == (a - b) * q
    ensures a * q + b * q == (a + b) * q
  {}

  lemma SwapFactor(a: int, b: int, c: int)
    ensures (a * b) * c == a * (b * c)
    ensures (a * b) * c == (a * c) * b
  {}

  /** x times the square of a difference of abscissas, in terms of w = d z^3. */
  lemma ScaleSquare(a: int, d: int, z: int, w: int)
    requires w == d * (z * z * z)
    ensures (a * (z * z)) * ((d * (z * z)) * (d * (z * z))) == a * (w * w)
  {
    var q := z * z;
    assert (d * q) * (d * q) == (d * d) * (q * q) by { Squares(d, q); }
    assert w * w == (d * d) * ((q * z) * (q * z)) by { Squares(d, q * z); }
    assert (q * z) * (q * z) == (q * q) * q by { Squares(q, z); }
    SwapFactor(a, q, (d * d) * (q * q));
    SwapFactor(q, d * d, q * q);
    assert q * ((d * d) * (q * q)) == (d * d) * ((q * q) * q) by {
      SwapFactor(d * d, q * q, q);
    }
  }

  lemma Squares(a: int, b: int)
    ensures (a * b) * (a * b) == (a * a) * (b * b)
  {
    SwapFactor(a, b, a * b);
    SwapFactor(b, a, b);
    SwapFactor(a, a, b * b);
  }

  /** b z^3 times d w^2 is b w^3. */
  lemma ScaleCube(b: int, d: int, z: int, w: int)
    requires w == d * (z * z * z)
    ensures (b * (z * z * z)) * (d * (w * w)) == b * (w * w * w)
  {
    var c := z * z * z;
    SwapFactor(b, c, d * (w * w));
    SwapFactor(c, d, w * w);
    SwapFactor(w, w, w);
  }

  /** A slope times w, times an abscissa times w^2. */
  lemma SlopeTimes(l: int, w: int, a: int)
    ensures (l * w) * (a * (w * w)) == (l * a) * (w * w * w)
    ensures (l * w) * (l * w) == (l * l) * (w * w)
  {
    Squares(l, w);
    SwapFactor(l, w, a * (w * w));
    SwapFactor(w, a, w * w);
    SwapFactor(a, w, w * w);
    SwapFactor(w, w, w);
    SwapFactor(l, a, w * w * w);
  }

  // ---------- Addition with update of the first point ----------

  /** The tail shared by the two additions: from B, C, E and the scaled slope to the third point. */
  lemma ThirdPoint(f: Field, d: Fe, b: Fe, c: Fe, e: Fe, slope: Fe, x3: Fe, a1: int, b1: int, a2: int, l: int, w: int)
    requires f.Valid()
    requires Rep(f, b, a1 * (w * w)) && Rep(f, e, b1 * (w * w * w))
    requires Rep(f, slope, l * w) && Rep(f, x3, SumX(l, a1, a2) * (w * w))
    ensures Rep(f, Sub(f, b, x3), (a1 - SumX(l, a1, a2)) * (w * w))
    ensures Rep(f, Sub(f, Mul(f, slope, Sub(f, b, x3)), e), SumY(l, a1, b1, SumX(l, a1, a2)) * (w * w * w))
  {
    var x := SumX(l, a1, a2);
    RepSub(f, b, x3, a1 * (w * w), x * (w * w));
    PullOut(a1, x, w * w);
    var bx := Sub(f, b, x3);
    RepMul(f, slope, bx, l * w, (a1 - x) * (w * w));
    SlopeTimes(l, w, a1 - x);
    RepSub(f, Mul(f, slope, bx), e, (l * (a1 - x)) * (w * w * w), b1 * (w * w * w));
    PullOut(l * (a1 - x), b1, w * w * w);
  }

  /** B, C and E, from registers scaled by z and a square rep of the difference of abscissas. */
  lemma ScaledParts(f: Field, x1: Fe, y1: Fe, x2: Fe, a: Fe, a1: int, b1: int, a2: int, z: int, w: int)
    requires f.Valid() && w == (a2 - a1) * (z * z * z)
    requires Scaled(f, x1, y1, a1, b1, z) && Rep(f, x2, a2 * (z * z))
    requires Rep(f, a, ((a2 - a1) * (z * z)) * ((a2 - a1) * (z * z)))
    ensures Rep(f, Mul(f, x1, a), a1 * (w * w)) && Rep(f, Mul(f, x2, a), a2 * (w * w))
    ensures Rep(f, Mul(f, y1, Sub(f, Mul(f, x2, a), Mul(f, x1, a))), b1 * (w * w * w))
  {
    var d := a2 - a1;
    RepMul(f, x1, a, a1 * (z * z), (d * (z * z)) * (d * (z * z)));
    ScaleSquare(a1, d, z, w);
    RepMul(f, x2, a, a2 * (z * z), (d * (z * z)) * (d * (z * z)));
    ScaleSquare(a2, d, z, w);
    var b, c := Mul(f, x1, a), Mul(f, x2, a);
    RepSub(f, c, b, a2 * (w * w), a1 * (w * w));
    PullOut(a2, a1, w * w);
    RepMul(f, y1, Sub(f, c, b), b1 * (z * z * z), d * (w * w));
    ScaleCube(b1, d, z, w);
  }

  /** The difference of two ordinates scaled by z is the slope scaled by w. */
  lemma ScaledSlope(l: int, b1: int, d: int, z: int, w: int)
    requires w == d * (z * z * z)
    ensures (b1 + l * d) * (z * z * z) - b1 * (z * z * z) == l * w
  {
    PullOut(b1 + l * d, b1, z * z * z);
    SwapFactor(l, d, z * z * z);
  }

  /** XYcZ_add leaves P and P + Q over Z' = Z * (X2 - X1). */
  lemma AddStepMeans(f: Field, s: Pair, a1: int, b1: int, a2: int, l: int, z: int)
    requires f.Valid() && AllIn(f, s)
    requires Scaled(f, s.x1, s.y1, a1, b1, z) && Scaled(f, s.x2, s.y2, a2, b1 + l * (a2 - a1), z)
    ensures var r, w, x3 := AddStep(f, s), (a2 - a1) * (z * z * z), SumX(l, a1, a2);
            && Scaled(f, r.x1, r.y1, a1, b1, w) && Scaled(f, r.x2, r.y2, x3, SumY(l, a1, b1, x3), w)
            && Rep(f, r.sub, (a1 - x3) * (w * w))
  {
    hide Mul, Sub, Rep;
    var d := a2 - a1;
    var w := d * (z * z * z);
    RepSub(f, s.x2, s.x1, a2 * (z * z), a1 * (z * z));
    PullOut(a2, a1, z * z);
    var dx := Sub(f, s.x2, s.x1);
    RepMul(f, dx, dx, d * (z * z), d * (z * z));
    var a := Mul(f, dx, dx);
    ScaledParts(f, s.x1, s.y1, s.x2, a, a1, b1, a2, z, w);
    var b, c := Mul(f, s.x1, a), Mul(f, s.x2, a);
    RepSub(f, s.y2, s.y1, (b1 + l * d) * (z * z * z), b1 * (z * z * z));
    ScaledSlope(l, b1, d, z, w);
    var dy := Sub(f, s.y2, s.y1);
    RepMul(f, dy, dy, l * w, l * w);
    SlopeTimes(l, w, 0);
    RepSub(f, Mul(f, dy, dy), b, (l * l) * (w * w), a1 * (w * w));
    PullOut(l * l, a1, w * w);
    RepSub(f, Sub(f, Mul(f, dy, dy), b), c, (l * l - a1) * (w * w), a2 * (w * w));
    PullOut(l * l - a1, a2, w * w);
    var x3 := Sub(f, Sub(f, Mul(f, dy, dy), b), c);
    ThirdPoint(f, dx, b, c, Mul(f, s.y1, Sub(f, c, b)), dy, x3, a1, b1, a2, l, w);
  }

  // ---------- Addition together with the difference ----------

  /** The ordinate sum, when the second point is (a2, -b1 - l d): the slope of the difference, negated. */
  lemma ScaledSumSlope(l: int, b1: int, d: int, z: int, w: int)
    requires w == d * (z * z * z)
    ensures (-b1 - l * d) * (z * z * z) + b1 * (z * z * z) == (-l) * w
  {
    PullOut(-b1 - l * d, b1, z * z * z);
    assert -(l * d) == (-l) * d;
    SwapFactor(-l, d, z * z * z);
  }

  /** The register program of the difference, on any values. */
  lemma DifferenceValues(f: Field, b: Fe, e: Fe, slope: Fe, bc: Fe, bv: int, ev: int, sv: int, bcv: int, x: int, y: int)
    requires f.Valid() && In(f, b) && In(f, e) && In(f, slope) && In(f, bc)
    requires Rep(f, b, bv) && Rep(f, e, ev) && Rep(f, slope, sv) && Rep(f, bc, bcv)
    requires x == sv * sv - bcv && y == (x - bv) * sv - ev
    ensures var x3 := Sub(f, Mul(f, slope, slope), bc);
            Rep(f, x3, x) && Rep(f, Sub(f, Mul(f, Sub(f, x3, b), slope), e), y)
  {
    hide Mul, Sub, Rep;
    RepMul(f, slope, slope, sv, sv);
    RepSub(f, Mul(f, slope, slope), bc, sv * sv, bcv);
    var x3 := Sub(f, Mul(f, slope, slope), bc);
    RepSub(f, x3, b, x, bv);
    RepMul(f, Sub(f, x3, b), slope, x - bv, sv);
    RepSub(f, Mul(f, Sub(f, x3, b), slope), e, (x - bv) * sv, ev);
  }

  /** The same in terms of a slope and a scale. */
  lemma DifferenceScaled(a1: int, b1: int, a2: int, l: int, w: int, x: int)
    requires x == SumX(l, a1, a2)
    ensures x * (w * w) == ((-l) * w) * ((-l) * w) - (a1 + a2) * (w * w)
    ensures SumY(l, a1, b1, x) * (w * w * w) == (x * (w * w) - a1 * (w * w)) * ((-l) * w) - b1 * (w * w * w)
  {
    var q, c := w * w, w * w * w;
    SlopeTimes(-l, w, x - a1);
    Negated(l, x - a1);
    PullOut(l * l, a1 + a2, q);
    PullOut(x, a1, q);
    Commuted((x - a1) * q, (-l) * w);
    PullOut(l * (a1 - x), b1, c);
  }

  lemma Negated(l: int, d: int)
    ensures (-l) * (-l) == l * l && (-l) * d == l * (-d)
  {}

  lemma Commuted(a: int, b: int)
    ensures a * b == b * a
  {}

  /** The third point of the difference, from the negated slope. */
  lemma DifferencePoint(f: Field, b: Fe, e: Fe, slope: Fe, bc: Fe, a1: int, b1: int, a2: int, l: int, w: int)
    requires f.Valid() && In(f, b) && In(f, e) && In(f, slope) && In(f, bc)
    requires Rep(f, b, a1 * (w * w)) && Rep(f, e, b1 * (w * w * w))
    requires Rep(f, slope, (-l) * w) && Rep(f, bc, (a1 + a2) * (w * w))
    ensures var x, x3 := SumX(l, a1, a2), Sub(f, Mul(f, slope, slope), bc);
            && Rep(f, x3, x * (w * w))
            && Rep(f, Sub(f, Mul(f, Sub(f, x3, b), slope), e), SumY(l, a1, b1, x) * (w * w * w))
  {
    hide Mul, Sub, Rep, SumY;
    var x := SumX(l, a1, a2);
    DifferenceScaled(a1, b1, a2, l, w, x);
    DifferenceValues(f, b, e, slope, bc, a1 * (w * w), b1 * (w * w * w), (-l) * w, (a1 + a2) * (w * w),
                     x * (w * w), SumY(l, a1, b1, x) * (w * w * w));
  }

  /** A difference register of either sign gives the square of the difference of abscissas. */
  lemma SquareOfSub(f: Field, sub: Fe, d: int, z: int)
    requires f.Valid() && (Rep(f, sub, d * (z * z)) || Rep(f, sub, (-d) * (z * z)))
    ensures Rep(f, Mul(f, sub, sub), (d * (z * z)) * (d * (z * z)))
  {
    var e := d * (z * z);
    assert (-d) * (z * z) == -e;
    assert (-e) * (-e) == e * e;
    if Rep(f, sub, e) {
      RepMul(f, sub, sub, e, e);
    } else {
      RepMul(f, sub, sub, -e, -e);
    }
  }

  /** XYcZ_addC leaves P - Q and P + Q over Z' = Z * (X2 - X1); l is the slope to Q, m the slope to -Q. */
  lemma AddCStepMeans(f: Field, s: Pair, a1: int, b1: int, a2: int, l: int, m: int, z: int)
    requires f.Valid() && AllIn(f, s) && In(f, s.sub)
    requires Scaled(f, s.x1, s.y1, a1, b1, z)
    requires Scaled(f, s.x2, s.y2, a2, b1 + l * (a2 - a1), z) && Scaled(f, s.x2, s.y2, a2, -b1 - m * (a2 - a1), z)
    requires Rep(f, s.sub, (a2 - a1) * (z * z)) || Rep(f, s.sub, (-(a2 - a1)) * (z * z))
    ensures var r, w, plus, minus := AddCStep(f, s), (a2 - a1) * (z * z * z), SumX(l, a1, a2), SumX(m, a1, a2);
            && Scaled(f, r.x1, r.y1, minus, SumY(m, a1, b1, minus), w)
            && Scaled(f, r.x2, r.y2, plus, SumY(l, a1, b1, plus), w)
  {
    hide Mul, Sub, Add, Rep;
    var d := a2 - a1;
    var w := d * (z * z * z);
    SquareOfSub(f, s.sub, d, z);
    var a := Mul(f, s.sub, s.sub);
    ScaledParts(f, s.x1, s.y1, s.x2, a, a1, b1, a2, z, w);
    var b, c := Mul(f, s.x1, a), Mul(f, s.x2, a);
    var e := Mul(f, s.y1, Sub(f, c, b));
    RepAdd(f, b, c, a1 * (w * w), a2 * (w * w));
    PullOut(a1, a2, w * w);
    var bc := Add(f, b, c);
    AddCSumMeans(f, s, b, c, e, bc, a1, b1, a2, l, z, w);
    RepAdd(f, s.y2, s.y1, (-b1 - m * d) * (z * z * z), b1 * (z * z * z));
    ScaledSumSlope(m, b1, d, z, w);
    DifferencePoint(f, b, e, Add(f, s.y2, s.y1), bc, a1, b1, a2, m, w);
  }

  lemma AddCSumMeans(f: Field, s: Pair, b: Fe, c: Fe, e: Fe, bc: Fe, a1: int, b1: int, a2: int, l: int, z: int, w: int)
    requires f.Valid() && AllIn(f, s) && In(f, b) && In(f, e) && In(f, bc) && w == (a2 - a1) * (z * z * z)
    requires Rep(f, s.y1, b1 * (z * z * z)) && Rep(f, s.y2, (b1 + l * (a2 - a1)) * (z * z * z))
    requires Rep(f, b, a1 * (w * w)) && Rep(f, e, b1 * (w * w * w)) && Rep(f, bc, (a1 + a2) * (w * w))
    ensures var dy := Sub(f, s.y2, s.y1);
            var x, x3 := SumX(l, a1, a2), Sub(f, Mul(f, dy, dy), bc);
            && Rep(f, x3, x * (w * w))
            && Rep(f, Sub(f, Mul(f, dy, Sub(f, b, x3)), e), SumY(l, a1, b1, x) * (w * w * w))
  {
    hide Mul, Sub, Rep;
    var d := a2 - a1;
    RepSub(f, s.y2, s.y1, (b1 + l * d) * (z * z * z), b1 * (z * z * z));
    ScaledSlope(l, b1, d, z, w);
    var dy := Sub(f, s.y2, s.y1);
    RepMul(f, dy, dy, l * w, l * w);
    SlopeTimes(l, w, 0);
    RepSub(f, Mul(f, dy, dy), bc, (l * l) * (w * w), (a1 + a2) * (w * w));
    PullOut(l * l, a1 + a2, w * w);
    ThirdPoint(f, dy, b, c, e, dy, Sub(f, Mul(f, dy, dy), bc), a1, b1, a2, l, w);
  }

  // ---------- Scaling and doubling ----------

  /** apply_z multiplies the common z into the registers. */
  lemma ApplyZMeans(f: Field, q: Point, zr: Fe, a: int, b: int, u: int, z: int)
    requires f.Valid() && In(f, q.x) && In(f, q.y) && In(f, zr)
    requires Scaled(f, q.x, q.y, a, b, u) && Rep(f, zr, z)
    ensures var r := ApplyZ(f, q, zr); Scaled(f, r.x, r.y, a, b, u * z)
  {
    hide Mul, Rep;
    RepMul(f, zr, zr, z, z);
    var zz := Mul(f, zr, zr);
    RepMul(f, q.x, zz, a * (u * u), z * z);
    Squares(u, z);
    SwapFactor(a, u * u, z * z);
    RepMul(f, zz, zr, z * z, z);
    RepMul(f, q.y, Mul(f, zz, zr), b * (u * u * u), z * z * z);
    Cubes(u, z);
    SwapFactor(b, u * u * u, z * z * z);
  }

  lemma Cubes(u: int, z: int)
    ensures (u * z) * (u * z) * (u * z) == (u * u * u) * (z * z * z)
  {
    Squares(u, z);
    Squares2(u * u, z * z, u, z);
  }

  lemma Squares2(a: int, b: int, c: int, d: int)
    ensures (a * b) * (c * d) == (a * c) * (b * d)
  {
    SwapFactor(a, b, c * d);
    SwapFactor(b, c, d);
    SwapFactor(c, b, d);
    SwapFactor(a, c, b * d);
    assert b * (c * d) == c * (b * d);
  }

  /** double_jacobian_default on numbers: with h = (3/2)(x^2 - z^4), x3 = h^2 - 2xy^2 and so on. */
  lemma DoubleMeans(f: Field, q: Jacobian, x: int, y: int, z: int, h: int)
    requires f.Valid() && In(f, q.x) && In(f, q.y) && In(f, q.z) && q.z.v != 0
    requires Rep(f, q.x, x) && Rep(f, q.y, y) && Rep(f, q.z, z)
    requires Cong(3 * (x * x - (z * z) * (z * z)), 2 * h, f.p)
    ensures var r, a := Double(f, q), x * (y * y);
            var x3 := h * h - a - a;
            Rep(f, r.x, x3) && Rep(f, r.y, h * (a - x3) - (y * y) * (y * y)) && Rep(f, r.z, y * z)
  {
    hide Mul, Sub, Add, Half, Rep;
    RepMul(f, q.y, q.y, y, y);
    var yy := Mul(f, q.y, q.y);
    RepMul(f, q.x, yy, x, y * y);
    RepMul(f, yy, yy, y * y, y * y);
    RepMul(f, q.y, q.z, y, z);
    RepMul(f, q.z, q.z, z, z);
    var zz := Mul(f, q.z, q.z);
    RepAdd(f, q.x, zz, x, z * z);
    RepAdd(f, zz, zz, z * z, z * z);
    var plus, twice := Add(f, q.x, zz), Add(f, zz, zz);
    RepSub(f, plus, twice, x + z * z, z * z + z * z);
    var minus := Sub(f, plus, twice);
    RepMul(f, plus, minus, x + z * z, x + z * z - (z * z + z * z));
    SumTimesDifference(x, z * z);
    var w, t := Mul(f, plus, minus), x * x - (z * z) * (z * z);
    RepAdd(f, w, w, t, t);
    RepAdd(f, w, Add(f, w, w), t, t + t);
    var w3 := Add(f, w, Add(f, w, w));
    RepHalf(f, w3, t + (t + t), h);
    DoubleTailMeans(f, Half(f, w3), Mul(f, q.x, yy), Mul(f, yy, yy), h, x * (y * y), (y * y) * (y * y));
  }

  lemma SumTimesDifference(x: int, q: int)
    ensures (x + q) * (x + q - (q + q)) == x * x - q * q
  {}

  lemma DoubleTailMeans(f: Field, b: Fe, a: Fe, y4: Fe, h: int, x: int, y: int)
    requires f.Valid() && In(f, b) && In(f, a) && In(f, y4) && Rep(f, b, h) && Rep(f, a, x) && Rep(f, y4, y)
    ensures var x3, v := Sub(f, Sub(f, Mul(f, b, b), a), a), h * h - x - x;
            Rep(f, x3, v) && Rep(f, Sub(f, Mul(f, b, Sub(f, a, x3)), y4), h * (x - v) - y)
  {
    hide Mul, Sub, Rep;
    RepMul(f, b, b, h, h);
    RepSub(f, Mul(f, b, b), a, h * h, x);
    RepSub(f, Sub(f, Mul(f, b, b), a), a, h * h - x, x);
    var x3, v := Sub(f, Sub(f, Mul(f, b, b), a), a), h * h - x - x;
    RepSub(f, a, x3, x, v);
    RepMul(f, b, Sub(f, a, x3), h, x - v);
    RepSub(f, Mul(f, b, Sub(f, a, x3)), y4, h * (x - v), y);
  }
}
