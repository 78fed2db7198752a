/** Point doubling: the affine tangent rule, and that the result is on the curve. */
module DoubleMeaning {
  import opened Congruence
  import opened Field
  import opened CoZ
  import opened CoZMeaning

  // ---------- The doubled point in affine terms ----------

  lemma PowersOfScaled(a: int, b: int, z: int, w: int)
    requires w == b * ((z * z) * (z * z))
    ensures (a * (z * z)) * (a * (z * z)) == (a * a) * ((z * z) * (z * z))
    ensures (b * (z * z * z)) * z == w
    ensures (a * (z * z)) * ((b * (z * z * z)) * (b * (z * z * z))) == a * (w * w)
    ensures ((b * (z * z * z)) * (b * (z * z * z))) * ((b * (z * z * z)) * (b * (z * z * z))) == b * (w * w * w)
  {
    var q, c := z * z, z * z * z;
    Squares(a, q);
    SwapFactor(b, c, z);
    SwapFactor(q, z, z);
    assert c * z == q * q;
    var y := b * c;
    assert w == y * z;
    Squares(y, z);
    assert w * w == (y * y) * q;
    SwapFactor(a, q, y * y);
    assert q * (y * y) == (y * y) * q;
    FourthPower(b, c, z, q, y, w);
  }

  lemma FourthPower(b: int, c: int, z: int, q: int, y: int, w: int)
    requires q == z * z && c == q * z && y == b * c && w == y * z && w * w == (y * y) * q
    ensures (y * y) * (y * y) == b * (w * w * w)
  {
    assert w * w * w == ((y * y) * q) * (y * z);
    Squares2(y * y, q, y, z);
    assert w * w * w == ((y * y) * y) * c;
    SwapFactor(b, (y * y) * y, c);
    assert b * (((y * y) * y) * c) == ((y * y) * y) * (b * c) by { SwapFactor((y * y) * y, b, c); }
    SwapFactor(y * y, y, y);
  }

  /** double_jacobian_default is the tangent rule: slope l with 2bl = 3a^2 - 3, over the new z. */
  lemma DoubleTangent(f: Field, q: Jacobian, a: int, b: int, z: int, l: int)
    requires f.Valid() && In(f, q.x) && In(f, q.y) && In(f, q.z) && q.z.v != 0
    requires Scaled(f, q.x, q.y, a, b, z) && Rep(f, q.z, z)
    requires Cong(2 * b * l, 3 * a * a - 3, f.p)
    ensures var r, w, x3 := Double(f, q), b * ((z * z) * (z * z)), SumX(l, a, a);
            Scaled(f, r.x, r.y, x3, SumY(l, a, b, x3), w) && Rep(f, r.z, w)
  {
    hide Double, Rep;
    var z4 := (z * z) * (z * z);
    var w := b * z4;
    var x, y, h, x3 := a * (z * z), b * (z * z * z), l * w, SumX(l, a, a);
    PowersOfScaled(a, b, z, w);
    TangentSlope(a, b, l, z4, h, x * x, f.p);
    DoubleMeans(f, q, x, y, z, h);
    SlopeTimes(l, w, a - x3);
    PullOut(l * l, a, w * w);
    PullOut(l * l - a, a, w * w);
    PullOut(a, x3, w * w);
    PullOut(l * (a - x3), b, w * w * w);
  }

  lemma TangentSlope(a: int, b: int, l: int, z4: int, h: int, xx: int, p: int)
    requires Cong(2 * b * l, 3 * a * a - 3, p)
    requires h == l * (b * z4) && xx == (a * a) * z4
    ensures Cong(3 * (xx - z4), 2 * h, p)
  {
    CongRefl(z4, p);
    CongMul(2 * b * l, 3 * a * a - 3, z4, z4, p);
    assert (2 * b * l) * z4 == 2 * h by {
      SwapFactor(l, b, z4);
      assert (2 * b * l) * z4 == 2 * ((l * b) * z4);
    }
    assert (3 * a * a - 3) * z4 == 3 * (xx - z4) by {
      assert 3 * a * a == 3 * (a * a);
      PullOut(3 * (a * a), 3, z4);
      SwapFactor(3, a * a, z4);
    }
    CongSym(2 * h, 3 * (xx - z4), p);
  }

  // ---------- Staying on the curve ----------

  /** y^2 = x^3 - 3 x z^4 + b z^6. */
  ghost predicate OnCurve(x: int, y: int, z: int, b: int, p: int) {
    Cong(y * y, x * x * x - 3 * (x * ((z * z) * (z * z))) + b * ((z * z) * (z * z) * (z * z)), p)
  }

  /** The doubling identity with u = h^2, v = x y^2, k = h y^4. */
  lemma DoublingIdentity(u: int, v: int, k: int)
    ensures u * ((3 * v - u) * (3 * v - u)) - 2 * (k * (3 * v - u)) ==
            (u - 2 * v) * (u - 2 * v) * (u - 2 * v) - (u - 2 * v) * (3 * (v * v) - 2 * k) + 2 * (v * v * v)
            - 2 * (k * v)
  {
    var g := u - 2 * v;
    assert (3 * v - u) * (3 * v - u) == 9 * (v * v) - 6 * (u * v) + u * u;
    assert g * g == u * u - 4 * (u * v) + 4 * (v * v);
  }

  /** The left side: the square of h g - s^2. */
  lemma SquareOfY(h: int, g: int, ss: int)
    ensures (h * g - ss) * (h * g - ss) == (h * h) * (g * g) - 2 * ((h * ss) * g) + ss * ss
  {
    Squares(h, g);
    SwapFactor(h, ss, g);
    SwapFactor(h, g, ss);
    SquareOfDifference(h * g, ss);
  }

  lemma SquareOfDifference(a: int, b: int)
    ensures (a - b) * (a - b) == a * a - 2 * (a * b) + b * b
  {}

  /** s^3 x^3 and s^3 x h in terms of v = x s and k = h s^2. */
  lemma RightCubes(x: int, s: int, h: int)
    ensures ((s * s) * s) * ((x * x) * x) == (x * s) * (x * s) * (x * s)
    ensures ((s * s) * s) * (x * h) == (h * (s * s)) * (x * s)
  {
    Squares(x, s);
    Squares2(s * s, s, x * x, x);
    Squares2(s * s, s, h, x);
    assert h * x == x * h && (s * s) * h == h * (s * s) && s * x == x * s;
  }

  /** The right side, after the curve equation and the slope have been put in: s^3 (s - x^3 + x t). */
  lemma RightSide(x: int, s: int, h: int, v: int, k: int)
    requires v == x * s && k == h * (s * s)
    ensures (s * s) * (3 * (x * x) - 2 * h) == 3 * (v * v) - 2 * k
    ensures ((s * s) * s) * (s - (x * x) * x + x * (3 * (x * x) - 2 * h))
            == (s * s) * (s * s) + 2 * (v * v * v) - 2 * (k * v)
  {
    Squares(x, s);
    Distribute3(s * s, x * x, h);
    var xxx, sss := (x * x) * x, (s * s) * s;
    Distribute3(x, x * x, h);
    RightCubes(x, s, h);
    Distribute4(sss, s, xxx, x * h);
    SwapFactor(s * s, s, s);
  }

  lemma Distribute3(a: int, b: int, c: int)
    ensures a * (3 * b - 2 * c) == 3 * (a * b) - 2 * (a * c)
  {}

  lemma Distribute4(a: int, s: int, b: int, c: int)
    ensures a * (s + 2 * b - 2 * c) == a * s + 2 * (a * b) - 2 * (a * c)
  {}

  /** Powers of z3 = y z. */
  lemma PowersOfProduct(y: int, z: int)
    ensures ((y * z) * (y * z)) * ((y * z) * (y * z)) == ((y * y) * (y * y)) * ((z * z) * (z * z))
    ensures ((y * z) * (y * z)) * ((y * z) * (y * z)) * ((y * z) * (y * z)) ==
            ((y * y) * (y * y) * (y * y)) * ((z * z) * (z * z) * (z * z))
  {
    Squares(y, z);
    Squares(y * y, z * z);
    Squares2((y * y) * (y * y), (z * z) * (z * z), y * y, z * z);
  }

  /** Solving s = x3 - e + c for c, with e replaced by f. */
  lemma SolveFor(s: int, xxx: int, e: int, f: int, c: int, p: int)
    requires Cong(s, xxx - e + c, p) && Cong(e, f, p)
    ensures Cong(c, s - xxx + f, p)
  {
    var k :| Differ(s, xxx - e + c, p, k);
    var j :| Differ(e, f, p, j);
    CongFrom(c, s - xxx + f, p, j - k);
  }

  lemma ScaleCong(m: int, a: int, b: int, p: int)
    requires Cong(a, b, p)
    ensures Cong(m * a, m * b, p)
  {
    CongRefl(m, p);
    CongMul(m, m, a, b, p);
  }

  lemma CombineCong(l: int, m: int, m': int, r: int, r': int, p: int)
    requires Cong(m, m', p) && Cong(r, r', p)
    ensures Cong(l - m + r, l - m' + r', p)
  {
    CongRefl(l, p);
    CongSub(l, l, m, m', p);
    CongAdd(l - m, l - m', r, r', p);
  }

  lemma TripleOut(a: int, b: int, w: int)
    ensures a * (b * (3 * w)) == 3 * (a * (b * w))
  {
    assert b * (3 * w) == 3 * (b * w);
  }

  /** Putting 3 z^4 = 3 x^2 - 2h and the curve equation into the right side. */
  lemma Substitute(x3: int, s: int, x: int, w: int, c: int, t: int, p: int)
    requires Cong(3 * w, t, p) && Cong(s, (x * x) * x - 3 * (x * w) + c, p)
    ensures Cong(x3 * x3 * x3 - 3 * (x3 * ((s * s) * w)) + ((s * s) * s) * c,
                 x3 * x3 * x3 - x3 * ((s * s) * t) + ((s * s) * s) * (s - (x * x) * x + x * t), p)
  {
    ScaleCong(x, 3 * w, t, p);
    TripleOut(1, x, w);
    SolveFor(s, (x * x) * x, 3 * (x * w), x * t, c, p);
    ScaleCong((s * s) * s, c, s - (x * x) * x + x * t, p);
    ScaleCong(s * s, 3 * w, t, p);
    ScaleCong(x3, (s * s) * (3 * w), (s * s) * t, p);
    TripleOut(x3, s * s, w);
    CombineCong(x3 * x3 * x3, 3 * (x3 * ((s * s) * w)), x3 * ((s * s) * t),
                ((s * s) * s) * c, ((s * s) * s) * (s - (x * x) * x + x * t), p);
  }

  /** double_jacobian_default keeps the curve equation. */
  lemma DoubleOnCurve(x: int, y: int, z: int, h: int, b: int, p: int)
    requires OnCurve(x, y, z, b, p) && Cong(3 * (x * x - (z * z) * (z * z)), 2 * h, p)
    ensures var a := x * (y * y);
            var x3 := h * h - a - a;
            OnCurve(x3, h * (a - x3) - (y * y) * (y * y), y * z, b, p)
  {
    var s, w := y * y, (z * z) * (z * z);
    var c := b * (w * (z * z));
    var v, u, k := x * s, h * h, h * (s * s);
    var x3, t := u - v - v, 3 * (x * x) - 2 * h;
    var y3 := h * (v - x3) - s * s;
    CongRefl(3 * (x * x), p);
    CongSub(3 * (x * x), 3 * (x * x), 3 * (x * x - w), 2 * h, p);
    Substitute(x3, s, x, w, c, t, p);
    RightSide(x, s, h, v, k);
    SquareOfY(h, v - x3, s * s);
    DoublingIdentity(u, v, k);
    var right := x3 * x3 * x3 - x3 * ((s * s) * t) + ((s * s) * s) * (s - (x * x) * x + x * t);
    assert y3 * y3 == right;
    PowersOfProduct(y, z);
    assert b * (((s * s) * s) * (w * (z * z))) == ((s * s) * s) * c by {
      SwapFactor(b, (s * s) * s, w * (z * z));
      SwapFactor((s * s) * s, b, w * (z * z));
    }
    CongSym(x3 * x3 * x3 - 3 * (x3 * ((s * s) * w)) + ((s * s) * s) * c, right, p);
  }

  /** The curve equation does not depend on the representatives. */
  lemma OnCurveCong(x: int, y: int, z: int, x': int, y': int, z': int, b: int, p: int)
    requires OnCurve(x, y, z, b, p) && Cong(x', x, p) && Cong(y', y, p) && Cong(z', z, p)
    ensures OnCurve(x', y', z', b, p)
  {
    CongMul(y', y, y', y, p);
    CongMul(z', z, z', z, p);
    var q, q' := z * z, z' * z';
    CongMul(q', q, q', q, p);
    CongMul(q' * q', q * q, q', q, p);
    CongMul(x', x, x', x, p);
    CongMul(x' * x', x * x, x', x, p);
    CongMul(x', x, q' * q', q * q, p);
    CongRefl(3, p);
    CongRefl(b, p);
    CongMul(3, 3, x' * (q' * q'), x * (q * q), p);
    CongMul(b, b, q' * q' * q', q * q * q, p);
    CongSub(x' * x' * x', x * x * x, 3 * (x' * (q' * q')), 3 * (x * (q * q)), p);
    var r, r' := x * x * x - 3 * (x * (q * q)), x' * x' * x' - 3 * (x' * (q' * q'));
    CongAdd(r', r, b * (q' * q' * q'), b * (q * q * q), p);
    CongTrans(y' * y', y * y, r + b * (q * q * q), p);
    CongSym(r' + b * (q' * q' * q'), r + b * (q * q * q), p);
    CongTrans(y' * y', r + b * (q * q * q), r' + b * (q' * q' * q'), p);
  }

  lemma HalfOf(t: int, p: int) returns (h: int)
    requires p % 2 == 1
    ensures Cong(t, 2 * h, p)
  {
    var k := (p + 1) / 2;
    h := t * k;
    DoubleOfHalf(t, k, p);
    CongFrom(t, 2 * h, p, -t);
  }

  lemma DoubleOfHalf(t: int, k: int, p: int)
    requires p == 2 * k - 1
    ensures t - 2 * (t * k) == (-t) * p
  {}

  /** double_jacobian_default takes registers on the curve to registers on the curve, its reductions being sound. */
  lemma DoubleKeepsCurve(f: Field, q: Jacobian, b: int)
    requires f.Valid() && In(f, q.x) && In(f, q.y) && In(f, q.z)
    requires OnCurve(q.x.v, q.y.v, q.z.v, b, f.p)
    ensures var r := Double(f, q); r.x.ok && r.y.ok && r.z.ok ==> OnCurve(r.x.v, r.y.v, r.z.v, b, f.p)
  {
    hide Double, OnCurve;
    var x: int, y: int, z: int := q.x.v, q.y.v, q.z.v;
    if z == 0 {
      DoubleOfZero(f, q);
    } else {
      var h := HalfOf(3 * (x * x - (z * z) * (z * z)), f.p);
      CongRefl(x, f.p);
      CongRefl(y, f.p);
      CongRefl(z, f.p);
      DoubleMeans(f, q, x, y, z, h);
      DoubleOnCurve(x, y, z, h, b, f.p);
      var a, r := x * (y * y), Double(f, q);
      var x3 := h * h - a - a;
      if r.x.ok && r.y.ok && r.z.ok {
        OnCurveCong(x3, h * (a - x3) - (y * y) * (y * y), y * z, r.x.v, r.y.v, r.z.v, b, f.p);
      }
    }
  }

  lemma DoubleOfZero(f: Field, q: Jacobian)
    requires f.Valid() && In(f, q.x) && In(f, q.y) && In(f, q.z) && q.z.v == 0
    ensures Double(f, q) == q
  {}
}
