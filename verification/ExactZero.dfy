/** After a step on opposite points the zeros are exact: the words of the result are zero, not the modulus. */
module ExactZero {
  import opened Congruence
  import opened Field
  import opened CoZ
  import opened CoZMeaning
  import opened Ladder
  import opened Exceptional

  // ---------- Differences and sums that are exactly zero ----------

  /** The register stands for a unit, soundly. */
  ghost predicate IsUnit(f: Field, a: Fe, e: int) {
    Rep(f, a, e) && a.ok && Invertible(e, f.p)
  }

  lemma UnitInside(f: Field, a: Fe, e: int)
    requires f.Valid() && IsUnit(f, a, e)
    ensures 0 < a.v < f.p
  {
    if a.v == 0 || a.v == f.p {
      CongFrom(a.v, 0, f.p, if a.v == 0 then 0 else 1);
      UnitIsNotZero(a.v, e, f.p);
    }
  }

  lemma EqualUnits(f: Field, a: Fe, b: Fe, e: int)
    requires f.Valid() && IsUnit(f, a, e) && IsUnit(f, b, e)
    ensures Sub(f, a, b).v == 0
  {
    UnitInside(f, a, e);
    UnitInside(f, b, e);
    CongSym(b.v, e, f.p);
    CongTrans(a.v, e, b.v, f.p);
    CongSmall(a.v, b.v, f.p);
  }

  lemma OppositeUnits(f: Field, a: Fe, b: Fe, e: int)
    requires f.Valid() && Rep(f, a, -e) && a.ok && IsUnit(f, b, e)
    ensures Add(f, a, b).v == 0
  {
    InvertibleNeg(e, f.p);
    UnitInside(f, a, -e);
    UnitInside(f, b, e);
    CongAdd(a.v, -e, b.v, e, f.p);
    var k :| Differ(a.v + b.v, 0, f.p, k);
    CongFrom(a.v, f.p - b.v, f.p, k - 1);
    CongSmall(a.v, f.p - b.v, f.p);
  }

  /** Zero or p, taken from zero, leaves zero. */
  lemma FromZero(f: Field, a: Fe, b: Fe)
    requires f.Valid() && In(f, a) && a.v == 0 && Rep(f, b, 0) && b.ok
    ensures Sub(f, a, b).v == 0
  {
    if b.v < f.p {
      CongSmall(b.v, 0, f.p);
    }
  }

  lemma ZerosApart(f: Field, a: Fe, b: Fe)
    requires f.Valid() && In(f, a) && In(f, b) && a.v == 0 && b.v == 0
    ensures Sub(f, a, b).v == 0
  {}

  lemma CubeUnit(d: int, p: int)
    requires Invertible(d, p)
    ensures Invertible(d * d, p) && Invertible(d * (d * d), p)
  {
    InvertibleMul(d, d, p);
    InvertibleMul(d, d * d, p);
  }

  // ---------- Soundness backwards ----------

  lemma SoundBack(f: Field, a: Fe, b: Fe)
    requires f.Valid() && In(f, a) && In(f, b)
    ensures Mul(f, a, b).ok ==> a.ok && b.ok
    ensures Sub(f, a, b).ok <==> a.ok && b.ok
    ensures Add(f, a, b).ok <==> a.ok && b.ok
  {
    hide Reduce, Sound;
  }

  predicate PairOk(s: Pair) {
    s.x1.ok && s.y1.ok && s.x2.ok && s.y2.ok
  }

  /** The second point of XYcZ_add depends on all that goes in. */
  lemma AddStepBack(f: Field, s: Pair)
    requires f.Valid() && AllIn(f, s) && AddStep(f, s).x2.ok
    ensures PairOk(s)
  {
    hide Reduce, Sound;
  }

  lemma AddCStepBack(f: Field, s: Pair)
    requires f.Valid() && AllIn(f, s) && In(f, s.sub) && AddCStep(f, s).x1.ok
    ensures PairOk(s) && s.sub.ok
  {
    hide Reduce, Sound;
  }

  /** A sound result needs every register after the last XYcZ_addC sound. */
  lemma FinalStepBack(f: Field, q: Point, s: Rungs, bit: bool)
    requires f.Valid() && In(f, q.x) && In(f, q.y) && RungsIn(f, s)
    requires FinalStep(f, q, s, bit).x.ok && FinalStep(f, q, s, bit).y.ok
    ensures var t := AddCStep(f, Arrange(s, bit)); PairOk(t) && PairOk(Arrange(s, bit)) && s.sub.ok
  {
    hide AddCStep, Reduce, Sound;
    var t := AddCStep(f, Arrange(s, bit));
    var r, z := Rearrange(AddStep(f, Swapped(t)), bit).r0, FinalZ(f, q, t, bit);
    assert z.ok && r.x.ok && r.y.ok by { hide AddStep, FinalZ; }
    assert t.x1.ok && t.x2.ok && t.y1.ok by { hide AddStep; }
    assert t.y2.ok by { hide FinalZ; }
    AddCStepBack(f, Arrange(s, bit));
  }

  // ---------- The collapse, exactly ----------

  /** XYcZ_addC on opposite points: the difference is exactly (0, 0). */
  lemma AddCOppositeExact(f: Field, s: Pair, a: int, b: int)
    requires f.Valid() && AllIn(f, s) && In(f, s.sub)
    requires Rep(f, s.x1, a) && Rep(f, s.y1, b) && Rep(f, s.x2, a) && Rep(f, s.y2, -b) && Rep(f, s.sub, 0)
    requires Invertible(b, f.p) && PairOk(AddCStep(f, s))
    ensures var r := AddCStep(f, s); r.x1.v == 0 && r.y1.v == 0
  {
    hide Mul, Sub, Add, Rep;
    AddCStepBack(f, s);
    RepMul(f, s.sub, s.sub, 0, 0);
    var z := Mul(f, s.sub, s.sub);
    RepMul(f, s.x1, z, a, 0);
    RepMul(f, s.x2, z, a, 0);
    var p, q := Mul(f, s.x1, z), Mul(f, s.x2, z);
    RepSub(f, q, p, 0, 0);
    RepMul(f, s.y1, Sub(f, q, p), b, 0);
    var e := Mul(f, s.y1, Sub(f, q, p));
    RepAdd(f, p, q, 0, 0);
    OppositeUnits(f, s.y2, s.y1, b);
    var sy, bc := Add(f, s.y2, s.y1), Add(f, p, q);
    ZeroFactor(f, sy, sy);
    SoundBack(f, Mul(f, sy, sy), bc);
    FromZero(f, Mul(f, sy, sy), bc);
    var x3 := Sub(f, Mul(f, sy, sy), bc);
    ZeroFactor(f, Sub(f, x3, p), sy);
    SoundBack(f, Mul(f, Sub(f, x3, p), sy), e);
    FromZero(f, Mul(f, Sub(f, x3, p), sy), e);
  }

  /** XYcZ_add with exactly (0, 0) as second point leaves exactly (0, 0). */
  lemma AddToZeroExact(f: Field, s: Pair, d: int)
    requires f.Valid() && AllIn(f, s) && Invertible(d, f.p)
    requires Rep(f, s.x1, d * d) && Rep(f, s.y1, -(d * (d * d))) && s.x2.v == 0 && s.y2.v == 0
    requires Rep(f, s.x2, 0) && Rep(f, s.y2, 0)
    requires AddStep(f, s).x2.ok && AddStep(f, s).y2.ok
    ensures var r := AddStep(f, s); r.x2.v == 0 && r.y2.v == 0
  {
    hide Mul, Sub, Rep;
    var q, t := d * d, d * (d * d);
    CubeUnit(d, f.p);
    CubeUnit(t, f.p);
    RepSub(f, s.x2, s.x1, 0, q);
    var dx := Sub(f, s.x2, s.x1);
    RepMul(f, dx, dx, 0 - q, 0 - q);
    var a := Mul(f, dx, dx);
    assert (0 - q) * (0 - q) == q * q;
    RepMul(f, s.x1, a, q, q * q);
    assert q * (q * q) == t * t by { Squares(d, q); SwapFactor(d, d, q * q); }
    RepMul(f, s.x2, a, 0, q * q);
    var b, c := Mul(f, s.x1, a), Mul(f, s.x2, a);
    ZeroFactor(f, s.x2, a);
    RepSub(f, s.y2, s.y1, 0, -t);
    var dy := Sub(f, s.y2, s.y1);
    RepMul(f, dy, dy, t, t);
    var dd := Sub(f, Mul(f, dy, dy), b);
    SoundBack(f, dd, c);
    SoundBack(f, Mul(f, dy, dy), b);
    EqualUnits(f, Mul(f, dy, dy), b, t * t);
    RepSub(f, Mul(f, dy, dy), b, t * t, t * t);
    ZerosApart(f, dd, c);
    var x3 := Sub(f, dd, c);
    RepSub(f, dd, c, 0, 0);
    RepSub(f, c, b, 0, t * t);
    RepMul(f, s.y1, Sub(f, c, b), -t, 0 - t * t);
    assert (-t) * (0 - t * t) == t * (t * t);
    var e := Mul(f, s.y1, Sub(f, c, b));
    RepSub(f, b, x3, t * t, 0);
    RepMul(f, dy, Sub(f, b, x3), t, t * t);
    SoundBack(f, Mul(f, dy, Sub(f, b, x3)), e);
    EqualUnits(f, Mul(f, dy, Sub(f, b, x3)), e, t * (t * t));
  }

  /** The term taken away equals the product as a unit, or both are exactly zero. */
  lemma SumExact(f: Field, y: Fe, b: Fe, bc: Fe, e: Fe, d: int, bv: int, q3: int, ev: int)
    requires f.Valid() && In(f, y) && In(f, b) && In(f, bc) && In(f, e)
    requires Rep(f, y, d) && Rep(f, b, bv) && Rep(f, bc, q3) && Rep(f, e, ev)
    requires d * d == q3 && d * bv == ev
    requires Invertible(q3, f.p) && (Invertible(ev, f.p) || (b.v == 0 && e.v == 0))
    requires Sub(f, Mul(f, y, Sub(f, b, Sub(f, Mul(f, y, y), bc))), e).ok
    ensures var x3 := Sub(f, Mul(f, y, y), bc); x3.v == 0 && Sub(f, Mul(f, y, Sub(f, b, x3)), e).v == 0
  {
    hide Mul, Sub, Rep;
    var yy := Mul(f, y, y);
    var x3 := Sub(f, yy, bc);
    var w := Sub(f, b, x3);
    SoundBack(f, Mul(f, y, w), e);
    SoundBack(f, y, w);
    SoundBack(f, b, x3);
    SoundBack(f, yy, bc);
    RepMul(f, y, y, d, d);
    RepSub(f, yy, bc, q3, q3);
    EqualUnits(f, yy, bc, q3);
    if Invertible(ev, f.p) {
      RepSub(f, b, x3, bv, 0);
      RepMul(f, y, w, d, bv);
      EqualUnits(f, Mul(f, y, w), e, ev);
    } else {
      ZerosApart(f, b, x3);
      ZeroFactor(f, y, w);
      ZerosApart(f, Mul(f, y, w), e);
    }
  }

  lemma DifferenceExact(f: Field, y: Fe, b: Fe, bc: Fe, e: Fe, d: int, bv: int, q3: int, ev: int)
    requires f.Valid() && In(f, y) && In(f, b) && In(f, bc) && In(f, e)
    requires Rep(f, y, d) && Rep(f, b, bv) && Rep(f, bc, q3) && Rep(f, e, ev)
    requires d * d == q3 && -(bv * d) == ev
    requires Invertible(q3, f.p) && (Invertible(ev, f.p) || (b.v == 0 && e.v == 0))
    requires Sub(f, Mul(f, Sub(f, Sub(f, Mul(f, y, y), bc), b), y), e).ok
    ensures var x3 := Sub(f, Mul(f, y, y), bc); x3.v == 0 && Sub(f, Mul(f, Sub(f, x3, b), y), e).v == 0
  {
    hide Mul, Sub, Rep;
    var yy := Mul(f, y, y);
    var x3 := Sub(f, yy, bc);
    var w := Sub(f, x3, b);
    SoundBack(f, Mul(f, w, y), e);
    SoundBack(f, w, y);
    SoundBack(f, x3, b);
    SoundBack(f, yy, bc);
    RepMul(f, y, y, d, d);
    RepSub(f, yy, bc, q3, q3);
    EqualUnits(f, yy, bc, q3);
    if Invertible(ev, f.p) {
      RepSub(f, x3, b, 0, bv);
      RepMul(f, w, y, 0 - bv, d);
      assert (0 - bv) * d == ev;
      EqualUnits(f, Mul(f, w, y), e, ev);
    } else {
      ZerosApart(f, x3, b);
      ZeroFactor(f, w, y);
      ZerosApart(f, Mul(f, w, y), e);
    }
  }

  /** From collapsed rungs, the zero one exactly zero, XYcZ_addC makes exact zeros. */
  lemma AddCCollapsedExact(f: Field, s: Pair, t: int, x: int, y: int, x2: int, y2: int)
    requires f.Valid() && AllIn(f, s) && In(f, s.sub) && Rep(f, s.sub, t * t) && Invertible(t, f.p)
    requires Rep(f, s.x1, x) && Rep(f, s.y1, y) && Rep(f, s.x2, x2) && Rep(f, s.y2, y2)
    requires CollapsedPair(t, x, y, x2, y2) && (y2 == 0 || (s.x1.v == 0 && s.y1.v == 0))
    requires PairOk(AddCStep(f, s))
    ensures ExactZeros(AddCStep(f, s))
  {
    hide Mul, Sub, Add, Rep, CollapsedPair, Invertible;
    var bv, q3, ev := CollapsedParts(f, s, t, x, y, x2, y2);
    var a := Mul(f, s.sub, s.sub);
    var b, c := Mul(f, s.x1, a), Mul(f, s.x2, a);
    var bc, e := Add(f, b, c), Mul(f, s.y1, Sub(f, c, b));
    var c3 := t * (t * t);
    CubeUnit(t, f.p);
    CubeUnit(c3, f.p);
    MinusUnit(c3, q3, f.p);
    if y2 != 0 {
      ZeroFactor(f, s.x1, a);
      ZeroFactor(f, s.y1, Sub(f, c, b));
    }
    SumExact(f, Sub(f, s.y2, s.y1), b, bc, e, y2 - y, bv, q3, ev);
    DifferenceExact(f, Add(f, s.y2, s.y1), b, bc, e, y2 + y, bv, q3, ev);
  }

  lemma MinusUnit(u: int, v: int, p: int)
    requires Invertible(u, p) && Invertible(v, p)
    ensures Invertible(-(u * v), p)
  {
    InvertibleMul(u, v, p);
    InvertibleNeg(u * v, p);
  }

  predicate ExactZeros(t: Pair) {
    t.x1.v == 0 && t.y1.v == 0 && t.x2.v == 0 && t.y2.v == 0
  }

  /** XYcZ_add keeps exact zeros, sound or not. */
  lemma AddStepZeros(f: Field, s: Pair)
    requires f.Valid() && AllIn(f, s) && ExactZeros(s)
    ensures ExactZeros(AddStep(f, s))
  {
    hide Mul, Sub;
    var dx, dy := Sub(f, s.x2, s.x1), Sub(f, s.y2, s.y1);
    ZerosApart(f, s.x2, s.x1);
    ZerosApart(f, s.y2, s.y1);
    var a, dd := Mul(f, dx, dx), Mul(f, dy, dy);
    ZeroFactor(f, dy, dy);
    var b, c := Mul(f, s.x1, a), Mul(f, s.x2, a);
    ZeroFactor(f, s.x1, a);
    ZeroFactor(f, s.x2, a);
    ZerosApart(f, dd, b);
    ZerosApart(f, Sub(f, dd, b), c);
    var x3, e := Sub(f, Sub(f, dd, b), c), Mul(f, s.y1, Sub(f, c, b));
    ZeroFactor(f, s.y1, Sub(f, c, b));
    ZeroFactor(f, dy, Sub(f, b, x3));
    ZerosApart(f, Mul(f, dy, Sub(f, b, x3)), e);
  }

  /** A ladder step on a and -a leaves one rung exactly (0, 0). */
  lemma StepExact(f: Field, s: Rungs, a: int, b: int, bit: bool)
    requires f.Valid() && RungsIn(f, s) && Rep(f, s.sub, 0) && Invertible(b, f.p)
    requires Rep(f, s.r0.x, a) && Rep(f, s.r0.y, b) && Rep(f, s.r1.x, a) && Rep(f, s.r1.y, -b)
    requires PairOk(Arrange(LadderStep(f, s, bit), bit))
    ensures var v := Select(bit, LadderStep(f, s, bit).r1, LadderStep(f, s, bit).r0); v.x.v == 0 && v.y.v == 0
  {
    hide AddStep, AddCStep, Rep, Invertible;
    var t := AddCStep(f, Arrange(s, bit));
    AddStepBack(f, Swapped(t));
    assert -(-b) == b;
    var y := if bit then -b else b;
    InvertibleNeg(b, f.p);
    AddCOpposite(f, Arrange(s, bit), a, y);
    AddCOppositeExact(f, Arrange(s, bit), a, y);
    DoubleUnit(y, f.p);
    AddToZeroExact(f, Swapped(t), -y - y);
  }

  lemma DoubleUnit(y: int, p: int)
    requires Invertible(y, p) && p % 2 == 1
    ensures Invertible(-y - y, p)
  {
    TwoInvertible(p);
    MinusUnit(2, y, p);
    assert -(2 * y) == -y - y;
  }

  /** After the collapse a sound result is exactly (0, 0). */
  lemma FinalStepExact(f: Field, q: Point, s: Rungs, t: int, first: bool, bit: bool)
    requires f.Valid() && In(f, q.x) && In(f, q.y) && Collapsed(f, s, t, first) && Invertible(t, f.p)
    requires var v := Select(first, s.r1, s.r0); v.x.v == 0 && v.y.v == 0
    requires FinalStep(f, q, s, bit).x.ok && FinalStep(f, q, s, bit).y.ok
    ensures FinalStep(f, q, s, bit).x.v == 0 && FinalStep(f, q, s, bit).y.v == 0
  {
    hide AddStep, AddCStep, ApplyZ, FinalZ, Rep, Invertible;
    FinalStepBack(f, q, s, bit);
    var a := Arrange(s, bit);
    var one, cube := t * t, t * (t * t);
    if bit == first {
      AddCCollapsedExact(f, a, t, 0, 0, one, cube);
    } else {
      AddCCollapsedExact(f, a, t, one, cube, 0, 0);
    }
    var c := AddCStep(f, a);
    AddStepZeros(f, Swapped(c));
    ZeroPointApplyZ(f, Rearrange(AddStep(f, Swapped(c)), bit).r0, FinalZ(f, q, c, bit));
  }

  lemma ZeroPointApplyZ(f: Field, q: Point, z: Fe)
    requires f.Valid() && In(f, q.x) && In(f, q.y) && In(f, z) && q.x.v == 0 && q.y.v == 0
    ensures ApplyZ(f, q, z).x.v == 0 && ApplyZ(f, q, z).y.v == 0
  {
    hide Mul;
    var zz := Mul(f, z, z);
    ZeroFactor(f, q.x, zz);
    ZeroFactor(f, q.y, Mul(f, zz, z));
  }
}
