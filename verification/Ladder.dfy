/** Scalar multiplication: the co-Z Montgomery ladder on field elements, and what it computes. */
module Ladder {
  import opened Congruence
  import opened Field
  import opened CoZ
  import opened CoZMeaning
  import opened DoubleMeaning
  import opened CurveGroup

  // ---------- EccPoint_mult on field elements ----------

  /** R0, R1 and the difference register. */
  datatype Rungs = Rungs(r0: Point, r1: Point, sub: Fe)

  predicate RungsIn(f: Field, s: Rungs) {
    In(f, s.r0.x) && In(f, s.r0.y) && In(f, s.r1.x) && In(f, s.r1.y) && In(f, s.sub)
  }

  /** The registers as XYcZ_addC takes them: first R[1 - nb], which is R1 for a one bit, then R[nb]. */
  function Arrange(s: Rungs, bit: bool): Pair {
    if bit then Pair(s.r1.x, s.r1.y, s.r0.x, s.r0.y, s.sub) else Pair(s.r0.x, s.r0.y, s.r1.x, s.r1.y, s.sub)
  }

  /** Exchanging the two points, as the ladder does between XYcZ_addC and XYcZ_add. */
  function Swapped(t: Pair): Pair {
    Pair(t.x2, t.y2, t.x1, t.y1, t.sub)
  }

  /** Back from XYcZ_add, whose first point is R[nb]. */
  function Rearrange(u: Pair, bit: bool): Rungs {
    if bit then Rungs(Point(u.x1, u.y1), Point(u.x2, u.y2), u.sub)
    else Rungs(Point(u.x2, u.y2), Point(u.x1, u.y1), u.sub)
  }

  function LadderStep(f: Field, s: Rungs, bit: bool): (r: Rungs)
    requires f.Valid() && RungsIn(f, s)
    ensures RungsIn(f, r)
  {
    Rearrange(AddStep(f, Swapped(AddCStep(f, Arrange(s, bit)))), bit)
  }

  /** The loop for (i = from; i > to; --i). */
  function Climb(f: Field, s: Rungs, scalar: nat, from: nat, to: nat): (r: Rungs)
    requires f.Valid() && RungsIn(f, s)
    ensures RungsIn(f, r)
    decreases from
  {
    if from <= to then s else Climb(f, LadderStep(f, s, Vli.Bit(scalar, from)), scalar, from - 1, to)
  }

  function StartRungs(f: Field, q: Point, z0: Fe): (r: Rungs)
    requires f.Valid() && In(f, q.x) && In(f, q.y) && In(f, z0)
    ensures RungsIn(f, r)
  {
    var s := InitialDouble(f, q, z0).0;
    Rungs(Point(s.x2, s.y2), Point(s.x1, s.y1), Sub(f, s.x2, s.x1))
  }

  /** The final 1/Z, from the registers after the last XYcZ_addC. */
  function FinalZ(f: Field, q: Point, t: Pair, bit: bool): (r: Fe)
    requires f.Valid() && In(f, q.x) && In(f, q.y) && AllIn(f, t)
    ensures In(f, r)
  {
    // t.x1 is R[1 - nb]: X1 - X0 is t.x1 - t.x2 for a one bit
    var diff := if bit then Sub(f, t.x1, t.x2) else Sub(f, t.x2, t.x1);
    var v := Mul(f, Mul(f, diff, t.y1), q.x);
    Mul(f, Mul(f, Inv(f, v), q.y), t.x1)
  }

  function FinalStep(f: Field, q: Point, s: Rungs, bit: bool): (r: Point)
    requires f.Valid() && In(f, q.x) && In(f, q.y) && RungsIn(f, s)
    ensures In(f, r.x) && In(f, r.y)
  {
    var t := AddCStep(f, Arrange(s, bit));
    ApplyZ(f, Rearrange(AddStep(f, Swapped(t)), bit).r0, FinalZ(f, q, t, bit))
  }

  /** EccPoint_mult. */
  function Multiply(f: Field, q: Point, scalar: nat, z0: Fe, numBits: nat): (r: Point)
    requires f.Valid() && In(f, q.x) && In(f, q.y) && In(f, z0) && numBits >= 2
    ensures In(f, r.x) && In(f, r.y)
  {
    FinalStep(f, q, Climb(f, StartRungs(f, q, z0), scalar, numBits - 2, 0), Vli.Bit(scalar, 0))
  }

  // ---------- One step in the group ----------

  /** The registers hold the point's coordinates scaled by z. */
  ghost predicate Stands<G(!new)>(f: Field, co: Coordinates<G>, x: Fe, y: Fe, a: G, z: int) {
    Scaled(f, x, y, co.x(a), co.y(a), z)
  }

  lemma ScaledCong(f: Field, x: Fe, y: Fe, a: int, b: int, a': int, b': int, z: int)
    requires Scaled(f, x, y, a, b, z) && Cong(a, a', f.p) && Cong(b, b', f.p)
    ensures Scaled(f, x, y, a', b', z)
  {
    CongRefl(z * z, f.p);
    CongRefl(z * z * z, f.p);
    CongMul(a, a', z * z, z * z, f.p);
    CongMul(b, b', z * z * z, z * z * z, f.p);
    RepCong(f, x, a * (z * z), a' * (z * z));
    RepCong(f, y, b * (z * z * z), b' * (z * z * z));
  }

  /** If l times d is the difference of ordinates, then the second ordinate is b1 + l d. */
  lemma SecondOrdinate(l: int, d: int, b1: int, b2: int, p: int)
    requires Cong(l * d, b2 - b1, p)
    ensures Cong(b2, b1 + l * d, p)
  {
    CongSym(l * d, b2 - b1, p);
    CongRefl(b1, p);
    CongAdd(b2 - b1, l * d, b1, b1, p);
  }

  lemma InvertibleScale(d: int, z: int, p: int)
    requires Invertible(d, p) && Invertible(z, p)
    ensures Invertible(d * (z * z * z), p)
  {
    InvertibleMul(z, z, p);
    InvertibleMul(z * z, z, p);
    InvertibleMul(d, z * z * z, p);
  }

  /** XYcZ_add on group elements: u stays, v becomes u + v. */
  lemma AddStepInGroup<G(!new)>(f: Field, g: Group<G>, co: Coordinates<G>, s: Pair, u: G, v: G, z: int) returns (w: int)
    requires f.Valid() && AllIn(f, s) && CurveModel(g, co, f.p)
    requires u != g.zero && v != g.zero && Invertible(co.x(v) - co.x(u), f.p) && Invertible(z, f.p)
    requires Stands(f, co, s.x1, s.y1, u, z) && Stands(f, co, s.x2, s.y2, v, z)
    ensures w == (co.x(v) - co.x(u)) * (z * z * z) && Invertible(w, f.p) && g.add(u, v) != g.zero
    ensures var r := AddStep(f, s);
            && Stands(f, co, r.x1, r.y1, u, w) && Stands(f, co, r.x2, r.y2, g.add(u, v), w)
            && Rep(f, r.sub, (co.x(u) - co.x(g.add(u, v))) * (w * w))
  {
    hide AddStep, Scaled, Rep;
    var a1, b1, a2, b2 := co.x(u), co.y(u), co.x(v), co.y(v);
    var l := Slope(a2 - a1, b2 - b1, f.p);
    w := (a2 - a1) * (z * z * z);
    InvertibleScale(a2 - a1, z, f.p);
    SecondOrdinate(l, a2 - a1, b1, b2, f.p);
    CongRefl(a2, f.p);
    ScaledCong(f, s.x2, s.y2, a2, b2, a2, b1 + l * (a2 - a1), z);
    AddStepMeans(f, s, a1, b1, a2, l, z);
    var r, x3, sum := AddStep(f, s), SumX(l, a1, a2), g.add(u, v);
    ScaledCong(f, r.x2, r.y2, x3, SumY(l, a1, b1, x3), co.x(sum), co.y(sum), w);
    CongRefl(a1, f.p);
    CongSub(a1, a1, x3, co.x(sum), f.p);
    CongRefl(w * w, f.p);
    CongMul(a1 - x3, a1 - co.x(sum), w * w, w * w, f.p);
    RepCong(f, r.sub, (a1 - x3) * (w * w), (a1 - co.x(sum)) * (w * w));
  }

  /** XYcZ_addC on group elements: u - v and u + v. */
  lemma AddCStepInGroup<G(!new)>(f: Field, g: Group<G>, co: Coordinates<G>, s: Pair, u: G, v: G, z: int)
    returns (w: int)
    requires f.Valid() && AllIn(f, s) && In(f, s.sub) && CurveModel(g, co, f.p)
    requires u != g.zero && v != g.zero && Invertible(co.x(v) - co.x(u), f.p) && Invertible(z, f.p)
    requires Stands(f, co, s.x1, s.y1, u, z) && Stands(f, co, s.x2, s.y2, v, z)
    requires Rep(f, s.sub, (co.x(v) - co.x(u)) * (z * z)) || Rep(f, s.sub, (-(co.x(v) - co.x(u))) * (z * z))
    ensures w == (co.x(v) - co.x(u)) * (z * z * z) && Invertible(w, f.p)
    ensures g.add(u, v) != g.zero && g.add(u, g.neg(v)) != g.zero
    ensures var r := AddCStep(f, s);
            Stands(f, co, r.x1, r.y1, g.add(u, g.neg(v)), w) && Stands(f, co, r.x2, r.y2, g.add(u, v), w)
  {
    hide AddCStep, Scaled, Rep;
    var a1, b1, a2, b2 := co.x(u), co.y(u), co.x(v), co.y(v);
    var d := a2 - a1;
    var l := Slope(d, b2 - b1, f.p);
    var m := Slope(d, -b2 - b1, f.p);
    w := d * (z * z * z);
    InvertibleScale(d, z, f.p);
    SecondOrdinate(l, d, b1, b2, f.p);
    SecondOrdinate(m, d, b1, -b2, f.p);
    CongRefl(0, f.p);
    CongSub(0, 0, -b2, b1 + m * d, f.p);
    CongRefl(a2, f.p);
    ScaledCong(f, s.x2, s.y2, a2, b2, a2, b1 + l * d, z);
    ScaledCong(f, s.x2, s.y2, a2, b2, a2, -b1 - m * d, z);
    AddCStepMeans(f, s, a1, b1, a2, l, m, z);
    NegatedChord(g, co, u, v, m, f.p);
    var r, plus, minus := AddCStep(f, s), SumX(l, a1, a2), SumX(m, a1, a2);
    var sum, diff := g.add(u, v), g.add(u, g.neg(v));
    ScaledCong(f, r.x2, r.y2, plus, SumY(l, a1, b1, plus), co.x(sum), co.y(sum), w);
    ScaledCong(f, r.x1, r.y1, minus, SumY(m, a1, b1, minus), co.x(diff), co.y(diff), w);
  }

  /** The chord rule for u - v, in terms of v's own abscissa. */
  lemma NegatedChord<G(!new)>(g: Group<G>, co: Coordinates<G>, u: G, v: G, m: int, p: int)
    requires CurveModel(g, co, p) && u != g.zero && v != g.zero && Invertible(co.x(v) - co.x(u), p)
    requires Cong(m * (co.x(v) - co.x(u)), -co.y(v) - co.y(u), p)
    ensures var diff, minus := g.add(u, g.neg(v)), SumX(m, co.x(u), co.x(v));
            && diff != g.zero && Cong(minus, co.x(diff), p)
            && Cong(SumY(m, co.x(u), co.y(u), minus), co.y(diff), p)
  {
    var n := g.neg(v);
    var a1, b1, a2 := co.x(u), co.y(u), co.x(v);
    var d, d' := a2 - a1, co.x(n) - a1;
    CongSym(co.x(n), a2, p);
    CongRefl(a1, p);
    CongSub(a2, co.x(n), a1, a1, p);
    InvertibleCong(d, d', p);
    CongSym(d, d', p);
    CongRefl(m, p);
    CongMul(m, m, d', d, p);
    CongTrans(m * d', m * d, -co.y(v) - b1, p);
    CongSym(co.y(n), -co.y(v), p);
    CongRefl(b1, p);
    CongSub(-co.y(v), co.y(n), b1, b1, p);
    CongTrans(m * d', -co.y(v) - b1, co.y(n) - b1, p);
    var minus, minus' := SumX(m, a1, a2), SumX(m, a1, co.x(n));
    CongRefl(m * m - a1, p);
    CongSub(m * m - a1, m * m - a1, a2, co.x(n), p);
    var diff := g.add(u, n);
    CongTrans(minus, minus', co.x(diff), p);
    CongSub(a1, a1, minus, minus', p);
    CongMul(m, m, a1 - minus, a1 - minus', p);
    CongSub(m * (a1 - minus), m * (a1 - minus'), b1, b1, p);
    CongTrans(SumY(m, a1, b1, minus), SumY(m, a1, b1, minus'), co.y(diff), p);
  }

  // ---------- The ladder in the group ----------

  /** The rungs are a and b over z, with the difference of abscissas, of either sign, in sub. */
  ghost predicate OnRungs<G(!new)>(f: Field, co: Coordinates<G>, s: Rungs, a: G, b: G, z: int) {
    && RungsIn(f, s) && Invertible(z, f.p)
    && Stands(f, co, s.r0.x, s.r0.y, a, z) && Stands(f, co, s.r1.x, s.r1.y, b, z)
    && (Rep(f, s.sub, (co.x(b) - co.x(a)) * (z * z)) || Rep(f, s.sub, (co.x(a) - co.x(b)) * (z * z)))
  }

  /** None of the additions of a ladder step on m and m + 1 is exceptional: for a = m q and b = (m + 1) q,
      neither is zero, their abscissas differ by a unit, and so do those of a + b and q. */
  ghost predicate StepRegular<G(!new)>(g: Group<G>, co: Coordinates<G>, q: G, m: nat, p: int) {
    var a, b := Times(g, m, q), Times(g, m + 1, q);
    && a != g.zero && b != g.zero && q != g.zero
    && Invertible(co.x(b) - co.x(a), p) && Invertible(co.x(q) - co.x(g.add(a, b)), p)
  }

  function Select<T>(bit: bool, one: T, zero: T): T {
    if bit then one else zero
  }

  /** The difference of the rungs is the base point, up to sign. */
  lemma RungDifference<G(!new)>(g: Group<G>, co: Coordinates<G>, q: G, m: nat, bit: bool, p: int)
    requires CurveModel(g, co, p) && q != g.zero
    ensures var a, b := Times(g, m, q), Times(g, m + 1, q);
            var d := g.add(Select(bit, b, a), g.neg(Select(bit, a, b)));
            d == Select(bit, q, g.neg(q)) && Cong(co.x(d), co.x(q), p)
  {
    hide Abelian, ChordRule, TangentRule, NegationRule;
    var a := Times(g, m, q);
    Comm(g, q, a);
    CancelLeft(g, a, q);
    CancelRight(g, a, q);
    CongRefl(co.x(q), p);
    NegationOf(g, co, q, p);
  }

  lemma RungMultiples<G(!new)>(g: Group<G>, q: G, m: nat)
    requires Abelian(g)
    ensures var a, b := Times(g, m, q), Times(g, m + 1, q);
            && g.add(a, b) == Times(g, 2 * m + 1, q) && g.add(b, a) == Times(g, 2 * m + 1, q)
            && g.add(a, a) == Times(g, 2 * m, q) && g.add(b, b) == Times(g, 2 * m + 2, q)
  {
    hide Abelian;
    Comm(g, Times(g, m, q), Times(g, m + 1, q));
    TimesAdd(g, m, m + 1, q);
    TimesAdd(g, m, m, q);
    TimesAdd(g, m + 1, m + 1, q);
  }

  lemma FlipUnit(a: int, b: int, p: int)
    requires Invertible(a - b, p)
    ensures Invertible(b - a, p)
  {
    InvertibleNeg(a - b, p);
  }

  /** The XYcZ_addC half of a ladder step: +-q and the sum of the rungs. */
  lemma AddCOnRungs<G(!new)>(f: Field, g: Group<G>, co: Coordinates<G>, s: Rungs, q: G, m: nat, z: int, bit: bool)
    returns (w: int)
    requires f.Valid() && CurveModel(g, co, f.p) && StepRegular(g, co, q, m, f.p)
    requires OnRungs(f, co, s, Times(g, m, q), Times(g, m + 1, q), z)
    ensures Invertible(w, f.p)
    ensures w == (if bit then co.x(Times(g, m, q)) - co.x(Times(g, m + 1, q))
                  else co.x(Times(g, m + 1, q)) - co.x(Times(g, m, q))) * (z * z * z)
    ensures var t := AddCStep(f, Arrange(s, bit));
            && Stands(f, co, t.x1, t.y1, Select(bit, q, g.neg(q)), w)
            && Stands(f, co, t.x2, t.y2, Times(g, 2 * m + 1, q), w)
            && Times(g, 2 * m + 1, q) != g.zero && Select(bit, q, g.neg(q)) != g.zero
            && Cong(co.x(Select(bit, q, g.neg(q))), co.x(q), f.p)
  {
    hide AddCStep, Scaled, Rep, Abelian, ChordRule, TangentRule, NegationRule, Times;
    var a, b := Times(g, m, q), Times(g, m + 1, q);
    var u, v := Select(bit, b, a), Select(bit, a, b);
    FlipUnit(co.x(b), co.x(a), f.p);
    assert -(co.x(v) - co.x(u)) == co.x(u) - co.x(v);
    w := AddCStepInGroup(f, g, co, Arrange(s, bit), u, v, z);
    RungDifference(g, co, q, m, bit, f.p);
    RungMultiples(g, q, m);
  }

  /** Twice the rung the bit selects. */
  lemma DoubledRung<G(!new)>(g: Group<G>, q: G, m: nat, bit: bool)
    requires Abelian(g)
    ensures g.add(Times(g, 2 * m + 1, q), Select(bit, q, g.neg(q))) == Times(g, Select(bit, 2 * m + 2, 2 * m), q)
  {
    hide Abelian;
    var s := Times(g, 2 * m + 1, q);
    if bit {
      Comm(g, s, q);
    } else {
      Comm(g, q, Times(g, 2 * m, q));
      Assoc(g, Times(g, 2 * m, q), q, g.neg(q));
      Opposite(g, q);
      Neutral(g, Times(g, 2 * m, q));
    }
  }

  /** A ladder step takes m and m + 1 to 2m + bit and 2m + bit + 1. */
  lemma LadderStepMeans<G(!new)>(f: Field, g: Group<G>, co: Coordinates<G>, s: Rungs, q: G, m: nat, z: int, bit: bool)
    returns (z': int)
    requires f.Valid() && CurveModel(g, co, f.p) && StepRegular(g, co, q, m, f.p)
    requires OnRungs(f, co, s, Times(g, m, q), Times(g, m + 1, q), z)
    ensures var m' := 2 * m + (if bit then 1 else 0);
            OnRungs(f, co, LadderStep(f, s, bit), Times(g, m', q), Times(g, m' + 1, q), z')
  {
    hide AddCStep, AddStep, Scaled, Rep, Abelian, ChordRule, TangentRule, NegationRule, Times;
    var w := AddCOnRungs(f, g, co, s, q, m, z, bit);
    var t, d, sum := AddCStep(f, Arrange(s, bit)), Select(bit, q, g.neg(q)), Times(g, 2 * m + 1, q);
    RungMultiples(g, q, m);
    assert Invertible(co.x(d) - co.x(sum), f.p) by {
      CongSym(co.x(d), co.x(q), f.p);
      CongRefl(co.x(sum), f.p);
      CongSub(co.x(q), co.x(d), co.x(sum), co.x(sum), f.p);
      InvertibleCong(co.x(q) - co.x(sum), co.x(d) - co.x(sum), f.p);
    }
    z' := AddStepInGroup(f, g, co, Swapped(t), sum, d, w);
    DoubledRung(g, q, m, bit);
  }

  /** The scalar's bits from i up, under an implicit one at position top. */
  function Prefix(scalar: nat, top: nat, i: nat): nat
    decreases top - i
  {
    if i >= top then 1 else 2 * Prefix(scalar, top, i + 1) + (if Vli.Bit(scalar, i) then 1 else 0)
  }

  /** Over the whole loop the rungs stay m q and (m + 1) q, m being the prefix read so far. */
  lemma {:induction false} ClimbMeans<G(!new)>(f: Field, g: Group<G>, co: Coordinates<G>, s: Rungs, q: G,
                                               scalar: nat, top: nat, from: nat, to: nat, z: int) returns (z': int)
    requires f.Valid() && CurveModel(g, co, f.p) && to <= from < top
    requires var m := Prefix(scalar, top, from + 1); OnRungs(f, co, s, Times(g, m, q), Times(g, m + 1, q), z)
    requires forall i :: to + 2 <= i <= from + 1 ==> StepRegular(g, co, q, Prefix(scalar, top, i), f.p)
    ensures var m := Prefix(scalar, top, to + 1);
            OnRungs(f, co, Climb(f, s, scalar, from, to), Times(g, m, q), Times(g, m + 1, q), z')
    decreases from
  {
    hide OnRungs, CurveModel, LadderStep, Times;
    if from == to {
      z' := z;
    } else {
      var m := Prefix(scalar, top, from + 1);
      assert RungsIn(f, s) by { RungsAreIn(f, co, s, Times(g, m, q), Times(g, m + 1, q), z); }
      var bit := Vli.Bit(scalar, from);
      var next := LadderStepMeans(f, g, co, s, q, m, z, bit);
      z' := ClimbMeans(f, g, co, LadderStep(f, s, bit), q, scalar, top, from - 1, to, next);
    }
  }

  lemma RungsAreIn<G(!new)>(f: Field, co: Coordinates<G>, s: Rungs, a: G, b: G, z: int)
    requires OnRungs(f, co, s, a, b, z)
    ensures RungsIn(f, s)
  {}

  // ---------- The start ----------

  lemma TwiceUnit(y: int, p: int)
    requires p % 2 == 1 && Invertible(y, p)
    ensures Invertible(2 * y, p)
  {
    TwoInvertible(p);
    InvertibleMul(2, y, p);
  }

  lemma TangentOf<G(!new)>(g: Group<G>, co: Coordinates<G>, q: G, l: int, p: int)
    requires CurveModel(g, co, p) && q != g.zero && Invertible(2 * co.y(q), p)
    requires Cong(2 * co.y(q) * l, 3 * co.x(q) * co.x(q) - 3, p)
    ensures var d, x := g.add(q, q), SumX(l, co.x(q), co.x(q));
            d != g.zero && Cong(x, co.x(d), p) && Cong(SumY(l, co.x(q), co.y(q), x), co.y(d), p)
  {}

  lemma FourthUnit(y: int, z: int, p: int)
    requires Invertible(y, p) && Invertible(z, p)
    ensures Invertible(y * ((z * z) * (z * z)), p)
  {
    InvertibleMul(z, z, p);
    InvertibleMul(z * z, z * z, p);
    InvertibleMul(y, (z * z) * (z * z), p);
  }

  /** The registers hold the affine coordinates of a. */
  ghost predicate Affine<G(!new)>(f: Field, co: Coordinates<G>, r: Point, a: G) {
    Rep(f, r.x, co.x(a)) && Rep(f, r.y, co.y(a))
  }

  lemma AffineIsScaled(f: Field, r: Point, a: int, b: int)
    requires Rep(f, r.x, a) && Rep(f, r.y, b)
    ensures Scaled(f, r.x, r.y, a, b, 1)
  {
    assert a * (1 * 1) == a && b * (1 * 1 * 1) == b;
  }

  /** After XYcZ_initial_double the rungs are q and 2q. */
  lemma StartMeans<G(!new)>(f: Field, g: Group<G>, co: Coordinates<G>, r: Point, q: G, z0: Fe, z: int) returns (w: int)
    requires f.Valid() && CurveModel(g, co, f.p) && q != g.zero
    requires In(f, r.x) && In(f, r.y) && In(f, z0) && Affine(f, co, r, q)
    requires Rep(f, z0, z) && z0.v != 0 && Invertible(z, f.p) && Invertible(co.y(q), f.p)
    ensures OnRungs(f, co, StartRungs(f, r, z0), Times(g, 1, q), Times(g, 2, q), w)
  {
    hide ApplyZ, Double, Abelian, ChordRule, TangentRule, NegationRule, Rep;
    var a, b := co.x(q), co.y(q);
    AffineIsScaled(f, r, a, b);
    ApplyZMeans(f, r, z0, a, b, 1, z);
    assert 1 * z == z;
    TwiceUnit(b, f.p);
    var l := Slope(2 * b, 3 * a * a - 3, f.p);
    assert l * (2 * b) == 2 * b * l;
    var scaled := ApplyZ(f, r, z0);
    var j := Jacobian(scaled.x, scaled.y, z0);
    w := b * ((z * z) * (z * z));
    DoubleTangent(f, j, a, b, z, l);
    FourthUnit(b, z, f.p);
    TangentOf(g, co, q, l, f.p);
    var d, x3, dd := Double(f, j), SumX(l, a, a), g.add(q, q);
    ScaledCong(f, d.x, d.y, x3, SumY(l, a, b, x3), co.x(dd), co.y(dd), w);
    ApplyZMeans(f, r, d.z, a, b, 1, w);
    assert 1 * w == w;
    var second := ApplyZ(f, r, d.z);
    RepSub(f, second.x, d.x, a * (w * w), co.x(dd) * (w * w));
    PullOut(a, co.x(dd), w * w);
    TimesOne(g, q);
    assert Times(g, 2, q) == g.add(q, Times(g, 1, q));
  }

  // ---------- The final division by Z ----------

  /** The inverted value, (X1 - X0) * Yb * xP, in terms of the base point (x, y) and the abscissa xs of the
      sum of the rungs: for either bit it is ((x - xs) w^2) (y w^3) x. */
  lemma InvertedValue(f: Field, t: Pair, px: Fe, bit: bool, x: int, y: int, dx: int, dy: int, xs: int, w: int)
    requires f.Valid() && AllIn(f, t) && In(f, px) && Rep(f, px, x)
    requires Rep(f, t.x1, dx * (w * w)) && Rep(f, t.y1, dy * (w * w * w)) && Rep(f, t.x2, xs * (w * w))
    requires Cong(dx, x, f.p) && Cong(dy, if bit then y else -y, f.p)
    ensures var diff := if bit then Sub(f, t.x1, t.x2) else Sub(f, t.x2, t.x1);
            Rep(f, Mul(f, Mul(f, diff, t.y1), px), (((x - xs) * (w * w)) * (y * (w * w * w))) * x)
  {
    hide Mul, Sub, Rep;
    var q, c := w * w, w * w * w;
    CongRefl(q, f.p); CongRefl(c, f.p);
    CongMul(dx, x, q, q, f.p);
    RepCong(f, t.x1, dx * q, x * q);
    PullOut(x, xs, q);
    PullOut(xs, x, q);
    if bit {
      CongMul(dy, y, c, c, f.p);
      RepCong(f, t.y1, dy * c, y * c);
      RepSub(f, t.x1, t.x2, x * q, xs * q);
      RepMul(f, Sub(f, t.x1, t.x2), t.y1, (x - xs) * q, y * c);
    } else {
      CongMul(dy, -y, c, c, f.p);
      RepCong(f, t.y1, dy * c, (-y) * c);
      RepSub(f, t.x2, t.x1, xs * q, x * q);
      RepMul(f, Sub(f, t.x2, t.x1), t.y1, (xs - x) * q, (-y) * c);
      SignsCancel(x - xs, y, q, c);
    }
    var diff := if bit then Sub(f, t.x1, t.x2) else Sub(f, t.x2, t.x1);
    RepMul(f, Mul(f, diff, t.y1), px, ((x - xs) * q) * (y * c), x);
  }

  /** The sign of X1 - X0 cancels the sign of +-P. */
  lemma SignsCancel(d: int, y: int, q: int, c: int)
    ensures ((-d) * q) * ((-y) * c) == (d * q) * (y * c)
  {
    assert (-d) * q == -(d * q);
    assert (-y) * c == -(y * c);
  }

  /** The Z left by the closing XYcZ_add times the recovered value. */
  lemma ZTimesInverse(d: int, x: int, y: int, w: int, i: int)
    ensures (d * (w * w * w)) * ((i * y) * (x * (w * w))) == (((d * (w * w)) * (y * (w * w * w))) * x) * i
  {
    var q, c := w * w, w * w * w;
    Squares2(d, c, i * y, x * q);
    assert (d * (i * y)) * (c * (x * q)) == (d * (i * y)) * ((x * q) * c);
    SwapFactor(i, y, d);
    Squares2(d, q, y, c);
    SwapFactor(x, q, c);
    var dy, qc := d * y, q * c;
    assert d * (i * y) == dy * i;
    Squares2(dy, i, x, qc);
    SwapFactor(dy, qc, x);
    SwapFactor(dy * x, i, qc);
    SwapFactor(dy * x, qc, i);
  }

  /** z times the Z that XYcZ_add will leave is one. */
  lemma FinalZMeans(f: Field, q: Point, t: Pair, bit: bool, x: int, y: int, dx: int, dy: int, xs: int, w: int)
    returns (z: int)
    requires f.Valid() && AllIn(f, t) && In(f, q.x) && In(f, q.y) && Rep(f, q.x, x) && Rep(f, q.y, y)
    requires Rep(f, t.x1, dx * (w * w)) && Rep(f, t.y1, dy * (w * w * w)) && Rep(f, t.x2, xs * (w * w))
    requires Cong(dx, x, f.p) && Cong(dy, if bit then y else -y, f.p)
    requires Invertible(x, f.p) && Invertible(y, f.p) && Invertible(w, f.p) && Invertible(x - xs, f.p)
    ensures Rep(f, FinalZ(f, q, t, bit), z)
    ensures FinalZ(f, q, t, bit).ok ==> Cong(((dx - xs) * (w * w * w)) * z, 1, f.p)
  {
    hide Sub;
    InvertedValue(f, t, q.x, bit, x, y, dx, dy, xs, w);
    var diff := if bit then Sub(f, t.x1, t.x2) else Sub(f, t.x2, t.x1);
    var v := Mul(f, Mul(f, diff, t.y1), q.x);
    var e := (((x - xs) * (w * w)) * (y * (w * w * w))) * x;
    InvertedIsUnit(x, y, x - xs, w, f.p);
    RepInv(f, v, e);
    var i := Inv(f, v).v;
    CongRefl(i, f.p);
    RepMul(f, Inv(f, v), q.y, i, y);
    CongRefl(w * w, f.p);
    CongMul(dx, x, w * w, w * w, f.p);
    RepCong(f, t.x1, dx * (w * w), x * (w * w));
    RepMul(f, Mul(f, Inv(f, v), q.y), t.x1, i * y, x * (w * w));
    z := (i * y) * (x * (w * w));
    ZTimesInverse(x - xs, x, y, w, i);
    if FinalZ(f, q, t, bit).ok {
      CongRefl(xs, f.p); CongRefl(w * w * w, f.p); CongRefl(z, f.p);
      CongSub(dx, x, xs, xs, f.p);
      CongMul(dx - xs, x - xs, w * w * w, w * w * w, f.p);
      CongMul((dx - xs) * (w * w * w), (x - xs) * (w * w * w), z, z, f.p);
      CongTrans(((dx - xs) * (w * w * w)) * z, e * i, 1, f.p);
    }
  }

  lemma InvertedIsUnit(x: int, y: int, d: int, w: int, p: int)
    requires Invertible(x, p) && Invertible(y, p) && Invertible(d, p) && Invertible(w, p)
    ensures Invertible(((d * (w * w)) * (y * (w * w * w))) * x, p)
  {
    InvertibleMul(w, w, p);
    InvertibleMul(w * w, w, p);
    InvertibleMul(d, w * w, p);
    InvertibleMul(y, w * w * w, p);
    InvertibleMul(d * (w * w), y * (w * w * w), p);
    InvertibleMul((d * (w * w)) * (y * (w * w * w)), x, p);
  }

  /** Scaling by 1/Z gives the affine coordinates. */
  lemma Unscale(f: Field, r: Point, zr: Fe, a: int, b: int, w: int, z: int)
    requires f.Valid() && In(f, r.x) && In(f, r.y) && In(f, zr)
    requires Scaled(f, r.x, r.y, a, b, w) && Rep(f, zr, z) && (zr.ok ==> Cong(w * z, 1, f.p))
    ensures Rep(f, ApplyZ(f, r, zr).x, a) && Rep(f, ApplyZ(f, r, zr).y, b)
  {
    ApplyZMeans(f, r, zr, a, b, w, z);
    var u := w * z;
    if zr.ok {
      CongMul(u, 1, u, 1, f.p);
      CongMul(u * u, 1, u, 1, f.p);
      CongRefl(a, f.p); CongRefl(b, f.p);
      CongMul(a, a, u * u, 1, f.p);
      CongMul(b, b, u * u * u, 1, f.p);
      RepCong(f, ApplyZ(f, r, zr).x, a * (u * u), a);
      RepCong(f, ApplyZ(f, r, zr).y, b * (u * u * u), b);
    }
  }

  lemma SignedOrdinate<G(!new)>(g: Group<G>, co: Coordinates<G>, q: G, bit: bool, p: int)
    requires CurveModel(g, co, p) && q != g.zero
    ensures Cong(co.y(Select(bit, q, g.neg(q))), if bit then co.y(q) else -co.y(q), p)
  {
    CongRefl(co.y(q), p);
  }

  /** The last step and the division leave the affine coordinates of (2m + bit) q, q's abscissa being a unit. */
  lemma FinalStepMeans<G(!new)>(f: Field, g: Group<G>, co: Coordinates<G>, r: Point, s: Rungs, q: G, m: nat, z: int,
                                bit: bool)
    requires f.Valid() && CurveModel(g, co, f.p) && StepRegular(g, co, q, m, f.p)
    requires OnRungs(f, co, s, Times(g, m, q), Times(g, m + 1, q), z)
    requires In(f, r.x) && In(f, r.y) && Affine(f, co, r, q)
    requires Invertible(co.y(q), f.p)
    ensures Invertible(co.x(q), f.p) ==>
              Affine(f, co, FinalStep(f, r, s, bit), Times(g, 2 * m + (if bit then 1 else 0), q))
  {
    if Invertible(co.x(q), f.p) {
      FinalStepOfUnit(f, g, co, r, s, q, m, z, bit);
    }
  }

  lemma FinalStepOfUnit<G(!new)>(f: Field, g: Group<G>, co: Coordinates<G>, r: Point, s: Rungs, q: G, m: nat, z: int,
                                 bit: bool)
    requires f.Valid() && CurveModel(g, co, f.p) && StepRegular(g, co, q, m, f.p)
    requires OnRungs(f, co, s, Times(g, m, q), Times(g, m + 1, q), z)
    requires In(f, r.x) && In(f, r.y) && Affine(f, co, r, q)
    requires Invertible(co.x(q), f.p) && Invertible(co.y(q), f.p)
    ensures Affine(f, co, FinalStep(f, r, s, bit), Times(g, 2 * m + (if bit then 1 else 0), q))
  {
    hide AddCStep, AddStep, ApplyZ, FinalZ, Rep, Abelian, ChordRule, TangentRule, NegationRule, Times;
    var w := AddCOnRungs(f, g, co, s, q, m, z, bit);
    var t, d, sum := AddCStep(f, Arrange(s, bit)), Select(bit, q, g.neg(q)), Times(g, 2 * m + 1, q);
    RungMultiples(g, q, m);
    SignedOrdinate(g, co, q, bit, f.p);
    var zi := FinalZMeans(f, r, t, bit, co.x(q), co.y(q), co.x(d), co.y(d), co.x(sum), w);
    assert Invertible(co.x(d) - co.x(sum), f.p) by {
      CongSym(co.x(d), co.x(q), f.p);
      CongRefl(co.x(sum), f.p);
      CongSub(co.x(q), co.x(d), co.x(sum), co.x(sum), f.p);
      InvertibleCong(co.x(q) - co.x(sum), co.x(d) - co.x(sum), f.p);
    }
    var w2 := AddStepInGroup(f, g, co, Swapped(t), sum, d, w);
    DoubledRung(g, q, m, bit);
    var r0, k := Rearrange(AddStep(f, Swapped(t)), bit).r0, Times(g, 2 * m + (if bit then 1 else 0), q);
    Unscale(f, r0, FinalZ(f, r, t, bit), co.x(k), co.y(k), w2, zi);
  }

  // ---------- The whole multiplication ----------

  /** What keeps every step of the multiplication by a scalar with top implicit bit `top` unexceptional. */
  ghost predicate LadderRegular<G(!new)>(g: Group<G>, co: Coordinates<G>, q: G, scalar: nat, top: nat, p: int) {
    && q != g.zero && Invertible(co.y(q), p)
    && forall i :: 1 <= i <= top ==> StepRegular(g, co, q, Prefix(scalar, top, i), p)
  }

  /** EccPoint_mult computes the scalar multiple, the scalar read under an implicit leading one, of every point whose
      abscissa is a unit. */
  lemma MultiplyMeans<G(!new)>(f: Field, g: Group<G>, co: Coordinates<G>, r: Point, q: G, scalar: nat, z0: Fe, z: int,
                               numBits: nat)
    requires f.Valid() && CurveModel(g, co, f.p) && numBits >= 2
    requires LadderRegular(g, co, q, scalar, numBits - 1, f.p)
    requires In(f, r.x) && In(f, r.y) && In(f, z0) && Affine(f, co, r, q)
    requires Rep(f, z0, z) && z0.v != 0 && Invertible(z, f.p)
    ensures Invertible(co.x(q), f.p)
            ==> Affine(f, co, Multiply(f, r, scalar, z0, numBits), Times(g, Prefix(scalar, numBits - 1, 0), q))
  {
    hide StepRegular, OnRungs, CurveModel, Times, FinalStep, StartRungs, Climb, Affine, Rep, Invertible, RungsIn, In;
    var top := numBits - 1;
    var w := StartMeans(f, g, co, r, q, z0, z);
    assert Prefix(scalar, top, top) == 1;
    var z1 := ClimbMeans(f, g, co, StartRungs(f, r, z0), q, scalar, top, top - 1, 0, w);
    var s := Climb(f, StartRungs(f, r, z0), scalar, top - 1, 0);
    FinalStepMeans(f, g, co, r, s, q, Prefix(scalar, top, 1), z1, Vli.Bit(scalar, 0));
  }
}
