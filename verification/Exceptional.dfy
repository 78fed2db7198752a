/** What the ladder leaves when a step adds opposite points: every register collapses to zero. */
module Exceptional {
  import opened Congruence
  import opened Secp160r1
  import opened Field
  import opened CoZ
  import opened CoZMeaning
  import opened Ladder

  // ---------- Collapse of the registers ----------

  /** XYcZ_addC on (a, b) and (a, -b): the difference is zero, the sum is (d^2, -d^3) with d = -2b. */
  lemma AddCOpposite(f: Field, s: Pair, a: int, b: int)
    requires f.Valid() && AllIn(f, s) && In(f, s.sub)
    requires Rep(f, s.x1, a) && Rep(f, s.y1, b) && Rep(f, s.x2, a) && Rep(f, s.y2, -b) && Rep(f, s.sub, 0)
    ensures var r, d := AddCStep(f, s), -b - b;
            Rep(f, r.x1, 0) && Rep(f, r.y1, 0) && Rep(f, r.x2, d * d) && Rep(f, r.y2, -(d * (d * d)))
  {
    hide Mul, Sub, Add, Rep;
    var d := -b - b;
    RepMul(f, s.sub, s.sub, 0, 0);
    var z := Mul(f, s.sub, s.sub);
    RepMul(f, s.x1, z, a, 0);
    RepMul(f, s.x2, z, a, 0);
    var p, q := Mul(f, s.x1, z), Mul(f, s.x2, z);
    RepAdd(f, s.y2, s.y1, -b, b);
    RepSub(f, s.y2, s.y1, -b, b);
    var sy, dy := Add(f, s.y2, s.y1), Sub(f, s.y2, s.y1);
    RepSub(f, q, p, 0, 0);
    RepMul(f, s.y1, Sub(f, q, p), b, 0);
    var e := Mul(f, s.y1, Sub(f, q, p));
    RepAdd(f, p, q, 0, 0);
    RepMul(f, dy, dy, d, d);
    RepSub(f, Mul(f, dy, dy), Add(f, p, q), d * d, 0);
    var x3 := Sub(f, Mul(f, dy, dy), Add(f, p, q));
    RepSub(f, p, x3, 0, d * d);
    RepMul(f, dy, Sub(f, p, x3), d, 0 - d * d);
    RepSub(f, Mul(f, dy, Sub(f, p, x3)), e, d * (0 - d * d), 0);
    assert d * (0 - d * d) - 0 == -(d * (d * d));
    RepMul(f, sy, sy, 0, 0);
    RepSub(f, Mul(f, sy, sy), Add(f, p, q), 0, 0);
    var x3' := Sub(f, Mul(f, sy, sy), Add(f, p, q));
    RepSub(f, x3', p, 0, 0);
    RepMul(f, Sub(f, x3', p), sy, 0, 0);
    RepSub(f, Mul(f, Sub(f, x3', p), sy), e, 0, 0);
  }

  /** The registers (t^2, -t^3) and (0, 0) after XYcZ_add: (u^2, u^3) and (0, 0) with u = t^3. */
  lemma AddToZero(f: Field, s: Pair, d: int)
    requires f.Valid() && AllIn(f, s)
    requires Rep(f, s.x1, d * d) && Rep(f, s.y1, -(d * (d * d))) && Rep(f, s.x2, 0) && Rep(f, s.y2, 0)
    ensures var r, t := AddStep(f, s), d * (d * d);
            && Rep(f, r.x1, t * t) && Rep(f, r.y1, t * (t * t)) && Rep(f, r.x2, 0) && Rep(f, r.y2, 0)
            && Rep(f, r.sub, t * t)
  {
    hide Mul, Sub, Rep;
    var q, t := d * d, d * (d * d);
    RepSub(f, s.x2, s.x1, 0, q);
    var dx := Sub(f, s.x2, s.x1);
    RepMul(f, dx, dx, 0 - q, 0 - q);
    var a := Mul(f, dx, dx);
    assert (0 - q) * (0 - q) == q * q;
    RepMul(f, s.x1, a, q, q * q);
    assert q * (q * q) == t * t by { Squares(d, q); SwapFactor(d, d, q * q); }
    RepMul(f, s.x2, a, 0, q * q);
    var b, c := Mul(f, s.x1, a), Mul(f, s.x2, a);
    RepSub(f, s.y2, s.y1, 0, -t);
    var dy := Sub(f, s.y2, s.y1);
    RepMul(f, dy, dy, t, t);
    RepSub(f, Mul(f, dy, dy), b, t * t, t * t);
    RepSub(f, Sub(f, Mul(f, dy, dy), b), c, 0, 0);
    var x3 := Sub(f, Sub(f, Mul(f, dy, dy), b), c);
    RepSub(f, c, b, 0, t * t);
    RepMul(f, s.y1, Sub(f, c, b), -t, 0 - t * t);
    assert (-t) * (0 - t * t) == t * (t * t);
    var e := Mul(f, s.y1, Sub(f, c, b));
    RepSub(f, b, x3, t * t, 0);
    RepMul(f, dy, Sub(f, b, x3), t, t * t);
    RepSub(f, Mul(f, dy, Sub(f, b, x3)), e, t * (t * t), t * (t * t));
  }

  /** One rung is (t^2, t^3), the other (0, 0). */
  ghost predicate Collapsed(f: Field, s: Rungs, t: int, first: bool) {
    var u, v := Select(first, s.r0, s.r1), Select(first, s.r1, s.r0);
    && RungsIn(f, s) && Rep(f, s.sub, t * t)
    && Rep(f, u.x, t * t) && Rep(f, u.y, t * (t * t)) && Rep(f, v.x, 0) && Rep(f, v.y, 0)
  }

  ghost predicate AllZero(f: Field, t: Pair) {
    AllIn(f, t) && Rep(f, t.x1, 0) && Rep(f, t.y1, 0) && Rep(f, t.x2, 0) && Rep(f, t.y2, 0)
  }

  /** (x, y) and (x2, y2) are a collapsed pair of rungs, in either order. */
  predicate CollapsedPair(t: int, x: int, y: int, x2: int, y2: int) {
    (x == t * t && y == t * (t * t) && x2 == 0 && y2 == 0)
    || (x == 0 && y == 0 && x2 == t * t && y2 == t * (t * t))
  }

  /** What the parts of XYcZ_addC have in common on collapsed rungs. */
  lemma CollapsedParts(f: Field, s: Pair, t: int, x: int, y: int, x2: int, y2: int)
    returns (bv: int, q3: int, ev: int)
    requires f.Valid() && AllIn(f, s) && In(f, s.sub) && Rep(f, s.sub, t * t)
    requires Rep(f, s.x1, x) && Rep(f, s.y1, y) && Rep(f, s.x2, x2) && Rep(f, s.y2, y2)
    requires CollapsedPair(t, x, y, x2, y2)
    ensures var a := Mul(f, s.sub, s.sub);
            var b, c := Mul(f, s.x1, a), Mul(f, s.x2, a);
            && Rep(f, b, bv) && Rep(f, Add(f, b, c), q3) && Rep(f, Mul(f, s.y1, Sub(f, c, b)), ev)
            && Rep(f, Sub(f, s.y2, s.y1), y2 - y) && Rep(f, Add(f, s.y2, s.y1), y2 + y)
    ensures q3 == (t * (t * t)) * (t * (t * t)) && ev == (if y2 == 0 then -((t * (t * t)) * q3) else 0)
    ensures (y2 - y) * (y2 - y) == q3 && (y2 + y) * (y2 + y) == q3
    ensures (y2 - y) * bv == ev && -(bv * (y2 + y)) == ev
  {
    hide Mul, Sub, Add, Rep;
    var q, c3 := t * t, t * (t * t);
    q3 := q * (q * q);
    assert c3 * c3 == q3 by { Squares(t, q); SwapFactor(t, t, q * q); }
    RepMul(f, s.sub, s.sub, q, q);
    var a := Mul(f, s.sub, s.sub);
    RepMul(f, s.x1, a, x, q * q);
    RepMul(f, s.x2, a, x2, q * q);
    var b, c := Mul(f, s.x1, a), Mul(f, s.x2, a);
    bv := x * (q * q);
    var cv := x2 * (q * q);
    assert bv + cv == q3 && (bv == 0 || cv == 0);
    RepAdd(f, s.y2, s.y1, y2, y);
    RepSub(f, s.y2, s.y1, y2, y);
    RepSub(f, c, b, cv, bv);
    RepMul(f, s.y1, Sub(f, c, b), y, cv - bv);
    ev := y * (cv - bv);
    RepAdd(f, b, c, bv, cv);
    assert (y2 - y) * (y2 - y) == q3 && (y2 + y) * (y2 + y) == q3 by {
      assert y2 - y == c3 || y2 - y == -c3;
      assert (-c3) * (-c3) == c3 * c3;
    }
    if y2 == 0 {
      assert (0 - y) * bv == y * (0 - bv) && -(bv * y) == y * (0 - bv);
    }
  }

  /** From collapsed rungs XYcZ_addC makes only zeros; (x, y) is the first rung, (x2, y2) the second. */
  lemma AddCCollapsed(f: Field, s: Pair, t: int, x: int, y: int, x2: int, y2: int)
    requires f.Valid() && AllIn(f, s) && In(f, s.sub) && Rep(f, s.sub, t * t)
    requires Rep(f, s.x1, x) && Rep(f, s.y1, y) && Rep(f, s.x2, x2) && Rep(f, s.y2, y2)
    requires CollapsedPair(t, x, y, x2, y2)
    ensures AllZero(f, AddCStep(f, s))
  {
    hide Mul, Sub, Add, Rep, CollapsedPair;
    var bv, q3, ev := CollapsedParts(f, s, t, x, y, x2, y2);
    var a := Mul(f, s.sub, s.sub);
    var b, c := Mul(f, s.x1, a), Mul(f, s.x2, a);
    var bc, e := Add(f, b, c), Mul(f, s.y1, Sub(f, c, b));
    CollapsedSum(f, Sub(f, s.y2, s.y1), b, bc, e, y2 - y, bv, q3, ev);
    CollapsedDifference(f, Add(f, s.y2, s.y1), b, bc, e, y2 + y, bv, q3, ev);
  }

  lemma CollapsedSum(f: Field, dy: Fe, b: Fe, bc: Fe, e: Fe, d: int, bv: int, q3: int, ev: int)
    requires f.Valid() && In(f, dy) && In(f, b) && In(f, bc) && In(f, e)
    requires Rep(f, dy, d) && Rep(f, b, bv) && Rep(f, bc, q3) && Rep(f, e, ev) && d * d == q3 && d * bv == ev
    ensures var x3 := Sub(f, Mul(f, dy, dy), bc);
            Rep(f, x3, 0) && Rep(f, Sub(f, Mul(f, dy, Sub(f, b, x3)), e), 0)
  {
    hide Mul, Sub, Rep;
    RepMul(f, dy, dy, d, d);
    RepSub(f, Mul(f, dy, dy), bc, q3, q3);
    var x3 := Sub(f, Mul(f, dy, dy), bc);
    RepSub(f, b, x3, bv, 0);
    RepMul(f, dy, Sub(f, b, x3), d, bv);
    RepSub(f, Mul(f, dy, Sub(f, b, x3)), e, ev, ev);
  }

  lemma CollapsedDifference(f: Field, sy: Fe, b: Fe, bc: Fe, e: Fe, d: int, bv: int, q3: int, ev: int)
    requires f.Valid() && In(f, sy) && In(f, b) && In(f, bc) && In(f, e)
    requires Rep(f, sy, d) && Rep(f, b, bv) && Rep(f, bc, q3) && Rep(f, e, ev) && d * d == q3 && -(bv * d) == ev
    ensures var x3 := Sub(f, Mul(f, sy, sy), bc);
            Rep(f, x3, 0) && Rep(f, Sub(f, Mul(f, Sub(f, x3, b), sy), e), 0)
  {
    hide Mul, Sub, Rep;
    RepMul(f, sy, sy, d, d);
    RepSub(f, Mul(f, sy, sy), bc, q3, q3);
    var x3 := Sub(f, Mul(f, sy, sy), bc);
    RepSub(f, x3, b, 0, bv);
    RepMul(f, Sub(f, x3, b), sy, 0 - bv, d);
    assert (0 - bv) * d == ev;
    RepSub(f, Mul(f, Sub(f, x3, b), sy), e, ev, ev);
  }

  lemma AddStepZero(f: Field, s: Pair)
    requires f.Valid() && AllZero(f, s)
    ensures AllZero(f, AddStep(f, s))
  {
    assert 0 * 0 == 0;
    AddToZero(f, s, 0);
  }

  /** After a collapse the multiplication returns zero coordinates. */
  lemma FinalStepZero(f: Field, q: Point, s: Rungs, t: int, first: bool, bit: bool)
    requires f.Valid() && In(f, q.x) && In(f, q.y) && Collapsed(f, s, t, first)
    ensures Rep(f, FinalStep(f, q, s, bit).x, 0) && Rep(f, FinalStep(f, q, s, bit).y, 0)
  {
    hide AddStep, AddCStep, Mul, Sub, Inv, Rep;
    var a := Arrange(s, bit);
    var one, cube := t * t, t * (t * t);
    if bit == first {
      AddCCollapsed(f, a, t, 0, 0, one, cube);
    } else {
      AddCCollapsed(f, a, t, one, cube, 0, 0);
    }
    var c := AddCStep(f, a);
    AddStepZero(f, Swapped(c));
    var diff := if bit then Sub(f, c.x1, c.x2) else Sub(f, c.x2, c.x1);
    var v := Mul(f, Mul(f, diff, c.y1), q.x);
    var m := Mul(f, Inv(f, v), q.y);
    RepSelf(f, m);
    RepMul(f, m, c.x1, m.v, 0);
    var z := FinalZ(f, q, c, bit);
    RepMul(f, z, z, 0, 0);
    var r := Rearrange(AddStep(f, Swapped(c)), bit).r0;
    RepMul(f, r.x, Mul(f, z, z), 0, 0);
    RepMul(f, Mul(f, z, z), z, 0, 0);
    RepMul(f, r.y, Mul(f, Mul(f, z, z), z), 0, 0);
  }

  lemma RepSelf(f: Field, a: Fe)
    requires In(f, a)
    ensures Rep(f, a, a.v)
  {
    CongRefl(a.v, f.p);
  }

  /** A ladder step on a and -a collapses the rungs. */
  lemma StepCollapses(f: Field, s: Rungs, a: int, b: int, bit: bool)
    requires f.Valid() && RungsIn(f, s) && Rep(f, s.sub, 0)
    requires Rep(f, s.r0.x, a) && Rep(f, s.r0.y, b) && Rep(f, s.r1.x, a) && Rep(f, s.r1.y, -b)
    ensures var d := if bit then b + b else -b - b;
            Collapsed(f, LadderStep(f, s, bit), d * (d * d), bit)
  {
    hide AddStep, AddCStep, Mul, Rep;
    assert -(-b) == b;
    AddCOpposite(f, Arrange(s, bit), a, if bit then -b else b);
    AddToZero(f, Swapped(AddCStep(f, Arrange(s, bit))), if bit then b + b else -b - b);
  }

  // ---------- A base point with abscissa zero ----------

  /** The abscissa is zero; the general reduction cannot tell p from it. */
  predicate ZeroAbscissa(f: Field, q: Point) {
    q.x.v == 0 || (!f.Lossy() && q.x.v == f.p)
  }

  lemma ZeroFactor(f: Field, a: Fe, b: Fe)
    requires f.Valid() && In(f, a) && In(f, b)
    requires a.v == 0 || b.v == 0 || (!f.Lossy() && b.v == f.p)
    ensures Mul(f, a, b).v == 0
  {
    RepeatedIs(a.v, b.v);
    if b.v == f.p && !f.Lossy() {
      var k: int := -(a.v as int);
      CongFrom(0, a.v * f.p, f.p, k);
      CongIsMod(0, a.v * f.p, f.p);
    } else {
      assert a.v * b.v == 0;
      assert FastReduce(0) == 0;
    }
  }

  /** The abscissa is a factor of the inverted value, and zero has no inverse but zero. */
  lemma ZeroFinalZ(f: Field, q: Point, t: Pair, bit: bool)
    requires f.Valid() && In(f, q.x) && In(f, q.y) && AllIn(f, t) && ZeroAbscissa(f, q)
    ensures FinalZ(f, q, t, bit).v == 0
  {
    hide Mul, Sub;
    var diff := if bit then Sub(f, t.x1, t.x2) else Sub(f, t.x2, t.x1);
    var yb := Mul(f, diff, t.y1);
    ZeroFactor(f, yb, q.x);
    var i := Inv(f, Mul(f, yb, q.x));
    assert i.v == 0;
    ZeroFactor(f, i, q.y);
    ZeroFactor(f, Mul(f, i, q.y), t.x1);
  }

  lemma ZeroApplyZ(f: Field, q: Point, z: Fe)
    requires f.Valid() && In(f, q.x) && In(f, q.y) && In(f, z) && z.v == 0
    ensures ApplyZ(f, q, z).x.v == 0 && ApplyZ(f, q, z).y.v == 0
  {
    hide Mul;
    ZeroFactor(f, z, z);
    var zz := Mul(f, z, z);
    ZeroFactor(f, q.x, zz);
    ZeroFactor(f, zz, z);
    ZeroFactor(f, q.y, Mul(f, zz, z));
  }

  /** Every multiple of a point with abscissa zero comes out as (0, 0), by either reduction. */
  lemma ZeroAbscissaFails(f: Field, q: Point, scalar: nat, z0: Fe, numBits: nat)
    requires f.Valid() && In(f, q.x) && In(f, q.y) && In(f, z0) && numBits >= 2 && ZeroAbscissa(f, q)
    ensures var m := Multiply(f, q, scalar, z0, numBits); m.x.v == 0 && m.y.v == 0
  {
    hide StartRungs, Climb, AddStep, AddCStep, ApplyZ, FinalZ;
    var bit := Vli.Bit(scalar, 0);
    var s := Climb(f, StartRungs(f, q, z0), scalar, numBits - 2, 0);
    var t := AddCStep(f, Arrange(s, bit));
    ZeroFinalZ(f, q, t, bit);
    ZeroApplyZ(f, Rearrange(AddStep(f, Swapped(t)), bit).r0, FinalZ(f, q, t, bit));
  }
}
