/** Multiplying a point of secp160r1 by a private key: regularize_k, then the ladder. */
module KeyMultiply {
  import opened Congruence
  import opened Words
  import opened VliMod
  import opened Secp160r1
  import opened Field
  import opened CoZ
  import opened CurveGroup
  import opened Ladder
  import opened Scalar
  import opened Exceptional
  import opened ExactZero

  /** The words regularize_k chooses for key k: k + n or k + 2n, with or without bit 161. */
  ghost predicate ChosenWords(words: nat, k: nat) {
    var s := Regularized(k, N160, 161);
    words == s || words + Pow2(161) == s
  }

  /** A point of order n; its ordinate is a unit, its abscissa may be zero. */
  ghost predicate BasePoint<G(!new)>(g: Group<G>, co: Coordinates<G>, q: G) {
    OrderModel(g, co, q, N160, P160) && Invertible(co.y(q), P160)
  }

  predicate ExceptionalKey(k: nat) {
    k == 0 || k == 1 || k == N160 - 2 || k == N160 - 1
  }

  lemma BaseNotZero<G(!new)>(g: Group<G>, co: Coordinates<G>, q: G)
    requires Abelian(g) && BasePoint(g, co, q)
    ensures q != g.zero && Times(g, N160, q) == g.zero
  {
    hide Abelian, Times;
    TimesOne(g, q);
    assert 1 % N160 == 1 && N160 % N160 == 0;
  }

  /** The prefixes the ladder reads are the leading bits of the regularized scalar. */
  lemma ChosenPrefix(words: nat, k: nat, i: nat)
    requires k < N160 && ChosenWords(words, k) && i <= 161
    ensures Prefix(words, 161, i) == DownBits(Regularized(k, N160, 161), i)
  {
    Pow160();
    RegularizedTop(k, N160, 161);
    PrefixIsDown(words, Regularized(k, N160, 161), 161, i);
  }

  lemma ChosenRegular<G(!new)>(g: Group<G>, co: Coordinates<G>, q: G, words: nat, k: nat, i: nat)
    requires Abelian(g) && BasePoint(g, co, q) && k < N160 && ChosenWords(words, k) && i <= 161
    requires StepScalar(DownBits(Regularized(k, N160, 161), i), N160)
    ensures StepRegular(g, co, q, Prefix(words, 161, i), P160)
  {
    hide Abelian, Times, StepScalar, OrderModel, StepRegular, Regularized;
    ChosenPrefix(words, k, i);
    RegularFromScalar(g, co, q, Prefix(words, 161, i), N160, P160);
  }

  /** n more or 2n more changes nothing. */
  lemma RegularizedTimes<G(!new)>(g: Group<G>, q: G, k: nat)
    requires Abelian(g) && Times(g, N160, q) == g.zero
    ensures Times(g, Regularized(k, N160, 161), q) == Times(g, k, q)
  {
    hide Abelian, Times, Pow2;
    TimesOrder(g, k, N160, q);
    TimesOrder(g, k + N160, N160, q);
    assert k + N160 + N160 == k + 2 * N160;
  }

  /** For every key below n other than 0, 1, n - 2 and n - 1, and every q whose abscissa is a unit, the result is k q
      in affine coordinates. */
  lemma KeyMultiplyMeans<G(!new)>(f: Field, g: Group<G>, co: Coordinates<G>, r: Point, q: G, words: nat, k: nat,
                                  z0: Fe, z: int)
    requires f.Valid() && f.p == P160 && CurveModel(g, co, P160) && BasePoint(g, co, q)
    requires k < N160 && !ExceptionalKey(k) && ChosenWords(words, k)
    requires In(f, r.x) && In(f, r.y) && In(f, z0) && Affine(f, co, r, q)
    requires Rep(f, z0, z) && z0.v != 0 && Invertible(z, P160)
    ensures Invertible(co.x(q), P160) ==> Affine(f, co, Multiply(f, r, words, z0, 162), Times(g, k, q))
  {
    hide Abelian, ChordRule, TangentRule, NegationRule, Times, Multiply, Affine, Rep, StepRegular, OrderModel,
         StepScalar, Regularized, DownBits, In, ChosenWords;
    BaseNotZero(g, co, q);
    ExceptionalKeys(k);
    forall i | 1 <= i <= 161
      ensures StepRegular(g, co, q, Prefix(words, 161, i), P160)
    {
      ChosenRegular(g, co, q, words, k, i);
    }
    MultiplyMeans(f, g, co, r, q, words, z0, z, 162);
    ChosenPrefix(words, k, 0);
    WholeNumber(Regularized(k, N160, 161));
    RegularizedTimes(g, q, k);
  }

  lemma WholeNumber(v: nat)
    ensures DownBits(v, 0) == v
  {}

  // ---------- The exceptional keys ----------

  lemma {:induction false} ClimbSplit(f: Field, s: Rungs, scalar: nat, from: nat, mid: nat, to: nat)
    requires f.Valid() && RungsIn(f, s) && to <= mid <= from
    ensures Climb(f, s, scalar, from, to) == Climb(f, Climb(f, s, scalar, from, mid), scalar, mid, to)
    decreases from
  {
    hide LadderStep;
    if from > mid {
      ClimbSplit(f, LadderStep(f, s, Vli.Bit(scalar, from)), scalar, from - 1, mid, to);
    }
  }

  /** Points adding up to zero are opposite. */
  lemma OppositeOf<G(!new)>(g: Group<G>, a: G, b: G)
    requires Abelian(g) && g.add(a, b) == g.zero
    ensures b == g.neg(a)
  {
    hide Abelian;
    CancelLeft(g, a, b);
    Neutral(g, g.neg(a));
  }

  /** Rungs holding a and -a: equal abscissas, opposite ordinates, and a zero difference. */
  lemma OppositeRungs<G(!new)>(f: Field, g: Group<G>, co: Coordinates<G>, s: Rungs, a: G, b: G, z: int)
    requires f.Valid() && CurveModel(g, co, f.p) && a != g.zero && g.add(a, b) == g.zero && OnRungs(f, co, s, a, b, z)
    ensures var u, v := co.x(a) * (z * z), co.y(a) * (z * z * z);
            && Rep(f, s.r0.x, u) && Rep(f, s.r0.y, v) && Rep(f, s.r1.x, u) && Rep(f, s.r1.y, -v) && Rep(f, s.sub, 0)
  {
    hide Abelian, ChordRule, TangentRule, NegationRule, Rep;
    OppositeOf(g, a, b);
    NegationOf(g, co, a, f.p);
    ScaledCong(f, s.r1.x, s.r1.y, co.x(b), co.y(b), co.x(a), -co.y(a), z);
    var q, c := z * z, z * z * z;
    assert (-co.y(a)) * c == -(co.y(a) * c);
    CongRefl(co.x(a), f.p);
    CongRefl(q, f.p);
    CongSub(co.x(b), co.x(a), co.x(a), co.x(a), f.p);
    CongSub(co.x(a), co.x(a), co.x(b), co.x(a), f.p);
    CongMul(co.x(b) - co.x(a), 0, q, q, f.p);
    CongMul(co.x(a) - co.x(b), 0, q, q, f.p);
    if Rep(f, s.sub, (co.x(b) - co.x(a)) * q) {
      RepCong(f, s.sub, (co.x(b) - co.x(a)) * q, 0);
    } else {
      RepCong(f, s.sub, (co.x(a) - co.x(b)) * q, 0);
    }
  }

  /** Before the last two bits the ladder of an exceptional key stands on (n - 1) / 2 and (n + 1) / 2. */
  lemma ExceptionalRungs<G(!new)>(f: Field, g: Group<G>, co: Coordinates<G>, r: Point, q: G, words: nat, k: nat,
                                  z0: Fe, z: int)
    returns (a: G, b: G, w: int)
    requires f.Valid() && f.p == P160 && CurveModel(g, co, P160) && BasePoint(g, co, q)
    requires k < N160 && ExceptionalKey(k) && ChosenWords(words, k)
    requires In(f, r.x) && In(f, r.y) && In(f, z0) && Affine(f, co, r, q)
    requires Rep(f, z0, z) && z0.v != 0 && Invertible(z, P160)
    ensures a == Times(g, (N160 - 1) / 2, q) && a != g.zero && g.add(a, b) == g.zero
    ensures OnRungs(f, co, Climb(f, StartRungs(f, r, z0), words, 160, 1), a, b, w)
  {
    hide Abelian, ChordRule, TangentRule, NegationRule, Times, Affine, Rep, StepRegular, OnRungs, StepScalar,
         Regularized, DownBits, In, ChosenWords, StartRungs, Climb, Invertible;
    BaseNotZero(g, co, q);
    ExceptionalKeys(k);
    forall i | 3 <= i <= 161
      ensures StepRegular(g, co, q, Prefix(words, 161, i), P160)
    {
      ChosenRegular(g, co, q, words, k, i);
    }
    var w0 := StartMeans(f, g, co, r, q, z0, z);
    assert Prefix(words, 161, 161) == 1;
    w := ClimbMeans(f, g, co, StartRungs(f, r, z0), q, words, 161, 160, 1, w0);
    ChosenPrefix(words, k, 2);
    var m := Prefix(words, 161, 2);
    HalfOrder(k);
    a, b := Times(g, m, q), Times(g, m + 1, q);
    RungMultiples(g, q, m);
    NotMultiple(g, co, q, m);
  }

  lemma HalfOrder(k: nat)
    requires k < N160 && ExceptionalKey(k)
    ensures DownBits(Regularized(k, N160, 161), 2) == (N160 - 1) / 2
  {
    var s := Regularized(k, N160, 161);
    Pow160();
    LastPrefix(s, k);
    DownHalf(s, 0);
    DownHalf(s, 1);
    assert DownBits(s, 2) == (s / 2) / 2 == s / 4;
  }

  lemma NotMultiple<G(!new)>(g: Group<G>, co: Coordinates<G>, q: G, m: nat)
    requires BasePoint(g, co, q) && m == (N160 - 1) / 2
    ensures Times(g, m, q) != g.zero && 2 * m + 1 == N160
  {
    hide Times;
    assert m % N160 == m;
  }

  /** For the keys 0, 1, n - 2 and n - 1 the ladder meets opposite points and the result is (0, 0) modulo p. */
  lemma ExceptionalKeyFails<G(!new)>(f: Field, g: Group<G>, co: Coordinates<G>, r: Point, q: G, words: nat, k: nat,
                                     z0: Fe, z: int)
    requires f.Valid() && f.p == P160 && CurveModel(g, co, P160) && BasePoint(g, co, q)
    requires k < N160 && ExceptionalKey(k) && ChosenWords(words, k)
    requires In(f, r.x) && In(f, r.y) && In(f, z0) && Affine(f, co, r, q)
    requires Rep(f, z0, z) && z0.v != 0 && Invertible(z, P160)
    ensures var m := Multiply(f, r, words, z0, 162); Rep(f, m.x, 0) && Rep(f, m.y, 0)
  {
    hide CurveModel, BasePoint, ChosenWords, Affine, Rep, OnRungs, StartRungs, Climb, LadderStep, FinalStep,
         Collapsed, Invertible;
    var a, b, w := ExceptionalRungs(f, g, co, r, q, words, k, z0, z);
    var start := StartRungs(f, r, z0);
    var s := Climb(f, start, words, 160, 1);
    OppositeRungs(f, g, co, s, a, b, w);
    var bit, v := Vli.Bit(words, 1), co.y(a) * (w * w * w);
    StepCollapses(f, s, co.x(a) * (w * w), v, bit);
    ClimbSplit(f, start, words, 160, 1, 0);
    OneStep(f, s, words);
    var d := if bit then v + v else -v - v;
    FinalStepZero(f, r, LadderStep(f, s, bit), d * (d * d), bit, Vli.Bit(words, 0));
  }

  /** Of half the order the ordinate is a unit; only at a point of order two is it zero. */
  ghost predicate HalfUnit<G(!new)>(g: Group<G>, co: Coordinates<G>, q: G) {
    Invertible(co.y(Times(g, (N160 - 1) / 2, q)), P160)
  }

  /** If its products are sound the result for these keys is zero itself, not the modulus, by either reduction. */
  lemma ExceptionalKeyExact<G(!new)>(f: Field, g: Group<G>, co: Coordinates<G>, r: Point, q: G, words: nat, k: nat,
                                     z0: Fe, z: int)
    requires f.Valid() && f.p == P160 && CurveModel(g, co, P160) && BasePoint(g, co, q) && HalfUnit(g, co, q)
    requires k < N160 && ExceptionalKey(k) && ChosenWords(words, k)
    requires In(f, r.x) && In(f, r.y) && In(f, z0) && Affine(f, co, r, q)
    requires Rep(f, z0, z) && z0.v != 0 && Invertible(z, P160)
    requires var m := Multiply(f, r, words, z0, 162); m.x.ok && m.y.ok
    ensures var m := Multiply(f, r, words, z0, 162); m.x.v == 0 && m.y.v == 0
  {
    hide CurveModel, BasePoint, ChosenWords, Affine, Rep, StartRungs, Climb, LadderStep, FinalStep, Collapsed,
         Invertible, Times;
    var a, b, w := ExceptionalRungs(f, g, co, r, q, words, k, z0, z);
    var start := StartRungs(f, r, z0);
    var s := Climb(f, start, words, 160, 1);
    OppositeRungs(f, g, co, s, a, b, w);
    var bit, last, v := Vli.Bit(words, 1), Vli.Bit(words, 0), co.y(a) * (w * w * w);
    ClimbSplit(f, start, words, 160, 1, 0);
    OneStep(f, s, words);
    var d := if bit then v + v else -v - v;
    InvertibleMul(w, w, P160);
    InvertibleMul(w * w, w, P160);
    InvertibleMul(co.y(a), w * w * w, P160);
    DoubledCubed(v, bit);
    StepCollapses(f, s, co.x(a) * (w * w), v, bit);
    FinalStepBack(f, r, LadderStep(f, s, bit), last);
    StepExact(f, s, co.x(a) * (w * w), v, bit);
    FinalStepExact(f, r, LadderStep(f, s, bit), d * (d * d), bit, last);
  }

  lemma DoubledCubed(v: int, bit: bool)
    requires Invertible(v, P160)
    ensures var d := if bit then v + v else -v - v; Invertible(d * (d * d), P160)
  {
    InvertibleNeg(v, P160);
    DoubleUnit(if bit then -v else v, P160);
    CubeUnit(if bit then v + v else -v - v, P160);
  }

  lemma OneStep(f: Field, s: Rungs, scalar: nat)
    requires f.Valid() && RungsIn(f, s)
    ensures Climb(f, s, scalar, 1, 0) == LadderStep(f, s, Vli.Bit(scalar, 1))
  {
    hide LadderStep;
    assert Climb(f, LadderStep(f, s, Vli.Bit(scalar, 1)), scalar, 0, 0) == LadderStep(f, s, Vli.Bit(scalar, 1));
  }
}
