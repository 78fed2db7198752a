/** An abelian group whose nonzero elements have coordinates obeying the chord and tangent rules. */
module CurveGroup {
  import opened Congruence
  import opened CoZMeaning

  datatype Group<!G> = Group(zero: G, add: (G, G) -> G, neg: G -> G)

  ghost predicate Abelian<G(!new)>(g: Group<G>) {
    && (forall a, b, c :: g.add(g.add(a, b), c) == g.add(a, g.add(b, c)))
    && (forall a, b :: g.add(a, b) == g.add(b, a))
    && (forall a :: g.add(g.zero, a) == a)
    && (forall a :: g.add(a, g.neg(a)) == g.zero)
  }

  /** k times a. */
  function Times<G>(g: Group<G>, k: nat, a: G): G {
    if k == 0 then g.zero else g.add(a, Times(g, k - 1, a))
  }

  lemma Assoc<G(!new)>(g: Group<G>, a: G, b: G, c: G)
    requires Abelian(g)
    ensures g.add(g.add(a, b), c) == g.add(a, g.add(b, c))
  {}

  lemma Comm<G(!new)>(g: Group<G>, a: G, b: G)
    requires Abelian(g)
    ensures g.add(a, b) == g.add(b, a)
  {}

  lemma Neutral<G(!new)>(g: Group<G>, a: G)
    requires Abelian(g)
    ensures g.add(g.zero, a) == a && g.add(a, g.zero) == a
  {}

  lemma Opposite<G(!new)>(g: Group<G>, a: G)
    requires Abelian(g)
    ensures g.add(a, g.neg(a)) == g.zero && g.add(g.neg(a), a) == g.zero
  {}

  lemma {:induction false} TimesAdd<G(!new)>(g: Group<G>, j: nat, k: nat, a: G)
    requires Abelian(g)
    ensures Times(g, j + k, a) == g.add(Times(g, j, a), Times(g, k, a))
  {
    hide Abelian;
    if j == 0 {
      Neutral(g, Times(g, k, a));
    } else {
      TimesAdd(g, j - 1, k, a);
      Assoc(g, a, Times(g, j - 1, a), Times(g, k, a));
    }
  }

  lemma TimesOne<G(!new)>(g: Group<G>, a: G)
    requires Abelian(g)
    ensures Times(g, 1, a) == a
  {
    assert Times(g, 1, a) == g.add(a, Times(g, 0, a));
  }

  /** (a + b) - a = b. */
  lemma CancelLeft<G(!new)>(g: Group<G>, a: G, b: G)
    requires Abelian(g)
    ensures g.add(g.add(a, b), g.neg(a)) == b
  {
    hide Abelian;
    Comm(g, a, b);
    Assoc(g, b, a, g.neg(a));
    Opposite(g, a);
    Neutral(g, b);
  }

  /** a - (a + b) = -b. */
  lemma CancelRight<G(!new)>(g: Group<G>, a: G, b: G)
    requires Abelian(g)
    ensures g.add(a, g.neg(g.add(a, b))) == g.neg(b)
  {
    hide Abelian;
    var s := g.add(a, b);
    var d := g.add(a, g.neg(s));
    // d + b = (-s + a) + b = -s + s = 0
    Comm(g, a, g.neg(s));
    Assoc(g, g.neg(s), a, b);
    Opposite(g, s);
    assert g.add(d, b) == g.zero;
    Assoc(g, d, b, g.neg(b));
    Opposite(g, b);
    Neutral(g, d);
    Neutral(g, g.neg(b));
  }

  /** Multiples of a point of order n only depend on the residue of the scalar. */
  lemma TimesOrder<G(!new)>(g: Group<G>, k: nat, n: nat, a: G)
    requires Abelian(g) && Times(g, n, a) == g.zero
    ensures Times(g, k + n, a) == Times(g, k, a)
  {
    hide Abelian;
    TimesAdd(g, k, n, a);
    Neutral(g, Times(g, k, a));
  }

  datatype Coordinates<!G> = Coordinates(x: G -> int, y: G -> int)

  /** The chord rule: slope l through two points whose abscissas differ by a unit. */
  ghost predicate ChordRule<G(!new)>(g: Group<G>, co: Coordinates<G>, p: int) {
    forall a, b, l :: a != g.zero && b != g.zero && Invertible(co.x(b) - co.x(a), p)
      && Cong(l * (co.x(b) - co.x(a)), co.y(b) - co.y(a), p)
      ==> && g.add(a, b) != g.zero
          && Cong(SumX(l, co.x(a), co.x(b)), co.x(g.add(a, b)), p)
          && Cong(SumY(l, co.x(a), co.y(a), SumX(l, co.x(a), co.x(b))), co.y(g.add(a, b)), p)
  }

  /** The tangent rule of a curve with coefficient -3. */
  ghost predicate TangentRule<G(!new)>(g: Group<G>, co: Coordinates<G>, p: int) {
    forall a, l :: a != g.zero && Invertible(2 * co.y(a), p)
      && Cong(2 * co.y(a) * l, 3 * co.x(a) * co.x(a) - 3, p)
      ==> && g.add(a, a) != g.zero
          && Cong(SumX(l, co.x(a), co.x(a)), co.x(g.add(a, a)), p)
          && Cong(SumY(l, co.x(a), co.y(a), SumX(l, co.x(a), co.x(a))), co.y(g.add(a, a)), p)
  }

  ghost predicate NegationRule<G(!new)>(g: Group<G>, co: Coordinates<G>, p: int) {
    forall a :: a != g.zero ==>
                  && g.neg(a) != g.zero
                  && Cong(co.x(g.neg(a)), co.x(a), p)
                  && Cong(co.y(g.neg(a)), -co.y(a), p)
  }

  ghost predicate CurveModel<G(!new)>(g: Group<G>, co: Coordinates<G>, p: int) {
    Abelian(g) && ChordRule(g, co, p) && TangentRule(g, co, p) && NegationRule(g, co, p)
  }

  lemma NegationOf<G(!new)>(g: Group<G>, co: Coordinates<G>, a: G, p: int)
    requires CurveModel(g, co, p) && a != g.zero
    ensures g.neg(a) != g.zero && Cong(co.x(g.neg(a)), co.x(a), p) && Cong(co.y(g.neg(a)), -co.y(a), p)
  {}

  /** Dividing by a unit gives a slope. */
  lemma Slope(d: int, e: int, p: int) returns (l: int)
    requires Invertible(d, p)
    ensures Cong(l * d, e, p)
  {
    var i :| IsInverse(d, i, p);
    l := e * i;
    CongRefl(e, p);
    CongMul(e, e, d * i, 1, p);
    SwapFactor(e, i, d);
    assert e * (i * d) == e * (d * i);
  }
}
