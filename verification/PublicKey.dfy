/** Public keys and shared secrets on secp160r1: the key regularized, the point multiplied, both sides agreeing. */
module PublicKey {
  import opened Congruence
  import opened Words
  import opened Secp160r1
  import opened Field
  import opened CoZ
  import opened CurveGroup
  import opened Ladder
  import opened LadderWords
  import opened Scalar
  import opened KeyMultiply
  import opened Exceptional
  import opened ExactZero
  import opened Products
  import opened DoubleMeaning

  /** The words of a point's two coordinates. */
  ghost predicate HoldsPoint(c: Curve, r: array<word>, at: Point)
    reads r
  {
    r.Length == 2 * c.numWords && Val(r[..c.numWords]) == at.x.v && Val(r[c.numWords..]) == at.y.v
  }

  /** EccPoint_compute_public_key with the curve's generator, and uECC_shared_secret with the peer's point:
      regularize the key, multiply, and report whether the result is zero. result may be point.
      The random starting Z, when there is one, is initialZ. */
  method MultiplyByKey(result: array<word>, point: array<word>, key: array<word>, n: array<word>,
                       initialZ: array?<word>, c: Curve, ghost q: Point, ghost z0: Fe)
    returns (valid: bool, ghost words: nat)
    requires ValidCurve(c) && HoldsPoint(c, point, q) && In(FieldOf(c), q.x) && In(FieldOf(c), q.y)
    requires result.Length == 2 * c.numWords && result != c.p
    requires key.Length >= 6 && n.Length >= 6 && Val(n[..6]) == N160 && Val(key[..6]) < N160
    requires if initialZ == null then z0.v == 1 else Holds(c, initialZ, z0) && In(FieldOf(c), z0)
    modifies result
    ensures In(old(FieldOf(c)), z0) && ChosenWords(words, old(Val(key[..6])))
    ensures var r := Multiply(old(FieldOf(c)), q, words, z0, 162);
            HoldsPoint(c, result, r) && (valid <==> Succeeds(r))
  {
    hide Multiply, Val, Regularized, Pow2, In;
    ghost var f, k := FieldOf(c), Val(key[..6]);
    var tmp1, tmp2 := new word[6], new word[6];
    OrderBits();
    var carry := RegularizeK(key, tmp1, tmp2, n, 161);
    var scalar := if carry then tmp1 else tmp2;
    words := Val(scalar[..]);
    Halves(point, c);
    EccPointMult(result, point, scalar, initialZ, 162, c, q, z0);
    var zero := Vli.IsZero(result, 2 * c.numWords);
    valid := !zero;
    ZeroPoint(result, c);
  }

  lemma OrderBits()
    ensures (161 + 31) / 32 == 6 && Pow2(160) <= N160 < Pow2(161)
  {
    Pow160();
  }

  lemma Halves(r: array<word>, c: Curve)
    requires r.Length == 2 * c.numWords
    ensures r[0..0 + c.numWords] == r[..c.numWords] && r[c.numWords..c.numWords + c.numWords] == r[c.numWords..]
  {}

  lemma ZeroPoint(r: array<word>, c: Curve)
    requires r.Length == 2 * c.numWords
    ensures Val(r[..2 * c.numWords]) == 0 <==> Val(r[..c.numWords]) == 0 && Val(r[c.numWords..]) == 0
  {
    assert r[..2 * c.numWords] == r[..];
    assert r[..][..c.numWords] == r[..c.numWords] && r[..][c.numWords..] == r[c.numWords..];
    ValSplit(r[..], c.numWords);
    UpZero(Val(r[c.numWords..]), c.numWords);
  }

  lemma {:induction false} UpZero(d: nat, n: nat)
    ensures Up(d, n) == 0 <==> d == 0
    ensures Up(d, n) >= 0
  {
    if n > 0 {
      UpZero(d, n - 1);
    }
  }

  // ---------- When the multiplication fails ----------

  /** Without the lossy reduction the coordinates come out below p. */
  lemma Canonical(f: Field, q: Point, scalar: nat, z0: Fe, numBits: nat)
    requires f.Valid() && !f.Lossy() && In(f, q.x) && In(f, q.y) && In(f, z0) && numBits >= 2
    ensures var m := Multiply(f, q, scalar, z0, numBits); m.x.v < f.p && m.y.v < f.p
  {
    hide FinalZ, Climb, StartRungs, AddStep, AddCStep;
  }

  /** A multiplication of q, held in r, by key k with the words regularize_k chose and starting Z z0. Modulo p the
      abscissa is a unit or zero. */
  ghost predicate KeyProduct<G(!new)>(f: Field, g: Group<G>, co: Coordinates<G>, r: Point, q: G, words: nat, k: nat,
                                      z0: Fe, z: int) {
    && f.Valid() && f.p == P160 && CurveModel(g, co, P160) && BasePoint(g, co, q)
    && In(f, r.x) && In(f, r.y) && Affine(f, co, r, q) && (Invertible(co.x(q), P160) || ZeroAbscissa(f, r))
    && k < N160 && ChosenWords(words, k)
    && In(f, z0) && Rep(f, z0, z) && z0.v != 0 && Invertible(z, P160)
  }

  /** The result is zero modulo p. */
  ghost predicate Vanishes(m: Point) {
    Cong(m.x.v, 0, P160) && Cong(m.y.v, 0, P160)
  }

  /** What the caller is told: the result is not zero. */
  predicate Succeeds(m: Point) {
    m.x.v != 0 || m.y.v != 0
  }

  /** Of a multiple that is a point of the curve the ordinate is a unit. */
  ghost predicate UnitMultiple<G(!new)>(g: Group<G>, co: Coordinates<G>, q: G, k: nat) {
    Invertible(co.y(Times(g, k, q)), P160)
  }

  /** By either reduction, its products being sound, the result vanishes exactly for the keys 0, 1, n - 2 and n - 1
      and for base points with abscissa zero; in all other cases it is k q. */
  lemma VanishesExactly<G(!new)>(f: Field, g: Group<G>, co: Coordinates<G>, r: Point, q: G, words: nat, k: nat,
                                 z0: Fe, z: int)
    requires KeyProduct(f, g, co, r, q, words, k, z0, z)
    ensures var m := Multiply(f, r, words, z0, 162);
            && (m.x.ok && m.y.ok && (ExceptionalKey(k) || ZeroAbscissa(f, r)) ==> Vanishes(m))
            && (m.x.ok && m.y.ok && UnitMultiple(g, co, q, k) && !ExceptionalKey(k) && !ZeroAbscissa(f, r) ==>
                  !Vanishes(m))
            && (!ExceptionalKey(k) && !ZeroAbscissa(f, r) ==> Affine(f, co, m, Times(g, k, q)))
  {
    hide CurveModel, BasePoint, Times, Multiply, ChosenWords, Invertible;
    var m := Multiply(f, r, words, z0, 162);
    if ZeroAbscissa(f, r) {
      ZeroAbscissaFails(f, r, words, z0, 162);
      CongRefl(0, P160);
    } else if ExceptionalKey(k) {
      ExceptionalKeyFails(f, g, co, r, q, words, k, z0, z);
    } else {
      KeyMultiplyMeans(f, g, co, r, q, words, k, z0, z);
      if m.x.ok && m.y.ok && UnitMultiple(g, co, q, k) && Vanishes(m) {
        UnitIsNotZero(m.y.v, co.y(Times(g, k, q)), P160);
      }
    }
  }

  /** In those cases the caller is told: sound products leave zero itself, not the modulus, by either reduction. */
  lemma FailureReported<G(!new)>(f: Field, g: Group<G>, co: Coordinates<G>, r: Point, q: G, words: nat, k: nat,
                                 z0: Fe, z: int)
    requires KeyProduct(f, g, co, r, q, words, k, z0, z) && (f.Lossy() ==> HalfUnit(g, co, q))
    requires ExceptionalKey(k) || ZeroAbscissa(f, r)
    requires var m := Multiply(f, r, words, z0, 162); m.x.ok && m.y.ok
    ensures !Succeeds(Multiply(f, r, words, z0, 162))
  {
    hide CurveModel, BasePoint, Times, Multiply, ChosenWords, Invertible;
    if ZeroAbscissa(f, r) {
      ZeroAbscissaFails(f, r, words, z0, 162);
    } else if f.Lossy() {
      ExceptionalKeyExact(f, g, co, r, q, words, k, z0, z);
    } else {
      ExceptionalKeyFails(f, g, co, r, q, words, k, z0, z);
      Canonical(f, r, words, z0, 162);
      VanishingIsZero(Multiply(f, r, words, z0, 162));
    }
  }

  /** By either reduction, its products being sound, a multiplication is reported as failed exactly for the keys 0, 1,
      n - 2 and n - 1 and for base points with abscissa zero, and exactly then its result is not k q. If it is unsound
      some product of the run fell in the gap of the lossy reduction. */
  lemma FailsExactly<G(!new)>(f: Field, g: Group<G>, co: Coordinates<G>, r: Point, q: G, words: nat, k: nat, z0: Fe,
                              z: int)
    requires KeyProduct(f, g, co, r, q, words, k, z0, z) && (ExceptionalKey(k) || UnitMultiple(g, co, q, k))
    requires f.Lossy() && ExceptionalKey(k) ==> HalfUnit(g, co, q)
    ensures var m := Multiply(f, r, words, z0, 162);
            m.x.ok && m.y.ok ==> (Succeeds(m) <==> !ExceptionalKey(k) && !ZeroAbscissa(f, r))
    ensures var m := Multiply(f, r, words, z0, 162);
            m.x.ok && m.y.ok && UnitMultiple(g, co, q, k) ==>
              (Affine(f, co, m, Times(g, k, q)) <==> !ExceptionalKey(k) && !ZeroAbscissa(f, r))
    ensures var m := Multiply(f, r, words, z0, 162);
            r.x.ok && r.y.ok && z0.ok && !(m.x.ok && m.y.ok) ==>
              exists x :: x in OfMultiply(f, r, words, z0, 162) && Misses(f, x)
  {
    hide CurveModel, BasePoint, Times, Multiply, OfMultiply, Misses, ChosenWords, Invertible, ZeroAbscissa, HalfUnit;
    if r.x.ok && r.y.ok && z0.ok {
      SoundUnlessGap(f, r, words, z0, 162);
    }
    var m := Multiply(f, r, words, z0, 162);
    if m.x.ok && m.y.ok {
      VanishesExactly(f, g, co, r, q, words, k, z0, z);
      if !ExceptionalKey(k) && !ZeroAbscissa(f, r) {
        ZeroVanishes(m);
      } else {
        if ZeroAbscissa(f, r) {
          ZeroAbscissaFails(f, r, words, z0, 162);
        } else {
          FailureReported(f, g, co, r, q, words, k, z0, z);
        }
        if Affine(f, co, m, Times(g, k, q)) && UnitMultiple(g, co, q, k) {
          UnitIsNotZero(m.y.v, co.y(Times(g, k, q)), P160);
        }
      }
    }
  }

  lemma ZeroVanishes(m: Point)
    ensures !Succeeds(m) ==> Vanishes(m)
  {
    CongRefl(0, P160);
  }

  /** The coefficient b of secp160r1. */
  const B160: int := 0x1C97_BEFC_54BD_7A8B_65AC_F89F_81D4_D4AD_C565_FA45

  /** The curve has a point with abscissa zero and coordinates below p. */
  lemma ZeroAbscissaOnCurve()
    ensures var y := 0x6_FF0D_69A3_6F70_625C_65CA_05EC_3067_DB88_6839_9E;
            y < P160 && OnCurve(0, y, 1, B160, P160)
  {
    var y := 0x6_FF0D_69A3_6F70_625C_65CA_05EC_3067_DB88_6839_9E;
    CongFrom(y * y, B160, P160, 0x30_F2BC_ACD0_B777_4B74_1FF2_C92F_1652_880E_3CC1);
  }

  // ---------- The constants of the curve ----------

  /** The generator. */
  const GX: int := 0x4A96_B568_8EF5_7328_4664_6989_68C3_8BB9_13CB_FC82
  const GY: int := 0x23A6_2855_3168_947D_59DC_C912_0423_5137_7AC5_FB32

  /** The constants are the ones the words of the curve's table spell, lowest word first. */
  lemma CurveTable()
    ensures 0x7FFFFFFF + BASE * (0xFFFFFFFF + BASE * (0xFFFFFFFF + BASE * (0xFFFFFFFF + BASE * (0xFFFFFFFF)))) == P160
    ensures 0xCA752257 + BASE * (0xF927AED3 + BASE * (0x1F4C8 + BASE * (0x0 + BASE * (0x0 + BASE * (0x1))))) == N160
    ensures 0x13CBFC82 + BASE * (0x68C38BB9 + BASE * (0x46646989 + BASE * (0x8EF57328 + BASE * (0x4A96B568)))) == GX
    ensures 0x7AC5FB32 + BASE * (0x4235137 + BASE * (0x59DCC912 + BASE * (0x3168947D + BASE * (0x23A62855)))) == GY
    ensures 0xC565FA45 + BASE * (0x81D4D4AD + BASE * (0x65ACF89F + BASE * (0x54BD7A8B + BASE * (0x1C97BEFC)))) == B160
  {}

  /** The generator lies on the curve, and both its coordinates are units, so that for the public key only the four
      exceptional keys fail. */
  lemma GeneratorRegular()
    ensures GX < P160 && GY < P160 && OnCurve(GX, GY, 1, B160, P160)
    ensures Invertible(GX, P160) && Invertible(GY, P160)
  {
    var x3: int := GX * GX * GX;
    CongFrom(GY * GY, x3 - 3 * GX + B160, P160,
             -0x654_FC66_0F0C_60E8_848F_FE6C_DAB3_ABDC_26A8_A459_A32C_5ED2_71D8_DA3F_E222_96BB_15E0_72AC_E473_BAFD);
    CongFrom(GX * 0x9754_CD7E_F986_0442_0310_8252_208C_DB43_C47C_CE96, 1, P160,
             0x2C17_9A53_E0C7_55FA_B31E_CD94_E688_6B8D_EA51_6FD5);
    assert IsInverse(GX, 0x9754_CD7E_F986_0442_0310_8252_208C_DB43_C47C_CE96, P160);
    CongFrom(GY * 0xF695_7014_40EF_58D4_B7BA_8862_CCE5_B51E_5FCC_A18B, 1, P160,
             0x2256_7A12_DABB_8B68_2F61_9DAB_059A_D5E4_99AE_29DB);
    assert IsInverse(GY, 0xF695_7014_40EF_58D4_B7BA_8862_CCE5_B51E_5FCC_A18B, P160);
  }

  // ---------- Agreement ----------

  lemma {:induction false} TimesTimes<G(!new)>(g: Group<G>, j: nat, k: nat, a: G)
    requires Abelian(g)
    ensures j * k >= 0 && Times(g, j, Times(g, k, a)) == Times(g, j * k, a)
  {
    hide Abelian;
    if j == 0 {
    } else {
      TimesTimes(g, j - 1, k, a);
      assert j * k == k + (j - 1) * k;
      TimesAdd(g, k, (j - 1) * k, a);
    }
  }

  /** Each side multiplies the other's public point by its own key. By either reduction, its products being sound, two
      sides that both report success hold congruent abscissas, equal ones where the abscissa is a unit. Without the
      lossy reduction they hold equal ones in any case. */
  lemma SharedSecretAgrees<G(!new)>(f: Field, g: Group<G>, co: Coordinates<G>, q: G,
                                    j: nat, wj: nat, zj0: Fe, zj: int, k: nat, wk: nat, zk0: Fe, zk: int,
                                    rj: Point, rk: Point)
    requires KeyProduct(f, g, co, rk, Times(g, k, q), wj, j, zj0, zj)
    requires KeyProduct(f, g, co, rj, Times(g, j, q), wk, k, zk0, zk)
    requires f.Lossy() ==> HalfUnit(g, co, Times(g, k, q)) && HalfUnit(g, co, Times(g, j, q))
    ensures var s, t := Multiply(f, rk, wj, zj0, 162), Multiply(f, rj, wk, zk0, 162);
            s.x.ok && s.y.ok && t.x.ok && t.y.ok && Succeeds(s) && Succeeds(t) ==>
              && Cong(s.x.v, t.x.v, P160)
              && (Invertible(co.x(Times(g, j, Times(g, k, q))), P160) ==> s.x.v == t.x.v)
    ensures var s, t := Multiply(f, rk, wj, zj0, 162), Multiply(f, rj, wk, zk0, 162);
            var sound := rj.x.ok && rj.y.ok && rk.x.ok && rk.y.ok && zj0.ok && zk0.ok;
            !f.Lossy() && sound && Succeeds(s) && Succeeds(t) ==> s.x.v == t.x.v
  {
    hide Abelian, ChordRule, TangentRule, NegationRule, BasePoint, Times, Multiply, ChosenWords, ZeroAbscissa, HalfUnit;
    TimesTimes(g, j, k, q);
    TimesTimes(g, k, j, q);
    assert j * k == k * j;
    var s, t := Multiply(f, rk, wj, zj0, 162), Multiply(f, rj, wk, zk0, 162);
    if !f.Lossy() && rj.x.ok && rj.y.ok && rk.x.ok && rk.y.ok && zj0.ok && zk0.ok {
      GeneralReductionSound(f, rk, wj, zj0, 162);
      GeneralReductionSound(f, rj, wk, zk0, 162);
    }
    if s.x.ok && s.y.ok && t.x.ok && t.y.ok && Succeeds(s) && Succeeds(t) {
      SuccessMeans(f, g, co, rk, Times(g, k, q), wj, j, zj0, zj);
      SuccessMeans(f, g, co, rj, Times(g, j, q), wk, k, zk0, zk);
      var x := co.x(Times(g, j, Times(g, k, q)));
      CongSym(t.x.v, x, P160);
      CongTrans(s.x.v, x, t.x.v, P160);
      if Invertible(x, P160) {
        UnitInside(f, s.x, x);
        UnitInside(f, t.x, x);
        CongSmall(s.x.v, t.x.v, P160);
      }
      if !f.Lossy() {
        Canonical(f, rk, wj, zj0, 162);
        Canonical(f, rj, wk, zk0, 162);
        CongSmall(s.x.v, t.x.v, P160);
      }
    }
  }

  /** A success that is reported is one. */
  lemma SuccessMeans<G(!new)>(f: Field, g: Group<G>, co: Coordinates<G>, r: Point, q: G, words: nat, k: nat,
                              z0: Fe, z: int)
    requires KeyProduct(f, g, co, r, q, words, k, z0, z) && (f.Lossy() ==> HalfUnit(g, co, q))
    requires var m := Multiply(f, r, words, z0, 162); m.x.ok && m.y.ok && Succeeds(m)
    ensures Affine(f, co, Multiply(f, r, words, z0, 162), Times(g, k, q))
  {
    hide CurveModel, BasePoint, Times, Multiply, ChosenWords, Invertible, ZeroAbscissa, HalfUnit;
    if ExceptionalKey(k) || ZeroAbscissa(f, r) {
      FailureReported(f, g, co, r, q, words, k, z0, z);
    } else {
      VanishesExactly(f, g, co, r, q, words, k, z0, z);
    }
  }

  lemma VanishingIsZero(m: Point)
    requires m.x.v < P160 && m.y.v < P160
    ensures Vanishes(m) ==> m.x.v == 0 && m.y.v == 0
  {
    if Vanishes(m) {
      CongSmall(m.x.v, 0, P160);
      CongSmall(m.y.v, 0, P160);
    }
  }
}
