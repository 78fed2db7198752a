/** The products a multiplication forms: where none of them lies in the gap of the reduction, the result is sound. */
module Products {
  import opened Field
  import opened CoZ
  import opened Ladder

  predicate AllSound(f: Field, products: seq<nat>) {
    forall i :: 0 <= i < |products| ==> Sound(f, products[i])
  }

  // ---------- The products of each routine, in the order of the code ----------

  function OfApplyZ(f: Field, q: Point, z: Fe): seq<nat>
    requires f.Valid() && In(f, q.x) && In(f, q.y) && In(f, z)
  {
    var zz := Mul(f, z, z);
    [Product(z, z), Product(q.x, zz), Product(zz, z), Product(q.y, Mul(f, zz, z))]
  }

  function OfAddStep(f: Field, s: Pair): seq<nat>
    requires f.Valid() && AllIn(f, s)
  {
    var dx, dy := Sub(f, s.x2, s.x1), Sub(f, s.y2, s.y1);
    var a := Mul(f, dx, dx);
    var b, c := Mul(f, s.x1, a), Mul(f, s.x2, a);
    var x3 := Sub(f, Sub(f, Mul(f, dy, dy), b), c);
    [ Product(dx, dx), Product(s.x1, a), Product(s.x2, a), Product(dy, dy),
      Product(s.y1, Sub(f, c, b)), Product(dy, Sub(f, b, x3)) ]
  }

  function OfAddCStep(f: Field, s: Pair): seq<nat>
    requires f.Valid() && AllIn(f, s) && In(f, s.sub)
  {
    var a := Mul(f, s.sub, s.sub);
    var b, c := Mul(f, s.x1, a), Mul(f, s.x2, a);
    var sy, dy := Add(f, s.y2, s.y1), Sub(f, s.y2, s.y1);
    var x3 := Sub(f, Mul(f, dy, dy), Add(f, b, c));
    var x3' := Sub(f, Mul(f, sy, sy), Add(f, b, c));
    [ Product(s.sub, s.sub), Product(s.x1, a), Product(s.x2, a), Product(s.y1, Sub(f, c, b)),
      Product(dy, dy), Product(dy, Sub(f, b, x3)), Product(sy, sy), Product(Sub(f, x3', b), sy) ]
  }

  function OfDouble(f: Field, q: Jacobian): seq<nat>
    requires f.Valid() && In(f, q.x) && In(f, q.y) && In(f, q.z)
  {
    if q.z.v == 0 then [] else
    var yy, zz := Mul(f, q.y, q.y), Mul(f, q.z, q.z);
    var a, plus := Mul(f, q.x, yy), Add(f, q.x, zz);
    var minus := Sub(f, plus, Add(f, zz, zz));
    var w := Mul(f, plus, minus);
    var b := Half(f, Add(f, w, Add(f, w, w)));
    var x3 := Sub(f, Sub(f, Mul(f, b, b), a), a);
    [ Product(q.y, q.y), Product(q.x, yy), Product(yy, yy), Product(q.y, q.z), Product(q.z, q.z),
      Product(plus, minus), Product(b, b), Product(b, Sub(f, a, x3)) ]
  }

  function OfStart(f: Field, q: Point, z0: Fe): seq<nat>
    requires f.Valid() && In(f, q.x) && In(f, q.y) && In(f, z0)
  {
    var scaled := ApplyZ(f, q, z0);
    var d := Jacobian(scaled.x, scaled.y, z0);
    OfApplyZ(f, q, z0) + OfDouble(f, d) + OfApplyZ(f, q, Double(f, d).z)
  }

  function OfStep(f: Field, s: Rungs, bit: bool): seq<nat>
    requires f.Valid() && RungsIn(f, s)
  {
    OfAddCStep(f, Arrange(s, bit)) + OfAddStep(f, Swapped(AddCStep(f, Arrange(s, bit))))
  }

  function OfClimb(f: Field, s: Rungs, scalar: nat, from: nat, to: nat): seq<nat>
    requires f.Valid() && RungsIn(f, s)
    decreases from
  {
    if from <= to then [] else
    var bit := Vli.Bit(scalar, from);
    OfStep(f, s, bit) + OfClimb(f, LadderStep(f, s, bit), scalar, from - 1, to)
  }

  function OfFinalZ(f: Field, q: Point, t: Pair, bit: bool): seq<nat>
    requires f.Valid() && In(f, q.x) && In(f, q.y) && AllIn(f, t)
  {
    var diff := if bit then Sub(f, t.x1, t.x2) else Sub(f, t.x2, t.x1);
    var yb := Mul(f, diff, t.y1);
    var i := Inv(f, Mul(f, yb, q.x));
    [Product(diff, t.y1), Product(yb, q.x), Product(i, q.y), Product(Mul(f, i, q.y), t.x1)]
  }

  function OfFinalStep(f: Field, q: Point, s: Rungs, bit: bool): seq<nat>
    requires f.Valid() && In(f, q.x) && In(f, q.y) && RungsIn(f, s)
  {
    var t := AddCStep(f, Arrange(s, bit));
    OfStep(f, s, bit) + OfFinalZ(f, q, t, bit)
    + OfApplyZ(f, Rearrange(AddStep(f, Swapped(t)), bit).r0, FinalZ(f, q, t, bit))
  }

  /** All products of a multiplication. */
  function OfMultiply(f: Field, q: Point, scalar: nat, z0: Fe, numBits: nat): seq<nat>
    requires f.Valid() && In(f, q.x) && In(f, q.y) && In(f, z0) && numBits >= 2
  {
    var start := StartRungs(f, q, z0);
    OfStart(f, q, z0) + OfClimb(f, start, scalar, numBits - 2, 0)
    + OfFinalStep(f, q, Climb(f, start, scalar, numBits - 2, 0), Vli.Bit(scalar, 0))
  }

  // ---------- Sound products give sound registers ----------

  lemma AllSoundConcat(f: Field, xs: seq<nat>, ys: seq<nat>)
    ensures AllSound(f, xs + ys) <==> AllSound(f, xs) && AllSound(f, ys)
  {
    hide Sound;
    if AllSound(f, xs + ys) {
      assert forall i :: 0 <= i < |xs| ==> xs[i] == (xs + ys)[i];
      assert forall i :: 0 <= i < |ys| ==> ys[i] == (xs + ys)[|xs| + i];
    }
  }

  predicate AllOk(s: Pair) {
    s.x1.ok && s.y1.ok && s.x2.ok && s.y2.ok && s.sub.ok
  }

  predicate RungsOk(s: Rungs) {
    s.r0.x.ok && s.r0.y.ok && s.r1.x.ok && s.r1.y.ok && s.sub.ok
  }

  lemma ApplyZOk(f: Field, q: Point, z: Fe)
    requires f.Valid() && In(f, q.x) && In(f, q.y) && In(f, z) && q.x.ok && q.y.ok && z.ok
    requires AllSound(f, OfApplyZ(f, q, z))
    ensures ApplyZ(f, q, z).x.ok && ApplyZ(f, q, z).y.ok
  {
    hide Reduce, Sound;
    var ps := OfApplyZ(f, q, z);
    assert Sound(f, ps[0]) && Sound(f, ps[1]) && Sound(f, ps[2]) && Sound(f, ps[3]);
  }

  lemma AddStepOk(f: Field, s: Pair)
    requires f.Valid() && AllIn(f, s) && s.x1.ok && s.y1.ok && s.x2.ok && s.y2.ok
    requires AllSound(f, OfAddStep(f, s))
    ensures AllOk(AddStep(f, s))
  {
    hide Reduce, Sound;
    var ps := OfAddStep(f, s);
    assert Sound(f, ps[0]) && Sound(f, ps[1]) && Sound(f, ps[2]);
    assert Sound(f, ps[3]) && Sound(f, ps[4]) && Sound(f, ps[5]);
  }

  lemma AddCStepOk(f: Field, s: Pair)
    requires f.Valid() && AllIn(f, s) && In(f, s.sub) && AllOk(s)
    requires AllSound(f, OfAddCStep(f, s))
    ensures AllOk(AddCStep(f, s))
  {
    hide Reduce, Sound;
    var ps := OfAddCStep(f, s);
    assert Sound(f, ps[0]) && Sound(f, ps[1]) && Sound(f, ps[2]) && Sound(f, ps[3]);
    assert Sound(f, ps[4]) && Sound(f, ps[5]) && Sound(f, ps[6]) && Sound(f, ps[7]);
  }

  lemma DoubleOk(f: Field, q: Jacobian)
    requires f.Valid() && In(f, q.x) && In(f, q.y) && In(f, q.z) && q.x.ok && q.y.ok && q.z.ok
    requires AllSound(f, OfDouble(f, q))
    ensures var r := Double(f, q); r.x.ok && r.y.ok && r.z.ok
  {
    hide Reduce, Sound;
    var ps := OfDouble(f, q);
    if q.z.v != 0 {
      assert Sound(f, ps[0]) && Sound(f, ps[1]) && Sound(f, ps[2]) && Sound(f, ps[3]);
      assert Sound(f, ps[4]) && Sound(f, ps[5]) && Sound(f, ps[6]) && Sound(f, ps[7]);
    }
  }

  lemma StartOk(f: Field, q: Point, z0: Fe)
    requires f.Valid() && In(f, q.x) && In(f, q.y) && In(f, z0) && q.x.ok && q.y.ok && z0.ok
    requires AllSound(f, OfStart(f, q, z0))
    ensures RungsOk(StartRungs(f, q, z0))
  {
    hide ApplyZ, Double, OfApplyZ, OfDouble, AllSound;
    var scaled := ApplyZ(f, q, z0);
    var d := Jacobian(scaled.x, scaled.y, z0);
    AllSoundConcat(f, OfApplyZ(f, q, z0) + OfDouble(f, d), OfApplyZ(f, q, Double(f, d).z));
    AllSoundConcat(f, OfApplyZ(f, q, z0), OfDouble(f, d));
    ApplyZOk(f, q, z0);
    DoubleOk(f, d);
    ApplyZOk(f, q, Double(f, d).z);
  }

  lemma StepOk(f: Field, s: Rungs, bit: bool)
    requires f.Valid() && RungsIn(f, s) && RungsOk(s) && AllSound(f, OfStep(f, s, bit))
    ensures RungsOk(LadderStep(f, s, bit)) && AllOk(AddCStep(f, Arrange(s, bit)))
  {
    hide AddStep, AddCStep, OfAddStep, OfAddCStep, AllSound;
    var a := Arrange(s, bit);
    AllSoundConcat(f, OfAddCStep(f, a), OfAddStep(f, Swapped(AddCStep(f, a))));
    AddCStepOk(f, a);
    AddStepOk(f, Swapped(AddCStep(f, a)));
  }

  lemma {:induction false} ClimbOk(f: Field, s: Rungs, scalar: nat, from: nat, to: nat)
    requires f.Valid() && RungsIn(f, s) && RungsOk(s) && AllSound(f, OfClimb(f, s, scalar, from, to))
    ensures RungsOk(Climb(f, s, scalar, from, to))
    decreases from
  {
    hide LadderStep, OfStep, AllSound, RungsOk;
    if from > to {
      var bit := Vli.Bit(scalar, from);
      AllSoundConcat(f, OfStep(f, s, bit), OfClimb(f, LadderStep(f, s, bit), scalar, from - 1, to));
      StepOk(f, s, bit);
      ClimbOk(f, LadderStep(f, s, bit), scalar, from - 1, to);
    }
  }

  lemma FinalZOk(f: Field, q: Point, t: Pair, bit: bool)
    requires f.Valid() && In(f, q.x) && In(f, q.y) && AllIn(f, t) && q.x.ok && q.y.ok && AllOk(t)
    requires AllSound(f, OfFinalZ(f, q, t, bit))
    ensures FinalZ(f, q, t, bit).ok
  {
    hide Reduce, Sound;
    var ps := OfFinalZ(f, q, t, bit);
    assert Sound(f, ps[0]) && Sound(f, ps[1]) && Sound(f, ps[2]) && Sound(f, ps[3]);
  }

  lemma FinalStepOk(f: Field, q: Point, s: Rungs, bit: bool)
    requires f.Valid() && In(f, q.x) && In(f, q.y) && RungsIn(f, s) && q.x.ok && q.y.ok && RungsOk(s)
    requires AllSound(f, OfFinalStep(f, q, s, bit))
    ensures FinalStep(f, q, s, bit).x.ok && FinalStep(f, q, s, bit).y.ok
  {
    hide AddStep, AddCStep, ApplyZ, FinalZ, OfStep, OfFinalZ, OfApplyZ, AllSound;
    var t := AddCStep(f, Arrange(s, bit));
    var r, z := Rearrange(AddStep(f, Swapped(t)), bit).r0, FinalZ(f, q, t, bit);
    AllSoundConcat(f, OfStep(f, s, bit) + OfFinalZ(f, q, t, bit), OfApplyZ(f, r, z));
    AllSoundConcat(f, OfStep(f, s, bit), OfFinalZ(f, q, t, bit));
    StepOk(f, s, bit);
    FinalZOk(f, q, t, bit);
    ApplyZOk(f, r, z);
  }

  /** A multiplication of sound inputs whose result is unsound formed a product in the gap. */
  lemma SoundUnlessGap(f: Field, q: Point, scalar: nat, z0: Fe, numBits: nat)
    requires f.Valid() && In(f, q.x) && In(f, q.y) && In(f, z0) && numBits >= 2
    requires q.x.ok && q.y.ok && z0.ok
    ensures var m := Multiply(f, q, scalar, z0, numBits);
            !(m.x.ok && m.y.ok) ==>
              exists x :: x in OfMultiply(f, q, scalar, z0, numBits) && Misses(f, x)
  {
    hide StartRungs, Climb, FinalStep, OfStart, OfClimb, OfFinalStep, AllSound, Misses;
    var start := StartRungs(f, q, z0);
    var s, bit := Climb(f, start, scalar, numBits - 2, 0), Vli.Bit(scalar, 0);
    var first, loop, last := OfStart(f, q, z0), OfClimb(f, start, scalar, numBits - 2, 0), OfFinalStep(f, q, s, bit);
    AllSoundConcat(f, first + loop, last);
    AllSoundConcat(f, first, loop);
    if AllSound(f, first + loop + last) {
      StartOk(f, q, z0);
      ClimbOk(f, start, scalar, numBits - 2, 0);
      FinalStepOk(f, q, s, bit);
    } else {
      SomeGap(f, first + loop + last);
    }
  }

  lemma SomeGap(f: Field, products: seq<nat>)
    requires f.Valid() && !AllSound(f, products)
    ensures exists x :: x in products && Misses(f, x)
  {
    hide Misses, Sound;
    var i :| 0 <= i < |products| && !Sound(f, products[i]);
    MissesUnsound(f, products[i]);
    assert products[i] in products;
  }

  /** With any other reduction every result of the multiplication is sound. */
  lemma GeneralReductionSound(f: Field, q: Point, scalar: nat, z0: Fe, numBits: nat)
    requires f.Valid() && !f.Lossy() && In(f, q.x) && In(f, q.y) && In(f, z0) && numBits >= 2
    requires q.x.ok && q.y.ok && z0.ok
    ensures var m := Multiply(f, q, scalar, z0, numBits); m.x.ok && m.y.ok
  {
    hide Multiply, OfMultiply;
    SoundUnlessGap(f, q, scalar, z0, numBits);
  }
}
