/** The point steps of micro-ecc: two points sharing one Z coordinate, updated in place. */
module CoZ {
  import opened Words
  import opened Field

  /** Two points with a common Z, and the difference register. */
  datatype Pair = Pair(x1: Fe, y1: Fe, x2: Fe, y2: Fe, sub: Fe)

  datatype Point = Point(x: Fe, y: Fe)

  datatype Jacobian = Jacobian(x: Fe, y: Fe, z: Fe)

  predicate AllIn(f: Field, s: Pair) {
    In(f, s.x1) && In(f, s.y1) && In(f, s.x2) && In(f, s.y2)
  }

  // ---------- The steps on field elements ----------

  function ApplyZ(f: Field, q: Point, z: Fe): (r: Point)
    requires f.Valid() && In(f, q.x) && In(f, q.y) && In(f, z)
    ensures In(f, r.x) && In(f, r.y)
  {
    var zz := Mul(f, z, z);
    Point(Mul(f, q.x, zz), Mul(f, q.y, Mul(f, zz, z)))
  }

  function AddStep(f: Field, s: Pair): (r: Pair)
    requires f.Valid() && AllIn(f, s)
    ensures AllIn(f, r) && In(f, r.sub)
  {
    var dx := Sub(f, s.x2, s.x1);
    var a := Mul(f, dx, dx);
    var b, c := Mul(f, s.x1, a), Mul(f, s.x2, a);
    var dy := Sub(f, s.y2, s.y1);
    var x3 := Sub(f, Sub(f, Mul(f, dy, dy), b), c);
    var e := Mul(f, s.y1, Sub(f, c, b));
    var bx := Sub(f, b, x3);
    Pair(b, e, x3, Sub(f, Mul(f, dy, bx), e), bx)
  }

  function AddCStep(f: Field, s: Pair): (r: Pair)
    requires f.Valid() && AllIn(f, s) && In(f, s.sub)
    ensures AllIn(f, r) && In(f, r.sub)
  {
    var a := Mul(f, s.sub, s.sub);
    var b, c := Mul(f, s.x1, a), Mul(f, s.x2, a);
    var sy, dy := Add(f, s.y2, s.y1), Sub(f, s.y2, s.y1);
    var e := Mul(f, s.y1, Sub(f, c, b));
    var bc := Add(f, b, c);
    var x3 := Sub(f, Mul(f, dy, dy), bc);
    var y3 := Sub(f, Mul(f, dy, Sub(f, b, x3)), e);
    var x3' := Sub(f, Mul(f, sy, sy), bc);
    var y3' := Sub(f, Mul(f, Sub(f, x3', b), sy), e);
    Pair(x3', y3', x3, y3, s.sub)
  }

  /** double_jacobian_default: a point with Z = 0 is left alone. */
  function Double(f: Field, q: Jacobian): (r: Jacobian)
    requires f.Valid() && In(f, q.x) && In(f, q.y) && In(f, q.z)
    ensures In(f, r.x) && In(f, r.y) && In(f, r.z)
    ensures q.z.v == 0 ==> r == q
  {
    if q.z.v == 0 then q else
    var yy := Mul(f, q.y, q.y);
    var a := Mul(f, q.x, yy);
    var y4 := Mul(f, yy, yy);
    var z3 := Mul(f, q.y, q.z);
    var zz := Mul(f, q.z, q.z);
    var plus := Add(f, q.x, zz);
    var w := Mul(f, plus, Sub(f, plus, Add(f, zz, zz)));
    var b := Half(f, Add(f, w, Add(f, w, w)));
    var x3 := Sub(f, Sub(f, Mul(f, b, b), a), a);
    Jacobian(x3, Sub(f, Mul(f, b, Sub(f, a, x3)), y4), z3)
  }

  /** XYcZ_initial_double: first point 2P, second point P, both over the doubled point's Z. */
  function InitialDouble(f: Field, q: Point, z: Fe): (r: (Pair, Fe))
    requires f.Valid() && In(f, q.x) && In(f, q.y) && In(f, z)
    ensures AllIn(f, r.0) && In(f, r.1)
  {
    var scaled := ApplyZ(f, q, z);
    var d := Double(f, Jacobian(scaled.x, scaled.y, z));
    var second := ApplyZ(f, q, d.z);
    (Pair(d.x, d.y, second.x, second.y, d.z), d.z)
  }

  // ---------- The same steps on word arrays ----------

  /** A register of the curve's size that is not the modulus. */
  ghost predicate Register(c: Curve, r: array<word>) {
    r.Length == c.numWords && r != c.p
  }

  ghost predicate Separate(c: Curve, X1: array<word>, Y1: array<word>, X2: array<word>, Y2: array<word>,
                           sub: array<word>) {
    && Register(c, X1) && Register(c, Y1) && Register(c, X2) && Register(c, Y2) && Register(c, sub)
    && X1 != Y1 && X1 != X2 && X1 != Y2 && X1 != sub && Y1 != X2 && Y1 != Y2 && Y1 != sub
    && X2 != Y2 && X2 != sub && Y2 != sub
  }

  method ApplyZWords(X1: array<word>, Y1: array<word>, Z: array<word>, c: Curve, ghost q: Point, ghost z: Fe)
    requires ValidCurve(c) && Register(c, X1) && Register(c, Y1) && X1 != Y1 && X1 != Z && Y1 != Z
    requires Holds(c, X1, q.x) && Holds(c, Y1, q.y) && Holds(c, Z, z)
    requires In(FieldOf(c), q.x) && In(FieldOf(c), q.y) && In(FieldOf(c), z)
    modifies X1, Y1
    ensures var r := ApplyZ(old(FieldOf(c)), q, z); Holds(c, X1, r.x) && Holds(c, Y1, r.y)
  {
    hide Mul, Holds;
    ghost var f := FieldOf(c);
    var t1 := new word[c.numWords];
    ghost var zz := Mul(f, z, z);
    ModSquareFast(t1, Z, c, z);
    FMul(X1, X1, t1, c, q.x, zz);
    FMul(t1, t1, Z, c, zz, z);
    FMul(Y1, Y1, t1, c, q.y, Mul(f, zz, z));
  }

  /** XYcZ_add as far as the new abscissa: B, C and y2 - y1 in X1, X2 and Y2, and x3 in t5. */
  method AddHead(X1: array<word>, Y1: array<word>, X2: array<word>, Y2: array<word>, t5: array<word>, c: Curve,
                 ghost s: Pair)
    requires ValidCurve(c) && Separate(c, X1, Y1, X2, Y2, t5) && AllIn(FieldOf(c), s)
    requires Holds(c, X1, s.x1) && Holds(c, Y1, s.y1) && Holds(c, X2, s.x2) && Holds(c, Y2, s.y2)
    modifies X1, X2, Y2, t5
    ensures var f := old(FieldOf(c));
            var a := Mul(f, Sub(f, s.x2, s.x1), Sub(f, s.x2, s.x1));
            && Holds(c, X1, Mul(f, s.x1, a)) && Holds(c, X2, Mul(f, s.x2, a)) && Holds(c, Y2, Sub(f, s.y2, s.y1))
            && Holds(c, t5, AddStep(f, s).x2)
  {
    hide Mul, Sub, Holds;
    ghost var f := FieldOf(c);
    ghost var dx := Sub(f, s.x2, s.x1);
    FSub(t5, X2, X1, c, s.x2, s.x1);
    ghost var a := Mul(f, dx, dx);
    ModSquareFast(t5, t5, c, dx);
    ghost var b, cc := Mul(f, s.x1, a), Mul(f, s.x2, a);
    FMul(X1, X1, t5, c, s.x1, a);
    FMul(X2, X2, t5, c, s.x2, a);
    ghost var dy := Sub(f, s.y2, s.y1);
    FSub(Y2, Y2, Y1, c, s.y2, s.y1);
    ghost var d := Mul(f, dy, dy);
    ModSquareFast(t5, Y2, c, dy);
    FSub(t5, t5, X1, c, d, b);
    FSub(t5, t5, X2, c, Sub(f, d, b), cc);
  }

  /** XYcZ_add, in place. */
  method XYcZAdd(X1: array<word>, Y1: array<word>, X2: array<word>, Y2: array<word>, sub: array<word>, c: Curve,
                 ghost s: Pair)
    requires ValidCurve(c) && Separate(c, X1, Y1, X2, Y2, sub)
    requires AllIn(FieldOf(c), s)
    requires Holds(c, X1, s.x1) && Holds(c, Y1, s.y1) && Holds(c, X2, s.x2) && Holds(c, Y2, s.y2)
    modifies X1, Y1, X2, Y2, sub
    ensures var r := AddStep(old(FieldOf(c)), s);
            && Holds(c, X1, r.x1) && Holds(c, Y1, r.y1) && Holds(c, X2, r.x2) && Holds(c, Y2, r.y2)
            && Holds(c, sub, r.sub)
  {
    hide Mul, Sub, Holds;
    ghost var f := FieldOf(c);
    ghost var r := AddStep(f, s);
    var t5 := new word[c.numWords];
    ghost var dx, dy := Sub(f, s.x2, s.x1), Sub(f, s.y2, s.y1);
    ghost var cc := Mul(f, s.x2, Mul(f, dx, dx));
    AddHead(X1, Y1, X2, Y2, t5, c, s);
    FSub(X2, X2, X1, c, cc, r.x1);
    FMul(Y1, Y1, X2, c, s.y1, Sub(f, cc, r.x1));
    FSub(sub, X1, t5, c, r.x1, r.x2);
    FMul(Y2, Y2, sub, c, dy, r.sub);
    FSub(Y2, Y2, Y1, c, Mul(f, dy, r.sub), r.y1);
    FSet(X2, t5, c, r.x2);
  }

  /** What the first half of XYcZ_addC leaves: B, E, P + Q, and Y2 + Y1 and B + C in t5 and t6. */
  ghost function AddCHalf(f: Field, s: Pair): (r: (Pair, Fe, Fe))
    requires f.Valid() && AllIn(f, s) && In(f, s.sub)
    ensures AllIn(f, r.0) && In(f, r.1) && In(f, r.2)
  {
    var a := Mul(f, s.sub, s.sub);
    var b, c := Mul(f, s.x1, a), Mul(f, s.x2, a);
    var dy := Sub(f, s.y2, s.y1);
    var e := Mul(f, s.y1, Sub(f, c, b));
    var bc := Add(f, b, c);
    var x3 := Sub(f, Mul(f, dy, dy), bc);
    (Pair(b, e, x3, Sub(f, Mul(f, dy, Sub(f, b, x3)), e), s.sub), Add(f, s.y2, s.y1), bc)
  }

  /** XYcZ_addC as far as the sum of the points. */
  method AddCSum(X1: array<word>, Y1: array<word>, X2: array<word>, Y2: array<word>, sub: array<word>,
                 t5: array<word>, t6: array<word>, c: Curve, ghost s: Pair)
    requires ValidCurve(c) && Separate(c, X1, Y1, X2, Y2, sub) && Separate(c, X1, Y1, X2, Y2, t5)
             && Separate(c, X1, Y1, X2, Y2, t6)
    requires t5 != t6 && sub != t5 && sub != t6
    requires AllIn(FieldOf(c), s) && In(FieldOf(c), s.sub)
    requires Holds(c, X1, s.x1) && Holds(c, Y1, s.y1) && Holds(c, X2, s.x2) && Holds(c, Y2, s.y2)
             && Holds(c, sub, s.sub)
    modifies X1, Y1, X2, Y2, t5, t6
    ensures var h := AddCHalf(old(FieldOf(c)), s);
            && Holds(c, X1, h.0.x1) && Holds(c, Y1, h.0.y1) && Holds(c, X2, h.0.x2) && Holds(c, Y2, h.0.y2)
            && Holds(c, t5, h.1) && Holds(c, t6, h.2)
  {
    hide Mul, Sub, Add, Holds;
    ghost var f := FieldOf(c);
    ghost var h := AddCHalf(f, s);
    var t7 := new word[c.numWords];
    ghost var a := Mul(f, s.sub, s.sub);
    ModSquareFast(t5, sub, c, s.sub);
    ghost var b, cc := Mul(f, s.x1, a), Mul(f, s.x2, a);
    FMul(X1, X1, t5, c, s.x1, a);
    FMul(X2, X2, t5, c, s.x2, a);
    ghost var dy := Sub(f, s.y2, s.y1);
    FAdd(t5, Y2, Y1, c, s.y2, s.y1);
    FSub(Y2, Y2, Y1, c, s.y2, s.y1);
    FSub(t6, X2, X1, c, cc, b);
    FMul(Y1, Y1, t6, c, s.y1, Sub(f, cc, b));
    FAdd(t6, X1, X2, c, b, cc);
    ModSquareFast(X2, Y2, c, dy);
    FSub(X2, X2, t6, c, Mul(f, dy, dy), h.2);
    FSub(t7, X1, X2, c, b, h.0.x2);
    FMul(Y2, Y2, t7, c, dy, Sub(f, b, h.0.x2));
    FSub(Y2, Y2, Y1, c, Mul(f, dy, Sub(f, b, h.0.x2)), h.0.y1);
  }

  /** XYcZ_addC, in place; sub is only read. */
  method XYcZAddC(X1: array<word>, Y1: array<word>, X2: array<word>, Y2: array<word>, sub: array<word>, c: Curve,
                  ghost s: Pair)
    requires ValidCurve(c) && Separate(c, X1, Y1, X2, Y2, sub)
    requires AllIn(FieldOf(c), s) && In(FieldOf(c), s.sub)
    requires Holds(c, X1, s.x1) && Holds(c, Y1, s.y1) && Holds(c, X2, s.x2) && Holds(c, Y2, s.y2)
             && Holds(c, sub, s.sub)
    modifies X1, Y1, X2, Y2
    ensures var r := AddCStep(old(FieldOf(c)), s);
            && Holds(c, X1, r.x1) && Holds(c, Y1, r.y1) && Holds(c, X2, r.x2) && Holds(c, Y2, r.y2)
  {
    hide Mul, Sub, Add, Holds;
    ghost var f := FieldOf(c);
    ghost var h, r := AddCHalf(f, s), AddCStep(f, s);
    var t5, t6, t7 := new word[c.numWords], new word[c.numWords], new word[c.numWords];
    AddCSum(X1, Y1, X2, Y2, sub, t5, t6, c, s);
    ModSquareFast(t7, t5, c, h.1);
    FSub(t7, t7, t6, c, Mul(f, h.1, h.1), h.2);
    FSub(t6, t7, X1, c, r.x1, h.0.x1);
    FMul(t6, t6, t5, c, Sub(f, r.x1, h.0.x1), h.1);
    FSub(Y1, t6, Y1, c, Mul(f, Sub(f, r.x1, h.0.x1), h.1), h.0.y1);
    FSet(X1, t7, c, r.x1);
  }

  /** double_jacobian_default, X1, Y1 and Z1 serving as registers. */
  method DoubleJacobian(X1: array<word>, Y1: array<word>, Z1: array<word>, c: Curve, ghost q: Jacobian)
    requires ValidCurve(c) && Register(c, X1) && Register(c, Y1) && Register(c, Z1) && X1 != Y1 && X1 != Z1 && Y1 != Z1
    requires Holds(c, X1, q.x) && Holds(c, Y1, q.y) && Holds(c, Z1, q.z)
    requires In(FieldOf(c), q.x) && In(FieldOf(c), q.y) && In(FieldOf(c), q.z)
    modifies X1, Y1, Z1
    ensures var r := Double(old(FieldOf(c)), q); Holds(c, X1, r.x) && Holds(c, Y1, r.y) && Holds(c, Z1, r.z)
  {
    var zero := FIsZero(Z1, c, q.z);
    if !zero {
      DoubleNonzero(X1, Y1, Z1, c, q);
    }
  }

  /** The rest of double_jacobian_default, once Z1 is not zero. */
  method DoubleNonzero(X1: array<word>, Y1: array<word>, Z1: array<word>, c: Curve, ghost q: Jacobian)
    requires ValidCurve(c) && Register(c, X1) && Register(c, Y1) && Register(c, Z1) && X1 != Y1 && X1 != Z1 && Y1 != Z1
    requires Holds(c, X1, q.x) && Holds(c, Y1, q.y) && Holds(c, Z1, q.z)
    requires In(FieldOf(c), q.x) && In(FieldOf(c), q.y) && In(FieldOf(c), q.z) && q.z.v != 0
    modifies X1, Y1, Z1
    ensures var r := Double(old(FieldOf(c)), q); Holds(c, X1, r.x) && Holds(c, Y1, r.y) && Holds(c, Z1, r.z)
  {
    hide Mul, Sub, Add, Half, Holds;
    ghost var f := FieldOf(c);
    ghost var r := Double(f, q);
    var t4, t5 := new word[c.numWords], new word[c.numWords];
    ghost var yy, zz := Mul(f, q.y, q.y), Mul(f, q.z, q.z);
    ModSquareFast(t4, Y1, c, q.y);
    ghost var a, y4 := Mul(f, q.x, yy), Mul(f, yy, yy);
    FMul(t5, X1, t4, c, q.x, yy);
    ModSquareFast(t4, t4, c, yy);
    FMul(Y1, Y1, Z1, c, q.y, q.z);
    ModSquareFast(Z1, Z1, c, q.z);
    SquareDifference(X1, Z1, c, q.x, zz);
    ghost var plus := Add(f, q.x, zz);
    DoubleTail(X1, Y1, Z1, t4, t5, c, Mul(f, plus, Sub(f, plus, Add(f, zz, zz))), a, y4, r.z);
  }

  /** From x1 and z1^2 to x1^2 - z1^4. */
  method SquareDifference(X1: array<word>, Z1: array<word>, c: Curve, ghost x: Fe, ghost zz: Fe)
    requires ValidCurve(c) && Register(c, X1) && Register(c, Z1) && X1 != Z1
    requires Holds(c, X1, x) && Holds(c, Z1, zz) && In(FieldOf(c), x) && In(FieldOf(c), zz)
    modifies X1, Z1
    ensures var f := old(FieldOf(c));
            var plus := Add(f, x, zz);
            Holds(c, X1, Mul(f, plus, Sub(f, plus, Add(f, zz, zz))))
  {
    hide Mul, Sub, Add, Holds;
    ghost var f := FieldOf(c);
    ghost var plus, twice := Add(f, x, zz), Add(f, zz, zz);
    FAdd(X1, X1, Z1, c, x, zz);
    FAdd(Z1, Z1, Z1, c, zz, zz);
    FSub(Z1, X1, Z1, c, plus, twice);
    FMul(X1, X1, Z1, c, plus, Sub(f, plus, twice));
  }

  /** double_jacobian_default from t1 = x1^2 - z1^4 on, with A in t5 and y1^4 in t4. */
  method DoubleTail(X1: array<word>, Y1: array<word>, Z1: array<word>, t4: array<word>, t5: array<word>, c: Curve,
                    ghost w: Fe, ghost a: Fe, ghost y4: Fe, ghost z3: Fe)
    requires ValidCurve(c) && Separate(c, X1, Y1, Z1, t4, t5)
    requires Holds(c, X1, w) && Holds(c, Y1, z3) && Holds(c, t4, y4) && Holds(c, t5, a)
    requires In(FieldOf(c), w) && In(FieldOf(c), z3) && In(FieldOf(c), y4) && In(FieldOf(c), a)
    modifies X1, Y1, Z1, t4, t5
    ensures var f := old(FieldOf(c));
            var b := Half(f, Add(f, w, Add(f, w, w)));
            var x3 := Sub(f, Sub(f, Mul(f, b, b), a), a);
            Holds(c, X1, x3) && Holds(c, Y1, Sub(f, Mul(f, b, Sub(f, a, x3)), y4)) && Holds(c, Z1, z3)
  {
    hide Mul, Sub, Add, Half, Holds;
    ghost var f := FieldOf(c);
    ghost var b := Half(f, Add(f, w, Add(f, w, w)));
    ghost var x3 := Sub(f, Sub(f, Mul(f, b, b), a), a);
    FAdd(Z1, X1, X1, c, w, w);
    FAdd(X1, X1, Z1, c, w, Add(f, w, w));
    FHalf(X1, c, Add(f, w, Add(f, w, w)));
    ModSquareFast(Z1, X1, c, b);
    FSub(Z1, Z1, t5, c, Mul(f, b, b), a);
    FSub(Z1, Z1, t5, c, Sub(f, Mul(f, b, b), a), a);
    FSub(t5, t5, Z1, c, a, x3);
    FMul(X1, X1, t5, c, b, Sub(f, a, x3));
    ghost var y3 := Sub(f, Mul(f, b, Sub(f, a, x3)), y4);
    FSub(t4, X1, t4, c, Mul(f, b, Sub(f, a, x3)), y4);
    FSet(X1, Z1, c, x3);
    FSet(Z1, Y1, c, z3);
    FSet(Y1, t4, c, y3);
  }

  /** XYcZ_initial_double: X1, Y1 become 2P and X2, Y2 become P, over one Z. */
  method XYcZInitialDouble(X1: array<word>, Y1: array<word>, X2: array<word>, Y2: array<word>, initialZ: array?<word>,
                           c: Curve, ghost q: Point, ghost z0: Fe)
    requires ValidCurve(c)
    requires Register(c, X1) && Register(c, Y1) && Register(c, X2) && Register(c, Y2)
    requires X1 != Y1 && X1 != X2 && X1 != Y2 && Y1 != X2 && Y1 != Y2 && X2 != Y2
    requires Holds(c, X1, q.x) && Holds(c, Y1, q.y) && In(FieldOf(c), q.x) && In(FieldOf(c), q.y)
    requires if initialZ == null then z0.v == 1 else Holds(c, initialZ, z0) && In(FieldOf(c), z0)
    requires initialZ != X1 && initialZ != Y1 && initialZ != X2 && initialZ != Y2
    modifies X1, Y1, X2, Y2
    ensures In(old(FieldOf(c)), z0)
    ensures var r := InitialDouble(old(FieldOf(c)), q, z0).0;
            Holds(c, X1, r.x1) && Holds(c, Y1, r.y1) && Holds(c, X2, r.x2) && Holds(c, Y2, r.y2)
  {
    var z := new word[c.numWords];
    if initialZ != null {
      FSet(z, initialZ, c, z0);
    } else {
      SetOne(z);
    }
    ghost var f := FieldOf(c);
    ghost var scaled := ApplyZ(f, q, z0);
    ghost var d := Double(f, Jacobian(scaled.x, scaled.y, z0));
    FSet(X2, X1, c, q.x);
    FSet(Y2, Y1, c, q.y);
    InitialPoints(X1, Y1, X2, Y2, z, c, q, z0);
  }

  method InitialPoints(X1: array<word>, Y1: array<word>, X2: array<word>, Y2: array<word>, z: array<word>,
                       c: Curve, ghost q: Point, ghost z0: Fe)
    requires ValidCurve(c) && Separate(c, X1, Y1, X2, Y2, z)
    requires Holds(c, X1, q.x) && Holds(c, Y1, q.y) && Holds(c, X2, q.x) && Holds(c, Y2, q.y) && Holds(c, z, z0)
    requires In(FieldOf(c), q.x) && In(FieldOf(c), q.y) && In(FieldOf(c), z0)
    modifies X1, Y1, X2, Y2, z
    ensures var r := InitialDouble(old(FieldOf(c)), q, z0).0;
            Holds(c, X1, r.x1) && Holds(c, Y1, r.y1) && Holds(c, X2, r.x2) && Holds(c, Y2, r.y2)
  {
    hide ApplyZ, Double, Holds;
    ghost var f := FieldOf(c);
    ghost var scaled := ApplyZ(f, q, z0);
    ApplyZWords(X1, Y1, z, c, q, z0);
    DoubleJacobian(X1, Y1, z, c, Jacobian(scaled.x, scaled.y, z0));
    ghost var d := Double(f, Jacobian(scaled.x, scaled.y, z0));
    ApplyZWords(X2, Y2, z, c, q, d.z);
  }
}
