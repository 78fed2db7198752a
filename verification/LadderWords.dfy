/** EccPoint_mult on word arrays. */
module LadderWords {
  import opened Words
  import opened Field
  import opened CoZ
  import opened Ladder

  ghost predicate Distinct(c: Curve, Rx: seq<array<word>>, Ry: seq<array<word>>, sub: array<word>) {
    && |Rx| == 2 && |Ry| == 2
    && Separate(c, Rx[0], Ry[0], Rx[1], Ry[1], sub)
  }

  ghost predicate HoldsRungs(c: Curve, Rx: seq<array<word>>, Ry: seq<array<word>>, sub: array<word>, s: Rungs)
    requires |Rx| == 2 && |Ry| == 2
    reads Rx[0], Ry[0], Rx[1], Ry[1], sub
  {
    && Holds(c, Rx[0], s.r0.x) && Holds(c, Ry[0], s.r0.y)
    && Holds(c, Rx[1], s.r1.x) && Holds(c, Ry[1], s.r1.y)
    && Holds(c, sub, s.sub)
  }

  /** XYcZ_addC of the ladder: R[1 - nb] gets the difference, R[nb] the sum. */
  method AddCRungs(Rx: seq<array<word>>, Ry: seq<array<word>>, sub: array<word>, nb: nat, c: Curve, ghost s: Rungs)
    requires nb <= 1 && ValidCurve(c) && Distinct(c, Rx, Ry, sub)
    requires HoldsRungs(c, Rx, Ry, sub, s) && RungsIn(FieldOf(c), s)
    modifies Rx[0], Ry[0], Rx[1], Ry[1]
    ensures var t := AddCStep(old(FieldOf(c)), Arrange(s, nb == 0));
            && Holds(c, Rx[1 - nb], t.x1) && Holds(c, Ry[1 - nb], t.y1)
            && Holds(c, Rx[nb], t.x2) && Holds(c, Ry[nb], t.y2)
            && Holds(c, sub, t.sub)
  {
    hide AddCStep, Holds, In;
    ghost var f := FieldOf(c);
    XYcZAddC(Rx[1 - nb], Ry[1 - nb], Rx[nb], Ry[nb], sub, c, Arrange(s, nb == 0));
    AddCKeepsSub(f, Arrange(s, nb == 0));
  }

  lemma AddCKeepsSub(f: Field, s: Pair)
    requires f.Valid() && AllIn(f, s) && In(f, s.sub)
    ensures AddCStep(f, s).sub == s.sub
  {}

  /** XYcZ_add of the ladder, on R[nb] and then R[1 - nb]. */
  method AddRungs(Rx: seq<array<word>>, Ry: seq<array<word>>, sub: array<word>, nb: nat, c: Curve, ghost t: Pair)
    requires nb <= 1 && ValidCurve(c) && Distinct(c, Rx, Ry, sub) && AllIn(FieldOf(c), t)
    requires Holds(c, Rx[1 - nb], t.x1) && Holds(c, Ry[1 - nb], t.y1)
    requires Holds(c, Rx[nb], t.x2) && Holds(c, Ry[nb], t.y2)
    modifies Rx[0], Ry[0], Rx[1], Ry[1], sub
    ensures HoldsRungs(c, Rx, Ry, sub, Rearrange(AddStep(old(FieldOf(c)), Swapped(t)), nb == 0))
  {
    hide AddStep, Holds, In;
    XYcZAdd(Rx[nb], Ry[nb], Rx[1 - nb], Ry[1 - nb], sub, c, Swapped(t));
  }

  /** The body of the loop over the bits. */
  method LadderStepWords(Rx: seq<array<word>>, Ry: seq<array<word>>, sub: array<word>, nb: nat, c: Curve,
                         ghost s: Rungs)
    requires nb <= 1 && ValidCurve(c) && Distinct(c, Rx, Ry, sub)
    requires HoldsRungs(c, Rx, Ry, sub, s) && RungsIn(FieldOf(c), s)
    modifies Rx[0], Ry[0], Rx[1], Ry[1], sub
    ensures HoldsRungs(c, Rx, Ry, sub, LadderStep(old(FieldOf(c)), s, nb == 0))
  {
    hide AddStep, AddCStep, Holds, In;
    ghost var t := AddCStep(FieldOf(c), Arrange(s, nb == 0));
    AddCRungs(Rx, Ry, sub, nb, c, s);
    AddRungs(Rx, Ry, sub, nb, c, t);
  }

  /** "Find final 1/Z value": z from the registers, xP and yP from the point. */
  method FinalZWords(z: array<word>, Rx: seq<array<word>>, Ry: seq<array<word>>, point: array<word>, nb: nat, c: Curve,
                     ghost q: Point, ghost t: Pair)
    requires nb <= 1 && ValidCurve(c) && Distinct(c, Rx, Ry, z) && AllIn(FieldOf(c), t)
    requires Holds(c, Rx[1 - nb], t.x1) && Holds(c, Ry[1 - nb], t.y1) && Holds(c, Rx[nb], t.x2)
    requires point.Length == 2 * c.numWords && point != z
    requires Val(point[0..0 + c.numWords]) == q.x.v && Val(point[c.numWords..c.numWords + c.numWords]) == q.y.v
    requires In(FieldOf(c), q.x) && In(FieldOf(c), q.y)
    modifies z
    ensures Holds(c, z, FinalZ(old(FieldOf(c)), q, t, nb == 0))
  {
    hide Mul, Sub, Inv, Holds, Val;
    ghost var f := FieldOf(c);
    ghost var x1, x0 := if nb == 0 then t.x1 else t.x2, if nb == 0 then t.x2 else t.x1;
    ghost var diff := Sub(f, x1, x0);
    FSub(z, Rx[1], Rx[0], c, x1, x0);
    FMul(z, z, Ry[1 - nb], c, diff, t.y1);
    ghost var yb := Mul(f, diff, t.y1);
    ModMultFast(z, z, point, 0, c, yb, q.x);
    ghost var v := Mul(f, yb, q.x);
    FInv(z, z, c, v);
    ModMultFast(z, z, point, c.numWords, c, Inv(f, v), q.y);
    FMul(z, z, Rx[1 - nb], c, Mul(f, Inv(f, v), q.y), t.x1);
  }

  /** The registers after XYcZ_initial_double and the first difference. */
  method StartWords(Rx: seq<array<word>>, Ry: seq<array<word>>, sub: array<word>, point: array<word>,
                    initialZ: array?<word>, c: Curve, ghost q: Point, ghost z0: Fe)
    requires ValidCurve(c) && Distinct(c, Rx, Ry, sub)
    requires point.Length == 2 * c.numWords && point != Rx[0] && point != Ry[0] && point != Rx[1] && point != Ry[1]
    requires Val(point[0..0 + c.numWords]) == q.x.v && Val(point[c.numWords..c.numWords + c.numWords]) == q.y.v
    requires In(FieldOf(c), q.x) && In(FieldOf(c), q.y)
    requires if initialZ == null then z0.v == 1 else Holds(c, initialZ, z0) && In(FieldOf(c), z0)
    requires initialZ != Rx[0] && initialZ != Ry[0] && initialZ != Rx[1] && initialZ != Ry[1]
    modifies Rx[0], Ry[0], Rx[1], Ry[1], sub
    ensures In(old(FieldOf(c)), z0)
    ensures HoldsRungs(c, Rx, Ry, sub, StartRungs(old(FieldOf(c)), q, z0))
  {
    var n := c.numWords;
    ghost var f := FieldOf(c);
    CopyHalf(Rx[1], point, 0, c, q.x);
    CopyHalf(Ry[1], point, n, c, q.y);
    StartFromPoint(Rx, Ry, sub, initialZ, c, q, z0);
  }

  method CopyHalf(dest: array<word>, point: array<word>, at: nat, c: Curve, ghost a: Fe)
    requires dest.Length == c.numWords && at + c.numWords <= point.Length && dest != point
    requires Val(point[at..at + c.numWords]) == a.v
    modifies dest
    ensures Holds(c, dest, a)
  {
    Vli.Set(dest, 0, point, at, c.numWords);
    assert dest[0..0 + c.numWords] == dest[..];
  }

  method StartFromPoint(Rx: seq<array<word>>, Ry: seq<array<word>>, sub: array<word>, initialZ: array?<word>,
                        c: Curve, ghost q: Point, ghost z0: Fe)
    requires ValidCurve(c) && Distinct(c, Rx, Ry, sub)
    requires Holds(c, Rx[1], q.x) && Holds(c, Ry[1], q.y) && In(FieldOf(c), q.x) && In(FieldOf(c), q.y)
    requires if initialZ == null then z0.v == 1 else Holds(c, initialZ, z0) && In(FieldOf(c), z0)
    requires initialZ != Rx[0] && initialZ != Ry[0] && initialZ != Rx[1] && initialZ != Ry[1]
    modifies Rx[0], Ry[0], Rx[1], Ry[1], sub
    ensures In(old(FieldOf(c)), z0)
    ensures HoldsRungs(c, Rx, Ry, sub, StartRungs(old(FieldOf(c)), q, z0))
  {
    hide InitialDouble, Sub, Holds;
    ghost var f := FieldOf(c);
    XYcZInitialDouble(Rx[1], Ry[1], Rx[0], Ry[0], initialZ, c, q, z0);
    ghost var s := InitialDouble(f, q, z0).0;
    FSub(sub, Rx[0], Rx[1], c, s.x2, s.x1);
  }

  /** The part of EccPoint_mult after its loop. */
  method FinishWords(result: array<word>, Rx: seq<array<word>>, Ry: seq<array<word>>, z: array<word>, sub: array<word>,
                     point: array<word>, nb: nat, c: Curve, ghost q: Point, ghost s: Rungs)
    requires nb <= 1 && ValidCurve(c) && Distinct(c, Rx, Ry, sub) && Distinct(c, Rx, Ry, z) && z != sub
    requires result.Length == point.Length == 2 * c.numWords && result != c.p
    requires result != Rx[0] && result != Ry[0] && result != Rx[1] && result != Ry[1]
    requires point != Rx[0] && point != Ry[0] && point != Rx[1] && point != Ry[1] && point != z
    requires Val(point[0..0 + c.numWords]) == q.x.v && Val(point[c.numWords..c.numWords + c.numWords]) == q.y.v
    requires In(FieldOf(c), q.x) && In(FieldOf(c), q.y)
    requires HoldsRungs(c, Rx, Ry, sub, s) && RungsIn(FieldOf(c), s)
    modifies result, Rx[0], Ry[0], Rx[1], Ry[1], sub, z
    ensures var r := FinalStep(old(FieldOf(c)), q, s, nb == 0);
            Val(result[..c.numWords]) == r.x.v && Val(result[c.numWords..]) == r.y.v
  {
    hide FinalZ, AddCStep, AddStep, ApplyZ, Val;
    var n := c.numWords;
    ghost var f := FieldOf(c);
    ghost var t := AddCStep(f, Arrange(s, nb == 0));
    AddCRungs(Rx, Ry, sub, nb, c, s);
    FinalZWords(z, Rx, Ry, point, nb, c, q, t);
    ghost var zi := FinalZ(f, q, t, nb == 0);
    AddRungs(Rx, Ry, sub, nb, c, t);
    ghost var r0 := Rearrange(AddStep(f, Swapped(t)), nb == 0).r0;
    ApplyZWords(Rx[0], Ry[0], z, c, r0, zi);
    Vli.Set(result, 0, Rx[0], 0, n);
    assert result[0..0 + n] == result[..n];
    ghost var low := result[..n];
    Vli.Set(result, n, Ry[0], 0, n);
    assert result[..n] == low;
    assert result[n..n + n] == result[n..];
    assert Rx[0][0..0 + n] == Rx[0][..] && Ry[0][0..0 + n] == Ry[0][..];
  }

  /** for (i = from; i > 0; --i) */
  method ClimbWords(Rx: seq<array<word>>, Ry: seq<array<word>>, sub: array<word>, scalar: array<word>, from: nat,
                    c: Curve, ghost start: Rungs) returns (ghost s: Rungs)
    requires ValidCurve(c) && Distinct(c, Rx, Ry, sub) && from / 32 < scalar.Length
    requires scalar !in Rx && scalar !in Ry && scalar != sub
    requires HoldsRungs(c, Rx, Ry, sub, start) && RungsIn(FieldOf(c), start)
    modifies Rx[0], Ry[0], Rx[1], Ry[1], sub
    ensures RungsIn(old(FieldOf(c)), s) && HoldsRungs(c, Rx, Ry, sub, s)
    ensures s == Climb(old(FieldOf(c)), start, Val(scalar[..]), from, 0)
  {
    hide LadderStep, Val, Holds;
    ghost var f, words := FieldOf(c), scalar[..];
    s := start;
    var i := from;
    while i > 0
      invariant 0 <= i <= from
      invariant scalar[..] == words
      invariant RungsIn(f, s) && HoldsRungs(c, Rx, Ry, sub, s)
      invariant Climb(f, s, Val(words), i, 0) == Climb(f, start, Val(words), from, 0)
    {
      var w := Vli.TestBit(scalar, i);
      var nb := if w == 0 then 1 else 0;
      LadderStepWords(Rx, Ry, sub, nb, c, s);
      s := LadderStep(f, s, nb == 0);
      i := i - 1;
    }
  }

  /** EccPoint_mult; result may be point. */
  method EccPointMult(result: array<word>, point: array<word>, scalar: array<word>, initialZ: array?<word>,
                      numBits: nat, c: Curve, ghost q: Point, ghost z0: Fe)
    requires ValidCurve(c) && numBits >= 2 && (numBits - 2) / 32 < scalar.Length
    requires result.Length == point.Length == 2 * c.numWords && result != c.p
    requires Val(point[0..0 + c.numWords]) == q.x.v && Val(point[c.numWords..c.numWords + c.numWords]) == q.y.v
    requires In(FieldOf(c), q.x) && In(FieldOf(c), q.y)
    requires if initialZ == null then z0.v == 1 else Holds(c, initialZ, z0) && In(FieldOf(c), z0)
    modifies result
    ensures In(old(FieldOf(c)), z0)
    ensures var r := Multiply(old(FieldOf(c)), q, old(Val(scalar[..])), z0, numBits);
            Val(result[..c.numWords]) == r.x.v && Val(result[c.numWords..]) == r.y.v
  {
    hide StartRungs, FinalStep, Climb, Val, Holds, In, HoldsRungs;
    var n := c.numWords;
    ghost var f, k := FieldOf(c), scalar[..];
    ghost var px, py := point[0..0 + n], point[n..n + n];
    var x0, y0, x1, y1 := new word[n], new word[n], new word[n], new word[n];
    var Rx, Ry := [x0, x1], [y0, y1];
    var z, sub := new word[n], new word[n];
    StartWords(Rx, Ry, sub, point, initialZ, c, q, z0);
    assert point[0..0 + n] == px && point[n..n + n] == py && scalar[..] == k;
    ghost var s := ClimbWords(Rx, Ry, sub, scalar, numBits - 2, c, StartRungs(f, q, z0));
    assert point[0..0 + n] == px && point[n..n + n] == py && scalar[..] == k;
    var w := Vli.TestBit(scalar, 0);
    var nb := if w == 0 then 1 else 0;
    FinishWords(result, Rx, Ry, z, sub, point, nb, c, q, s);
  }
}
