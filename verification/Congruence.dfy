/** Congruence of integers modulo m, stated with an explicit quotient. */
module Congruence {

  /** a and b differ by k times m. */
  ghost predicate Differ(a: int, b: int, m: int, k: int) {
    a - b == k * m
  }

  ghost predicate Cong(a: int, b: int, m: int) {
    exists k :: Differ(a, b, m, k)
  }

  ghost predicate IsInverse(a: int, i: int, m: int) {
    Cong(a * i, 1, m)
  }

  ghost predicate Invertible(a: int, m: int) {
    exists i :: IsInverse(a, i, m)
  }

  lemma CongFrom(a: int, b: int, m: int, k: int)
    requires a - b == k * m
    ensures Cong(a, b, m)
  {
    assert Differ(a, b, m, k);
  }

  lemma CongRefl(a: int, m: int)
    ensures Cong(a, a, m)
  {
    CongFrom(a, a, m, 0);
  }

  lemma CongSym(a: int, b: int, m: int)
    requires Cong(a, b, m)
    ensures Cong(b, a, m)
  {
    var k :| Differ(a, b, m, k);
    CongFrom(b, a, m, -k);
  }

  lemma CongTrans(a: int, b: int, c: int, m: int)
    requires Cong(a, b, m) && Cong(b, c, m)
    ensures Cong(a, c, m)
  {
    var j :| Differ(a, b, m, j);
    var k :| Differ(b, c, m, k);
    CongFrom(a, c, m, j + k);
  }

  lemma CongAdd(a: int, b: int, c: int, d: int, m: int)
    requires Cong(a, b, m) && Cong(c, d, m)
    ensures Cong(a + c, b + d, m)
  {
    var j :| Differ(a, b, m, j);
    var k :| Differ(c, d, m, k);
    CongFrom(a + c, b + d, m, j + k);
  }

  lemma CongSub(a: int, b: int, c: int, d: int, m: int)
    requires Cong(a, b, m) && Cong(c, d, m)
    ensures Cong(a - c, b - d, m)
  {
    var j :| Differ(a, b, m, j);
    var k :| Differ(c, d, m, k);
    CongFrom(a - c, b - d, m, j - k);
  }

  lemma CongMul(a: int, b: int, c: int, d: int, m: int)
    requires Cong(a, b, m) && Cong(c, d, m)
    ensures Cong(a * c, b * d, m)
  {
    var j :| Differ(a, b, m, j);
    var k :| Differ(c, d, m, k);
    calc {
      a * c - b * d;
      (a - b) * c + b * (c - d);
      (j * m) * c + b * (k * m);
      (j * c + b * k) * m;
    }
    CongFrom(a * c, b * d, m, j * c + b * k);
  }

  lemma CongShift(a: int, m: int, k: int)
    ensures Cong(a + k * m, a, m)
  {
    CongFrom(a + k * m, a, m, k);
  }

  lemma CongMod(a: int, m: int)
    requires m > 0
    ensures Cong(a % m, a, m)
  {
    CongFrom(a % m, a, m, -(a / m));
  }

  /** Two residues in [0, m) that are congruent are equal. */
  lemma CongSmall(a: int, b: int, m: int)
    requires 0 <= a < m && 0 <= b < m && Cong(a, b, m)
    ensures a == b
  {
    var k :| Differ(a, b, m, k);
    assert k >= 1 ==> k * m >= m;
    assert k <= -1 ==> k * m <= -m;
  }

  /** A residue congruent to a is a % m. */
  lemma CongIsMod(r: int, a: int, m: int)
    requires 0 <= r < m && Cong(r, a, m)
    ensures r == a % m
  {
    CongMod(a, m);
    CongSym(a % m, a, m);
    CongTrans(r, a, a % m, m);
    CongSmall(r, a % m, m);
  }

  /** What is congruent to zero is no unit. */
  lemma UnitIsNotZero(v: int, e: int, m: int)
    requires m > 1 && Cong(v, e, m) && Cong(v, 0, m)
    ensures !Invertible(e, m)
  {
    if Invertible(e, m) {
      CongSym(v, e, m);
      CongTrans(e, v, 0, m);
      InvertibleCong(e, 0, m);
      var i :| IsInverse(0, i, m);
      assert 0 * i == 0;
      CongSmall(0, 1, m);
    }
  }

  /** The product of units is a unit. */
  lemma InvertibleMul(a: int, b: int, m: int)
    requires Invertible(a, m) && Invertible(b, m)
    ensures Invertible(a * b, m)
  {
    var i :| IsInverse(a, i, m);
    var j :| IsInverse(b, j, m);
    CongMul(a * i, 1, b * j, 1, m);
    assert (a * i) * (b * j) == (a * b) * (i * j);
    assert IsInverse(a * b, i * j, m);
  }

  lemma InvertibleCong(a: int, b: int, m: int)
    requires Invertible(a, m) && Cong(a, b, m)
    ensures Invertible(b, m)
  {
    var i :| IsInverse(a, i, m);
    CongSym(a, b, m);
    CongRefl(i, m);
    CongMul(b, a, i, i, m);
    CongTrans(b * i, a * i, 1, m);
    assert IsInverse(b, i, m);
  }

  lemma InvertibleNeg(a: int, m: int)
    requires Invertible(a, m)
    ensures Invertible(-a, m)
  {
    var i :| IsInverse(a, i, m);
    assert (-a) * (-i) == a * i;
    assert IsInverse(-a, -i, m);
  }

  /** A unit can be cancelled from a congruence. */
  lemma CongCancel(u: int, a: int, b: int, m: int)
    requires Invertible(u, m) && Cong(u * a, u * b, m)
    ensures Cong(a, b, m)
  {
    var i :| IsInverse(u, i, m);
    CongRefl(i, m);
    CongMul(i, i, u * a, u * b, m);
    assert i * (u * a) == (u * i) * a && i * (u * b) == (u * i) * b;
    CongRefl(a, m); CongRefl(b, m);
    CongMul(u * i, 1, a, a, m);
    CongMul(u * i, 1, b, b, m);
    CongSym((u * i) * a, a, m);
    CongTrans(a, (u * i) * a, (u * i) * b, m);
    CongTrans(a, (u * i) * b, b, m);
  }

  /** Two is a unit modulo an odd number. */
  lemma TwoInvertible(m: int)
    requires m % 2 == 1
    ensures Invertible(2, m)
  {
    CongFrom(2 * ((m + 1) / 2), 1, m, 1);
    assert IsInverse(2, (m + 1) / 2, m);
  }
}
