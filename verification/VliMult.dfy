/** Column-wise multiplication and squaring of word arrays. */
module VliMult {
  import opened Words

  // ---------- What a column multiplication adds up ----------

  function At(s: seq<word>, i: int): word {
    if 0 <= i < |s| then s[i] else 0
  }

  /** The terms l[j] * r[k - j] with lo <= j < hi. */
  function ColSum(l: seq<word>, r: seq<word>, k: int, lo: int, hi: int): (c: int)
    ensures c >= 0
    decreases hi - lo
  {
    if hi <= lo then 0 else
    MulNonneg(At(l, hi - 1), At(r, k - (hi - 1)));
    ColSum(l, r, k, lo, hi - 1) + At(l, hi - 1) * At(r, k - (hi - 1))
  }

  /** Columns 0..k-1, each in its position. */
  function Columns(l: seq<word>, r: seq<word>, k: nat): int {
    if k == 0 then 0 else Columns(l, r, k - 1) + Up(ColSum(l, r, k - 1, 0, k), k - 1)
  }

  lemma MulNonneg(a: int, b: int)
    requires a >= 0 && b >= 0
    ensures a * b >= 0
  {}

  lemma {:induction false} ColSumSplit(l: seq<word>, r: seq<word>, k: int, lo: int, mid: int, hi: int)
    requires lo <= mid <= hi
    ensures ColSum(l, r, k, lo, hi) == ColSum(l, r, k, lo, mid) + ColSum(l, r, k, mid, hi)
    decreases hi - mid
  {
    if mid < hi {
      ColSumSplit(l, r, k, lo, mid, hi - 1);
    }
  }

  lemma {:induction false} ColSumZero(l: seq<word>, r: seq<word>, k: int, lo: int, hi: int)
    requires forall j :: lo <= j < hi ==> At(l, j) == 0 || At(r, k - j) == 0
    ensures ColSum(l, r, k, lo, hi) == 0
    decreases hi - lo
  {
    if lo < hi {
      ColSumZero(l, r, k, lo, hi - 1);
      assert At(l, hi - 1) == 0 || At(r, k - (hi - 1)) == 0;
    }
  }

  /** Terms that fall outside either operand contribute nothing. */
  lemma ColSumInside(l: seq<word>, r: seq<word>, k: nat, lo: int, hi: int)
    requires 0 <= lo <= hi <= k + 1
    requires lo == 0 || k - lo + 1 >= |r|
    requires hi >= |l| || hi == k + 1
    ensures ColSum(l, r, k, 0, k + 1) == ColSum(l, r, k, lo, hi)
  {
    ColSumSplit(l, r, k, 0, lo, k + 1);
    ColSumSplit(l, r, k, lo, hi, k + 1);
    ColSumZero(l, r, k, 0, lo);
    ColSumZero(l, r, k, hi, k + 1);
  }

  lemma {:induction false} ColSumSnoc(l: seq<word>, x: word, r: seq<word>, k: int, hi: nat)
    ensures ColSum(l + [x], r, k, 0, hi) ==
            ColSum(l, r, k, 0, hi) + (if |l| < hi then x * At(r, k - |l|) else 0)
  {
    if hi > 0 {
      ColSumSnoc(l, x, r, k, hi - 1);
    }
  }

  /** One row of the schoolbook product: the digits of r moved up by m positions. */
  function Row(r: seq<word>, m: nat, k: nat): int {
    if k == 0 then 0 else Row(r, m, k - 1) + Up(At(r, k - 1 - m), k - 1)
  }

  lemma {:induction false} RowValue(r: seq<word>, m: nat, k: nat)
    ensures k <= m ==> Row(r, m, k) == 0
    ensures m <= k <= m + |r| ==> Row(r, m, k) == Up(Val(r[..k - m]), m)
    ensures k >= m + |r| ==> Row(r, m, k) == Up(Val(r), m)
  {
    assert r[..|r|] == r;
    UpPositive(0, m);
    if k > 0 {
      RowValue(r, m, k - 1);
      UpPositive(0, k - 1);
      if m < k <= m + |r| {
        var d := k - 1 - m;
        ValSnoc(r, d);
        UpUp(r[d], d, m);
        UpAdd(Val(r[..d]), Up(r[d], d), m);
      }
    }
  }

  lemma RowStep(columns: int, row: int, c: int, x: int, t: int)
    ensures (columns + x * row) + (c + x * t) == (columns + c) + x * (row + t)
  {}

  lemma {:induction false} ColumnsSnoc(l: seq<word>, x: word, r: seq<word>, k: nat)
    ensures Columns(l + [x], r, k) == Columns(l, r, k) + x * Row(r, |l|, k)
  {
    if k > 0 {
      ColumnsSnoc(l, x, r, k - 1);
      ColSumSnoc(l, x, r, k - 1, k);
      var c, t := ColSum(l, r, k - 1, 0, k), At(r, k - 1 - |l|);
      UpAdd(c, x * t, k - 1);
      UpMul(x, t, k - 1);
      RowStep(Columns(l, r, k - 1), Row(r, |l|, k - 1), Up(c, k - 1), x, Up(t, k - 1));
    }
  }

  lemma Distribute(a: int, b: int, c: int)
    ensures (a + b) * c == a * c + c * b
  {}

  lemma {:induction false} ColumnsEmpty(l: seq<word>, r: seq<word>, k: nat)
    requires l == []
    ensures Columns(l, r, k) == 0
  {
    if k > 0 {
      ColumnsEmpty(l, r, k - 1);
      ColSumZero(l, r, k - 1, 0, k);
      UpPositive(0, k - 1);
    }
  }

  /** All the columns together are the product. */
  lemma {:induction false} ColumnsAreProduct(l: seq<word>, r: seq<word>, k: nat)
    requires k + 1 >= |l| + |r|
    ensures Columns(l, r, k) == Val(l) * Val(r)
  {
    if l == [] {
      ColumnsEmpty(l, r, k);
    } else {
      var m := |l| - 1;
      assert l == l[..m] + [l[m]];
      ColumnsAreProduct(l[..m], r, k);
      ColumnsSnoc(l[..m], l[m], r, k);
      RowValue(r, m, k);
      UpMul(l[m], Val(r), m);
      UpMul(Val(r), l[m], m);
      Distribute(Val(l[..m]), Up(l[m], m), Val(r));
      assert l[m] * Val(r) == Val(r) * l[m];
    }
  }

  // ---------- The three-word accumulator ----------

  const DOUBLE: int := 0x1_0000_0000_0000_0000
  const CUBE: int := 0x1_0000_0000_0000_0000_0000_0000
  /** The largest product of two words. */
  const TERM: int := 0xFFFF_FFFE_0000_0001

  function Acc(r0: word, r1: word, r2: word): int {
    r0 + r1 * BASE + r2 * DOUBLE
  }

  lemma TermBound(a: word, b: word)
    ensures 0 <= a * b <= TERM
  {
    MulNonneg(a, b);
    MulMono(a, BASE - 1, b);
  }

  /** The double-word sum r01 += p with its carry into the third word, which wraps. */
  lemma CarryUp(r01: nat, p: nat, r2: nat)
    requires r01 < DOUBLE && p < DOUBLE && r2 < BASE
    ensures var sum := (r01 + p) % DOUBLE;
            var carry := if sum < p then 1 else 0;
            sum + (r2 + carry) % BASE * DOUBLE == (r01 + r2 * DOUBLE + p) % CUBE
  {
    var sum := (r01 + p) % DOUBLE;
    var carry := if sum < p then 1 else 0;
    assert sum + carry * DOUBLE == r01 + p;
    var wrap := (r2 + carry) / BASE;
    var all := sum + (r2 + carry) % BASE * DOUBLE;
    assert all + wrap * CUBE == r01 + r2 * DOUBLE + p;
  }

  /** The lines muladd and mul2add share: add the double word p, the carry going into the third word. */
  method AddDouble(p: nat, r0: word, r1: word, r2: word) returns (s0: word, s1: word, s2: word)
    requires p < DOUBLE
    ensures Acc(s0, s1, s2) == (Acc(r0, r1, r2) + p) % CUBE
  {
    var r01 := r1 * BASE + r0;
    assert Acc(r0, r1, r2) == r01 + r2 * DOUBLE;
    hide Acc;
    CarryUp(r01, p, r2);
    r01 := (r01 + p) % DOUBLE;
    s2 := (r2 + (if r01 < p then 1 else 0)) % BASE;
    s1 := r01 / BASE;
    s0 := r01 % BASE;
    AccOf(r01, s2);
  }

  lemma AccOf(d: nat, r2: word)
    requires d < DOUBLE
    ensures Acc(d % BASE, d / BASE, r2) == d + r2 * DOUBLE
  {}

  /** muladd: adds a * b to the accumulator, modulo 2^96. */
  method MulAdd(a: word, b: word, r0: word, r1: word, r2: word) returns (s0: word, s1: word, s2: word)
    ensures Acc(s0, s1, s2) == (Acc(r0, r1, r2) + a * b) % CUBE
  {
    TermBound(a, b);
    s0, s1, s2 := AddDouble(a * b, r0, r1, r2);
  }

  lemma TopBitOut(p: nat, top: nat, twice: nat, r0: word, r1: word, r2: word, s2: word)
    requires p < DOUBLE && top == p / 0x8000_0000_0000_0000 && twice == (p * 2) % DOUBLE && s2 == (r2 + top) % BASE
    ensures (Acc(r0, r1, s2) + twice) % CUBE == (Acc(r0, r1, r2) + 2 * p) % CUBE
  {
    assert twice + top * DOUBLE == 2 * p;
    var k := (r2 + top) / BASE;
    assert s2 == r2 + top - k * BASE;
    assert Acc(r0, r1, s2) + twice == Acc(r0, r1, r2) + 2 * p - k * CUBE;
  }

  /** mul2add: adds 2 * a * b to the accumulator, modulo 2^96. */
  method Mul2Add(a: word, b: word, r0: word, r1: word, r2: word) returns (s0: word, s1: word, s2: word)
    ensures Acc(s0, s1, s2) == (Acc(r0, r1, r2) + 2 * (a * b)) % CUBE
  {
    TermBound(a, b);
    var p := a * b;
    var top := p / 0x8000_0000_0000_0000;
    s2 := (r2 + top) % BASE;
    TopBitOut(p, top, (p * 2) % DOUBLE, r0, r1, r2, s2);
    s0, s1, s2 := AddDouble((p * 2) % DOUBLE, r0, r1, s2);
  }

  /** Emitting the low accumulator word as digit k and moving the others down. */
  lemma EmitDigit(s: seq<word>, k: nat, r0: word, r1: word, r2: word, before: int, column: int)
    requires k < |s| && s[k] == r0
    requires Acc(r0, r1, r2) == before + column
    ensures Val(s[..k + 1]) + Up(Acc(r1, r2, 0), k + 1) == Val(s[..k]) + Up(before, k) + Up(column, k)
  {
    ValSnoc(s, k);
    var rest := Acc(r1, r2, 0);
    assert r0 + BASE * rest == before + column;
    UpAdd(before, column, k);
    UpAdd(r0, BASE * rest, k);
    UpBase(rest, k);
  }

  lemma NoColumns(l: seq<word>, r: seq<word>)
    ensures Columns(l, r, 0) == 0 && Val([]) == 0 && Up(0, 0) == 0
  {}

  lemma NoTerms(l: seq<word>, r: seq<word>, k: int, lo: int)
    ensures ColSum(l, r, k, lo, lo) == 0
  {}

  lemma ColSumStep(l: seq<word>, r: seq<word>, k: int, lo: int, i: int)
    requires lo <= i
    ensures ColSum(l, r, k, lo, i + 1) == ColSum(l, r, k, lo, i) + At(l, i) * At(r, k - i)
  {}

  lemma TermFits(acc: int, n: nat, done: nat)
    requires done < n < BASE && acc <= n * BASE + done * TERM
    ensures acc + TERM < CUBE && acc + TERM <= n * BASE + (done + 1) * TERM
  {}

  /** muladd where the accumulator does not overflow. */
  method AddTerm(a: word, b: word, r0: word, r1: word, r2: word) returns (s0: word, s1: word, s2: word)
    requires Acc(r0, r1, r2) + TERM < CUBE
    ensures Acc(s0, s1, s2) == Acc(r0, r1, r2) + a * b
    ensures Acc(s0, s1, s2) <= Acc(r0, r1, r2) + TERM
  {
    TermBound(a, b);
    s0, s1, s2 := MulAdd(a, b, r0, r1, r2);
  }

  /** The inner loop of uECC_vli_mult: the terms of column k with lo <= i < hi. */
  method MultColumn(left: array<word>, right: array<word>, at: nat, n: nat, k: nat, lo: nat, hi: nat,
                    r0: word, r1: word, r2: word)
    returns (s0: word, s1: word, s2: word)
    requires n < BASE && n <= left.Length && at + n <= right.Length
    requires lo <= hi <= n && hi <= k + 1 && k < lo + n
    requires Acc(r0, r1, r2) <= n * BASE
    ensures Acc(s0, s1, s2) == Acc(r0, r1, r2) + ColSum(left[..n], right[at..at + n], k, lo, hi)
    ensures Acc(s0, s1, s2) <= n * BASE + n * TERM
  {
    hide ColSum, Acc;
    ghost var l, r := left[..n], right[at..at + n];
    s0, s1, s2 := r0, r1, r2;
    NoTerms(l, r, k, lo);
    for i := lo to hi
      invariant Acc(s0, s1, s2) == Acc(r0, r1, r2) + ColSum(l, r, k, lo, i)
      invariant Acc(s0, s1, s2) <= n * BASE + (i - lo) * TERM
    {
      assert left[i] == At(l, i) && right[at + k - i] == At(r, k - i);
      ColSumStep(l, r, k, lo, i);
      TermFits(Acc(s0, s1, s2), n, i - lo);
      s0, s1, s2 := AddTerm(left[i], right[at + k - i], s0, s1, s2);
    }
  }

  /** uECC_vli_mult; the right operand starts at word at. Its two loops over k, for the growing
      and the shrinking columns, are one loop here: they differ only in the range of i. */
  method Mult(result: array<word>, left: array<word>, right: array<word>, at: nat, n: nat)
    requires 0 < n < BASE
    requires 2 * n <= result.Length && n <= left.Length && at + n <= right.Length
    requires result != left && result != right
    modifies result
    ensures Val(result[..2 * n]) == Val(left[..n]) * Val(right[at..at + n])
    ensures forall j :: 2 * n <= j < result.Length ==> result[j] == old(result[j])
  {
    hide Val, Up, ColSum;
    ghost var l, r := left[..n], right[at..at + n];
    var r0: word, r1: word, r2: word := 0, 0, 0;
    NoColumns(l, r);
    assert result[..0] == [];
    for k := 0 to 2 * n - 1
      invariant r2 == 0 && Acc(r0, r1, r2) <= n * BASE
      invariant Val(result[..k]) + Up(Acc(r0, r1, r2), k) == Columns(l, r, k)
      invariant forall j :: 2 * n <= j < result.Length ==> result[j] == old(result[j])
    {
      ghost var before := Acc(r0, r1, r2);
      var lo := if k < n then 0 else k + 1 - n;
      var hi := if k < n then k + 1 else n;
      assert left[..n] == l && right[at..at + n] == r;
      r0, r1, r2 := MultColumn(left, right, at, n, k, lo, hi, r0, r1, r2);
      ColSumInside(l, r, k, lo, hi);
      ghost var below := result[..k];
      result[k] := r0;
      assert result[..][..k] == below && result[..][..k + 1] == result[..k + 1];
      EmitDigit(result[..], k, r0, r1, r2, before, ColSum(l, r, k, 0, k + 1));
      r0, r1, r2 := r1, r2, 0;
    }
    LastDigit(l, r, result[..2 * n - 1], r0, r1, n);
    ghost var below := result[..2 * n - 1];
    result[2 * n - 1] := r0;
    assert result[..2 * n] == below + [r0];
  }

  /** The accumulator left after the last column fits in one word. */
  lemma LastDigit(l: seq<word>, r: seq<word>, below: seq<word>, r0: word, r1: word, n: nat)
    requires |l| == |r| == n > 0 && |below| == 2 * n - 1
    requires Val(below) + Up(Acc(r0, r1, 0), 2 * n - 1) == Columns(l, r, 2 * n - 1)
    ensures r1 == 0
    ensures Val(below + [r0]) == Val(l) * Val(r)
  {
    ColumnsAreProduct(l, r, 2 * n - 1);
    ProductBound(l, r);
    var acc := Acc(r0, r1, 0);
    if acc >= BASE {
      UpMono(BASE, acc, 2 * n - 1);
      UpBase(1, 2 * n - 1);
    }
    assert (below + [r0])[..2 * n - 1] == below;
  }

  /** The product of two n-word numbers has 2n words. */
  lemma ProductBound(l: seq<word>, r: seq<word>)
    requires |l| == |r|
    ensures Val(l) * Val(r) < Exp(2 * |l|)
  {
    var n := |l|;
    var a, b, e := Val(l), Val(r), Exp(n);
    ValBound(l);
    ValBound(r);
    UpUp(1, n, n);
    UpMul(e, 1, n);
    BelowSquare(a, b, e);
  }

  lemma BelowSquare(a: nat, b: nat, e: nat)
    requires a < e && b < e
    ensures a * b < e * e
  {
    MulMono(a, e, b);
    MulMono(b + 1, e, e);
  }

  // ---------- Squaring: each off-diagonal term once, doubled ----------

  /** The term the squaring loop adds for j: doubled off the diagonal. */
  function HalfTerm(l: seq<word>, k: int, j: int): (t: nat)
    ensures t <= 2 * TERM
  {
    TermBound(At(l, j), At(l, k - j));
    (if j < k - j then 2 else 1) * (At(l, j) * At(l, k - j))
  }

  /** The terms the squaring loop adds for lo <= j < hi. */
  function HalfSum(l: seq<word>, k: int, lo: int, hi: int): int
    decreases hi - lo
  {
    if hi <= lo then 0 else HalfSum(l, k, lo, hi - 1) + HalfTerm(l, k, hi - 1)
  }

  lemma ColSumFirst(l: seq<word>, r: seq<word>, k: int, lo: int, hi: int)
    requires lo < hi
    ensures ColSum(l, r, k, lo, hi) == At(l, lo) * At(r, k - lo) + ColSum(l, r, k, lo + 1, hi)
  {
    ColSumSplit(l, r, k, lo, lo + 1, hi);
    assert ColSum(l, r, k, lo, lo) == 0;
    assert ColSum(l, r, k, lo, lo + 1) == At(l, lo) * At(r, k - lo);
  }

  /** Below the diagonal, the doubled terms are a column's two mirrored ends. */
  lemma {:induction false} HalfSumMirrors(l: seq<word>, k: int, lo: int, m: int)
    requires lo <= m && 2 * m <= k + 1
    ensures HalfSum(l, k, lo, m) == ColSum(l, l, k, lo, m) + ColSum(l, l, k, k + 1 - m, k + 1 - lo)
    decreases m - lo
  {
    if lo < m {
      HalfSumMirrors(l, k, lo, m - 1);
      var a, b := At(l, m - 1), At(l, k + 1 - m);
      assert ColSum(l, l, k, k + 1 - m, k + 1 - lo) == b * a + ColSum(l, l, k, k + 2 - m, k + 1 - lo) by {
        ColSumFirst(l, l, k, k + 1 - m, k + 1 - lo);
        assert k - (k + 1 - m) == m - 1;
      }
      assert k - (m - 1) == k + 1 - m && k + 1 - (m - 1) == k + 2 - m;
      assert HalfSum(l, k, lo, m) == HalfSum(l, k, lo, m - 1) + 2 * (a * b);
      assert ColSum(l, l, k, lo, m) == ColSum(l, l, k, lo, m - 1) + a * b;
      assert a * b == b * a;
    }
  }

  lemma HalfSumIsColumn(l: seq<word>, k: nat, lo: nat)
    requires 2 * lo <= k + 1
    ensures HalfSum(l, k, lo, k / 2 + 1) == ColSum(l, l, k, lo, k + 1 - lo) || 2 * lo == k + 1
  {
    var m := (k + 1) / 2;
    HalfSumMirrors(l, k, lo, m);
    if 2 * lo < k + 1 {
      if k % 2 == 1 {
        assert k + 1 - m == m == k / 2 + 1;
        ColSumSplit(l, l, k, lo, m, k + 1 - lo);
      } else {
        assert k - m == m == k / 2;
        ColSumSplit(l, l, k, lo, m + 1, k + 1 - lo);
      }
    }
  }

  lemma {:induction false} ColSumBound(l: seq<word>, r: seq<word>, k: int, lo: int, hi: int)
    requires lo <= hi
    ensures ColSum(l, r, k, lo, hi) <= (hi - lo) * TERM
    decreases hi - lo
  {
    if lo < hi {
      ColSumBound(l, r, k, lo, hi - 1);
      TermBound(At(l, hi - 1), At(r, k - (hi - 1)));
    }
  }

  /** The body of the inner loop of uECC_vli_square. */
  method SquareTerm(left: array<word>, n: nat, k: nat, i: nat, r0: word, r1: word, r2: word)
    returns (s0: word, s1: word, s2: word)
    requires n <= left.Length && i <= k && i < n && k - i < n
    requires Acc(r0, r1, r2) < CUBE - 2 * TERM
    ensures Acc(s0, s1, s2) == Acc(r0, r1, r2) + HalfTerm(left[..n], k, i)
  {
    NoWrap(Acc(r0, r1, r2) + HalfTerm(left[..n], k, i));
    if i < k - i {
      s0, s1, s2 := Mul2Add(left[i], left[k - i], r0, r1, r2);
    } else {
      s0, s1, s2 := MulAdd(left[i], left[k - i], r0, r1, r2);
    }
  }

  lemma NoWrap(x: nat)
    requires x < CUBE
    ensures x % CUBE == x
  {}

  lemma AccFits(acc: nat, n: nat, i: nat)
    requires n < HALF && i < n && acc <= n * BASE + i * (2 * TERM)
    ensures acc < CUBE - 2 * TERM
  {}

  /** The inner loop of uECC_vli_square. */
  method SquareColumn(left: array<word>, n: nat, k: nat, lo: nat, r0: word, r1: word, r2: word)
    returns (s0: word, s1: word, s2: word)
    requires n < HALF && n <= left.Length
    requires 2 * lo <= k && k < lo + n
    requires Acc(r0, r1, r2) <= n * BASE
    ensures Acc(s0, s1, s2) == Acc(r0, r1, r2) + ColSum(left[..n], left[..n], k, lo, k + 1 - lo)
  {
    s0, s1, s2 := r0, r1, r2;
    var i := lo;
    while i <= k && i <= k - i
      invariant lo <= i && 2 * i <= k + 2
      invariant Acc(s0, s1, s2) == Acc(r0, r1, r2) + HalfSum(left[..n], k, lo, i)
      invariant Acc(s0, s1, s2) <= n * BASE + (i - lo) * (2 * TERM)
    {
      AccFits(Acc(s0, s1, s2), n, i - lo);
      s0, s1, s2 := SquareTerm(left, n, k, i, s0, s1, s2);
      i := i + 1;
    }
    HalfSumIsColumn(left[..n], k, lo);
  }

  /** uECC_vli_square (compiled when uECC_SQUARE_FUNC is on): the product of left with itself. */
  method Square(result: array<word>, left: array<word>, n: nat)
    requires 0 < n < HALF
    requires 2 * n <= result.Length && n <= left.Length && result != left
    modifies result
    ensures Val(result[..2 * n]) == Val(left[..n]) * Val(left[..n])
    ensures forall j :: 2 * n <= j < result.Length ==> result[j] == old(result[j])
  {
    hide Val, Up, ColSum;
    ghost var l := left[..n];
    var r0: word, r1: word, r2: word := 0, 0, 0;
    NoColumns(l, l);
    assert result[..0] == [];
    for k := 0 to 2 * n - 1
      invariant r2 == 0 && Acc(r0, r1, r2) <= n * BASE
      invariant Val(result[..k]) + Up(Acc(r0, r1, r2), k) == Columns(l, l, k)
      invariant forall j :: 2 * n <= j < result.Length ==> result[j] == old(result[j])
    {
      ghost var before := Acc(r0, r1, r2);
      var min := if k < n then 0 else k + 1 - n;
      assert left[..n] == l;
      r0, r1, r2 := SquareColumn(left, n, k, min, r0, r1, r2);
      ColSumInside(l, l, k, min, k + 1 - min);
      ColSumBound(l, l, k, min, k + 1 - min);
      ghost var below := result[..k];
      result[k] := r0;
      assert result[..][..k] == below && result[..][..k + 1] == result[..k + 1];
      EmitDigit(result[..], k, r0, r1, r2, before, ColSum(l, l, k, 0, k + 1));
      r0, r1, r2 := r1, r2, 0;
    }
    LastDigit(l, l, result[..2 * n - 1], r0, r1, n);
    ghost var below := result[..2 * n - 1];
    result[2 * n - 1] := r0;
    assert result[..2 * n] == below + [r0];
  }
}
