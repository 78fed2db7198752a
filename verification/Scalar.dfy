/** The scalars handed to the ladder: regularize_k, and which scalars the ladder cannot do. */
module Scalar {
  import opened Congruence
  import opened Words
  import opened VliMod
  import opened Secp160r1
  import opened CurveGroup
  import opened Ladder

  // ---------- Prefixes ----------

  lemma {:induction false} DownHalf(v: nat, i: nat)
    ensures DownBits(v, i + 1) == DownBits(v, i) / 2
    ensures Vli.Bit(v, i) <==> DownBits(v, i) % 2 == 1
  {
    if i > 0 {
      DownHalf(v / 2, i - 1);
    }
  }

  lemma {:induction false} DownTop(v: nat, top: nat)
    requires Pow2(top) <= v < Pow2(top + 1)
    ensures DownBits(v, top) == 1
  {
    if top > 0 {
      DownTop(v / 2, top - 1);
    }
  }

  /** Words holding the scalar, possibly without its top bit, read under the implicit one are the scalar. */
  lemma {:induction false} PrefixIsDown(words: nat, scalar: nat, top: nat, i: nat)
    requires Pow2(top) <= scalar < Pow2(top + 1) && i <= top
    requires words == scalar || words + Pow2(top) == scalar
    ensures Prefix(words, top, i) == DownBits(scalar, i)
    decreases top - i
  {
    if i == top {
      DownTop(scalar, top);
    } else {
      PrefixIsDown(words, scalar, top, i + 1);
      DownHalf(scalar, i);
      SameLowBit(words, scalar, top, i);
    }
  }

  lemma SameLowBit(words: nat, scalar: nat, top: nat, i: nat)
    requires i < top && Pow2(top) <= scalar < Pow2(top + 1)
    requires words == scalar || words + Pow2(top) == scalar
    ensures Vli.Bit(words, i) == Vli.Bit(scalar, i)
  {
    if words != scalar {
      Vli.BitOfSum(words, 1, top, i);
    }
  }

  // ---------- regularize_k ----------

  /** The multiple of the order that regularize_k adds makes bit numNBits the top bit. */
  function Regularized(k: nat, n: nat, numNBits: nat): nat {
    if k + n >= Pow2(numNBits) then k + n else k + 2 * n
  }

  lemma RegularizedTop(k: nat, n: nat, numNBits: nat)
    requires numNBits > 0 && Pow2(numNBits - 1) <= n < Pow2(numNBits) && k < n
    ensures Pow2(numNBits) <= Regularized(k, n, numNBits) < Pow2(numNBits + 1)
  {}

  /** regularize_k: k0 = k + n and k1 = k + 2n; the returned flag chooses k0. k0 may be k. */
  method RegularizeK(k: array<word>, k0: array<word>, k1: array<word>, n: array<word>, numNBits: nat)
    returns (carry: bool)
    requires numNBits > 0
    requires var w := (numNBits + 31) / 32;
             w <= k.Length && k0.Length == w && k1.Length == w && w <= n.Length
    requires k0 != k1 && k0 != n && k1 != n
    requires var w := (numNBits + 31) / 32;
             Pow2(numNBits - 1) <= Val(n[..w]) < Pow2(numNBits) && Val(k[..w]) < Val(n[..w])
    modifies k0, k1
    ensures var w := (numNBits + 31) / 32;
            var s := Regularized(old(Val(k[..w])), Val(n[..w]), numNBits);
            var chosen := if carry then k0 else k1;
            && carry == (s == old(Val(k[..w])) + Val(n[..w]))
            && (Val(chosen[..]) == s || Val(chosen[..]) + Pow2(numNBits) == s)
  {
    hide Val, Up, Pow2;
    var w := (numNBits + 31) / 32;
    ghost var kv, nv := Val(k[..w]), Val(n[..w]);
    DoublePow2(numNBits);
    OneUp(w);
    WholeWords(numNBits, w);
    UpPositive(0, w);
    var out := Vli.Add(k0, k, n, w);
    assert k0[..w] == k0[..];
    ghost var v0 := Val(k0[..]);
    carry := out != 0;
    if !carry && numNBits < w * 32 {
      var b := Vli.TestBit(k0, numNBits);
      carry := b != 0;
      TopBitSet(v0, numNBits);
    }
    ValBound(k0[..]);
    var out1 := Vli.Add(k1, k0, n, w);
    assert k1[..w] == k1[..];
    ValBound(k1[..]);
  }

  lemma DoublePow2(k: nat)
    requires k > 0
    ensures Pow2(k) == 2 * Pow2(k - 1) && Pow2(k + 1) == 2 * Pow2(k)
  {}

  lemma OneUp(w: nat)
    ensures Up(1, w) == Exp(w) && Up(0, w) == 0
  {
    UpPositive(0, w);
  }

  lemma WholeWords(numNBits: nat, w: nat)
    requires numNBits > 0 && w == (numNBits + 31) / 32
    ensures numNBits <= 32 * w
    ensures numNBits == 32 * w ==> Exp(w) == Pow2(numNBits)
    ensures numNBits < 32 * w ==> Pow2(numNBits + 1) <= Exp(w) && numNBits / 32 < w
  {
    UpIsUpBits(1, w);
    if numNBits < 32 * w {
      Pow2Mono(numNBits + 1, 32 * w);
    }
  }

  /** Below 2^(b + 1), bit b tells whether the number reaches 2^b. */
  lemma {:induction false} TopBitSet(v: nat, b: nat)
    requires v < Pow2(b + 1)
    ensures Vli.Bit(v, b) <==> v >= Pow2(b)
  {
    if b > 0 {
      TopBitSet(v / 2, b - 1);
    }
  }

  // ---------- Which scalars meet an exceptional addition ----------

  /** For a point of order n, the ladder step on m and m + 1 meets neither zero nor opposite points. */
  predicate StepScalar(m: nat, n: nat)
    requires n > 0
  {
    m % n != 0 && (m + 1) % n != 0 && (2 * m + 1) % n != 0
  }

  lemma {:induction false} DownAtMost(v: nat, i: nat, j: nat)
    requires i <= j
    ensures DownBits(v, j) <= DownBits(v, i)
    decreases j - i
  {
    if i < j {
      DownAtMost(v, i + 1, j);
      DownHalf(v, i);
    }
  }

  lemma Pow160()
    ensures Pow2(160) == E160 && Pow2(161) == 2 * E160 && Pow2(162) == 4 * E160
  {
    ExpFive();
    UpIsUpBits(1, 5);
  }

  /** Small prefixes are exceptional only at (n - 1) / 2. */
  lemma SmallPrefix(m: nat)
    requires 1 <= m < E160
    ensures StepScalar(m, N160) <==> m != (N160 - 1) / 2
  {}

  /** The prefix before the last bit. */
  lemma LastPrefix(s: nat, k: nat)
    requires k < N160 && s == (if k + N160 >= 2 * E160 then k + N160 else k + 2 * N160)
    ensures StepScalar(s / 2, N160) <==> k != 0 && k != 1 && k != N160 - 2 && k != N160 - 1
    ensures s / 4 == (N160 - 1) / 2 <==> k == 0 || k == 1 || k == N160 - 2 || k == N160 - 1
    ensures 2 * E160 <= s < 4 * E160
  {}

  /** The prefixes of at least 2^161 / 8 and less than 2^160. */
  lemma EarlyPrefix(s: nat, i: nat)
    requires 2 * E160 <= s < 4 * E160 && 3 <= i <= 161
    ensures StepScalar(DownBits(s, i), N160)
  {
    hide StepScalar, DownBits;
    Pow160();
    DownTop(s, 161);
    DownAtMost(s, 3, i);
    DownAtMost(s, i, 161);
    ThirdPrefix(s);
    SmallPrefix(DownBits(s, i));
  }

  lemma ThirdPrefix(s: nat)
    ensures DownBits(s, 0) == s && DownBits(s, 1) == s / 2 && DownBits(s, 2) == s / 4 && DownBits(s, 3) == s / 8
  {
    assert DownBits(s, 1) == DownBits(s / 2, 0);
    assert DownBits(s, 2) == DownBits(s / 2, 1) == DownBits(s / 2 / 2, 0);
    assert DownBits(s, 3) == DownBits(s / 2, 2) == DownBits(s / 2 / 2, 1) == DownBits(s / 2 / 2 / 2, 0);
  }

  /** On secp160r1 every step of the ladder is unexceptional exactly when the key is none of 0, 1, n - 2, n - 1. */
  lemma ExceptionalKeys(k: nat)
    requires k < N160
    ensures var s := Regularized(k, N160, 161);
            (forall i :: 1 <= i <= 161 ==> StepScalar(DownBits(s, i), N160))
            <==> k != 0 && k != 1 && k != N160 - 2 && k != N160 - 1
    ensures forall i :: 3 <= i <= 161 ==> StepScalar(DownBits(Regularized(k, N160, 161), i), N160)
  {
    hide StepScalar, DownBits, Pow2;
    var s := Regularized(k, N160, 161);
    Pow160();
    LastPrefix(s, k);
    ThirdPrefix(s);
    SmallPrefix(s / 4);
    forall i | 3 <= i <= 161
      ensures StepScalar(DownBits(s, i), N160)
    {
      EarlyPrefix(s, i);
    }
    assert StepScalar(DownBits(s, 1), N160) ==> StepScalar(DownBits(s, 2), N160);
  }

  /** The multiples of q: zero exactly at multiples of n, and abscissas telling them apart up to sign. */
  ghost predicate OrderModel<G(!new)>(g: Group<G>, co: Coordinates<G>, q: G, n: nat, p: int)
    requires n > 0
  {
    && (forall i: nat :: Times(g, i, q) == g.zero <==> i % n == 0)
    && (forall i: nat, j: nat :: i % n != 0 && j % n != 0 && (i + j) % n != 0 && (i - j) % n != 0
          ==> Invertible(co.x(Times(g, j, q)) - co.x(Times(g, i, q)), p))
  }

  /** An odd n divides 2x only if it divides x. */
  lemma OddHalf(x: int, n: nat)
    requires n % 2 == 1 && (2 * x) % n == 0
    ensures x % n == 0
  {
    CongMod(2 * x, n);
    CongSym(0, 2 * x, n);
    TwoInvertible(n);
    CongCancel(2, x, 0, n);
    CongSym(x, 0, n);
    CongIsMod(0, x, n);
  }

  lemma RegularFromScalar<G(!new)>(g: Group<G>, co: Coordinates<G>, q: G, m: nat, n: nat, p: int)
    requires Abelian(g) && n > 1 && n % 2 == 1 && OrderModel(g, co, q, n, p) && StepScalar(m, n)
    ensures StepRegular(g, co, q, m, p)
  {
    hide Abelian, Times;
    RungMultiples(g, q, m);
    TimesOne(g, q);
    if (2 * m) % n == 0 { OddHalf(m, n); }
    if (2 * m + 2) % n == 0 { OddHalf(m + 1, n); }
    OneMod(n);
    assert m - (m + 1) == -1 && m + (m + 1) == 2 * m + 1;
    assert (2 * m + 1) - 1 == 2 * m && (2 * m + 1) + 1 == 2 * m + 2;
    assert Times(g, 1, q) != g.zero;
    assert Invertible(co.x(Times(g, 1, q)) - co.x(Times(g, 2 * m + 1, q)), p);
  }

  lemma OneMod(n: nat)
    requires n > 1
    ensures 1 % n == 1 && (-1) % n == n - 1
  {
    assert -1 == (-1) * n + (n - 1);
  }
}
