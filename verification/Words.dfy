/** Little-endian multi-word integers: 32-bit words and the number they spell. */
module Words {

  const BASE: int := 0x1_0000_0000
  const HALF: int := 0x8000_0000

  /** uECC_word_t on the 32-bit portable build. */
  type word = x: int | 0 <= x < 0x1_0000_0000

  // ---------- Moving a number up by words and by bits ----------

  /** d times BASE to the power n, by repeated multiplication with a constant. */
  function Up(d: int, n: nat): int {
    if n == 0 then d else BASE * Up(d, n - 1)
  }

  /** d times 2 to the power k. */
  function UpBits(d: int, k: nat): int {
    if k == 0 then d else 2 * UpBits(d, k - 1)
  }

  /** One more than the largest n-word number. */
  function Exp(n: nat): (r: nat)
    ensures r >= 1
  {
    UpMono(1, 1, n);
    UpPositive(1, n);
    Up(1, n)
  }

  function Pow2(k: nat): (r: nat)
    ensures r >= 1
  {
    UpBitsPositive(1, k);
    UpBits(1, k)
  }

  lemma {:induction false} UpPositive(d: int, n: nat)
    ensures d >= 0 ==> Up(d, n) >= d
    ensures d == 0 ==> Up(d, n) == 0
  {
    if n > 0 { UpPositive(d, n - 1); }
  }

  lemma {:induction false} UpBitsPositive(d: int, k: nat)
    ensures d >= 0 ==> UpBits(d, k) >= d
    ensures d == 0 ==> UpBits(d, k) == 0
  {
    if k > 0 { UpBitsPositive(d, k - 1); }
  }

  lemma {:induction false} UpAdd(a: int, b: int, n: nat)
    ensures Up(a + b, n) == Up(a, n) + Up(b, n)
  {
    if n > 0 { UpAdd(a, b, n - 1); }
  }

  lemma {:induction false} UpMono(a: int, b: int, n: nat)
    requires a <= b
    ensures Up(a, n) <= Up(b, n)
  {
    if n > 0 { UpMono(a, b, n - 1); }
  }

  lemma {:induction false} UpBase(a: int, n: nat)
    ensures Up(BASE * a, n) == Up(a, n + 1)
  {
    if n > 0 { UpBase(a, n - 1); }
  }

  lemma {:induction false} UpUp(a: int, i: nat, j: nat)
    ensures Up(a, i + j) == Up(Up(a, i), j)
    decreases j
  {
    if j > 0 { UpUp(a, i, j - 1); }
  }

  lemma {:induction false} UpMul(a: int, b: int, n: nat)
    ensures Up(a * b, n) == a * Up(b, n)
  {
    if n > 0 {
      UpMul(a, b, n - 1);
      MulAssoc(BASE, a, Up(b, n - 1));
    }
  }

  lemma {:induction false} UpBitsAdd(a: int, b: int, k: nat)
    ensures UpBits(a + b, k) == UpBits(a, k) + UpBits(b, k)
  {
    if k > 0 { UpBitsAdd(a, b, k - 1); }
  }

  lemma {:induction false} UpBitsMono(a: int, b: int, k: nat)
    requires a <= b
    ensures UpBits(a, k) <= UpBits(b, k)
  {
    if k > 0 { UpBitsMono(a, b, k - 1); }
  }

  lemma {:induction false} UpBitsUpBits(a: int, i: nat, j: nat)
    ensures UpBits(a, i + j) == UpBits(UpBits(a, i), j)
    decreases j
  {
    if j > 0 { UpBitsUpBits(a, i, j - 1); }
  }

  lemma {:induction false} UpBitsMul(a: int, b: int, k: nat)
    ensures UpBits(a * b, k) == a * UpBits(b, k)
  {
    if k > 0 {
      UpBitsMul(a, b, k - 1);
      MulAssoc(2, a, UpBits(b, k - 1));
    }
  }

  lemma MulAssoc(a: int, b: int, c: int)
    ensures a * (b * c) == b * (a * c)
  {}

  lemma MulMono(a: int, b: int, c: int)
    requires a <= b && 0 <= c
    ensures a * c <= b * c
  {}

  /** Thirty-two bits are one word. */
  lemma UpBitsWord(d: int)
    ensures UpBits(d, 31) == d * HALF && UpBits(d, 32) == d * BASE
  {
    UpBitsUpBits(d, 8, 8);
    UpBitsUpBits(d, 16, 8);
    UpBitsUpBits(d, 24, 7);
    UpBitsEight(d);
    UpBitsEight(d * 0x100);
    UpBitsEight(d * 0x1_0000);
    UpBitsEight(d * 0x100_0000);
  }

  lemma UpBitsTwo(d: int)
    ensures UpBits(d, 2) == 4 * d
  {
    assert UpBits(d, 1) == 2 * d;
  }

  lemma UpBitsEight(d: int)
    ensures UpBits(d, 7) == d * 0x80 && UpBits(d, 8) == d * 0x100
  {
    UpBitsTwo(d);
    UpBitsTwo(4 * d);
    UpBitsTwo(16 * d);
    UpBitsUpBits(d, 2, 2);
    UpBitsUpBits(d, 4, 2);
    assert UpBits(d, 7) == 2 * UpBits(d, 6);
  }

  lemma Pow2Word()
    ensures Pow2(31) == HALF && Pow2(32) == BASE
  {
    UpBitsWord(1);
  }

  lemma {:induction false} UpIsUpBits(d: int, n: nat)
    ensures Up(d, n) == UpBits(d, 32 * n)
  {
    if n > 0 {
      UpIsUpBits(d, n - 1);
      UpBitsUpBits(d, 32 * (n - 1), 32);
      UpBitsWord(UpBits(d, 32 * (n - 1)));
    }
  }

  lemma {:induction false} Pow2Mono(i: nat, j: nat)
    requires i <= j
    ensures Pow2(i) <= Pow2(j)
    decreases j - i
  {
    if i < j { Pow2Mono(i + 1, j); }
  }

  // ---------- The number a word sequence stands for ----------

  function Val(s: seq<word>): nat {
    if |s| == 0 then 0 else
    UpPositive(s[|s| - 1], |s| - 1);
    Val(s[..|s| - 1]) + Up(s[|s| - 1], |s| - 1)
  }

  lemma {:induction false} ValSnoc(s: seq<word>, i: nat)
    requires i < |s|
    ensures Val(s[..i + 1]) == Val(s[..i]) + Up(s[i], i)
  {
    assert s[..i + 1][..i] == s[..i];
  }

  /** n words hold exactly the numbers below BASE^n. */
  lemma {:induction false} ValBound(s: seq<word>)
    ensures Val(s) < Exp(|s|)
  {
    if |s| > 0 {
      var k := |s| - 1;
      var top: int := s[k];
      ValBound(s[..k]);
      UpAdd(top, 1, k);
      UpMono(top + 1, BASE, k);
      UpBase(1, k);
    }
  }

  lemma {:induction false} ValConcat(s: seq<word>, t: seq<word>)
    ensures Val(s + t) == Val(s) + Up(Val(t), |s|)
  {
    if |t| == 0 {
      assert s + t == s;
      UpPositive(0, |s|);
    } else {
      var k := |t| - 1;
      assert (s + t)[..|s| + k] == s + t[..k];
      ValConcat(s, t[..k]);
      UpAdd(Val(t[..k]), Up(t[k], k), |s|);
      UpUp(t[k], k, |s|);
    }
  }

  /** Splitting a number at word i. */
  lemma ValSplit(s: seq<word>, i: nat)
    requires i <= |s|
    ensures Val(s) == Val(s[..i]) + Up(Val(s[i..]), i)
  {
    assert s == s[..i] + s[i..];
    ValConcat(s[..i], s[i..]);
  }

  /** The lowest word is the residue modulo BASE, the others the quotient. */
  lemma ValHead(s: seq<word>)
    requires |s| > 0
    ensures Val(s) == s[0] + BASE * Val(s[1..])
    ensures Val(s) % 2 == s[0] % 2
  {
    ValSplit(s, 1);
    ValSnoc(s, 0);
  }

  lemma {:induction false} ValZeros(s: seq<word>)
    requires forall i :: 0 <= i < |s| ==> s[i] == 0
    ensures Val(s) == 0
  {
    if |s| > 0 {
      ValZeros(s[..|s| - 1]);
      UpPositive(0, |s| - 1);
    }
  }

  lemma ValPositive(s: seq<word>, i: nat)
    requires i < |s| && s[i] != 0
    ensures Val(s) > 0
  {
    ValSnoc(s, i);
    UpPositive(s[i], i);
    ValSplit(s, i + 1);
    UpPositive(Val(s[i + 1..]), i + 1);
  }

  /** Equal-length sequences are ordered by the first differing word from the top. */
  lemma ValLess(s: seq<word>, t: seq<word>, i: nat)
    requires |s| == |t| && i < |s| && s[i] < t[i] && s[i + 1..] == t[i + 1..]
    ensures Val(s) < Val(t)
  {
    ValSplit(s, i + 1);
    ValSplit(t, i + 1);
    ValSnoc(s, i);
    ValSnoc(t, i);
    ValBound(s[..i]);
    var top: int := s[i];
    UpAdd(top, 1, i);
    UpMono(top + 1, t[i], i);
  }

  /** A number has only one representation in a given number of words. */
  lemma {:induction false} ValInjective(s: seq<word>, t: seq<word>)
    requires |s| == |t| && Val(s) == Val(t)
    ensures s == t
  {
    if |s| > 0 {
      var k := |s| - 1;
      assert s[k + 1..] == t[k + 1..];
      if s[k] < t[k] {
        ValLess(s, t, k);
      } else if t[k] < s[k] {
        ValLess(t, s, k);
      }
      ValInjective(s[..k], t[..k]);
      assert s == s[..k] + [s[k]];
      assert t == t[..k] + [t[k]];
    }
  }

  /** A number below BASE^n is in its low n words. */
  lemma ValLow(s: seq<word>, n: nat)
    requires n <= |s| && Val(s) < Exp(n)
    ensures Val(s[..n]) == Val(s) && Val(s[n..]) == 0
  {
    ValSplit(s, n);
    var high := Val(s[n..]);
    UpPositive(high, n);
    if high > 0 {
      UpMono(1, high, n);
    }
  }

  // ---------- Division facts ----------

  lemma DivUnique(x: nat, d: nat, q: nat, r: nat)
    requires d > 0 && x == q * d + r && r < d
    ensures x / d == q && x % d == r
  {
    var q', r' := x / d, x % d;
    assert x == q' * d + r';
    if q' < q {
      MulMono(q' + 1, q, d);
    } else if q < q' {
      MulMono(q + 1, q', d);
    }
  }

  // ---------- Bitwise or ----------

  function Or(a: nat, b: nat): nat {
    if a == 0 && b == 0 then 0
    else (if a % 2 == 1 || b % 2 == 1 then 1 else 0) + 2 * Or(a / 2, b / 2)
  }

  /** Or-ing two numbers that share no bit position adds them. */
  lemma {:induction false} OrDisjoint(hi: nat, lo: nat, k: nat)
    requires lo < Pow2(k)
    ensures UpBits(hi, k) >= 0
    ensures Or(UpBits(hi, k), lo) == UpBits(hi, k) + lo
    ensures Or(lo, UpBits(hi, k)) == UpBits(hi, k) + lo
    decreases k
  {
    UpBitsPositive(hi, k);
    if k == 0 {
      OrZero(hi);
    } else {
      OrDisjoint(hi, lo / 2, k - 1);
      OrStep(UpBits(hi, k - 1), lo);
    }
  }

  lemma OrStep(h: nat, lo: nat)
    requires Or(h, lo / 2) == h + lo / 2 == Or(lo / 2, h)
    ensures Or(2 * h, lo) == 2 * h + lo == Or(lo, 2 * h)
  {
    assert (2 * h) / 2 == h && (2 * h) % 2 == 0;
  }

  lemma {:induction false} OrZero(a: nat)
    ensures Or(a, 0) == a == Or(0, a)
  {
    if a > 0 { OrZero(a / 2); }
  }

  lemma {:induction false} OrIsZero(a: nat, b: nat)
    ensures Or(a, b) == 0 <==> a == 0 && b == 0
    decreases a + b
  {
    if a != 0 || b != 0 { OrIsZero(a / 2, b / 2); }
  }

  lemma {:induction false} OrBound(a: nat, b: nat, k: nat)
    requires a < Pow2(k) && b < Pow2(k)
    ensures Or(a, b) < Pow2(k)
  {
    if k > 0 { OrBound(a / 2, b / 2, k - 1); }
  }

  function OrWord(a: word, b: word): (r: word)
    ensures r == Or(a, b)
  {
    Pow2Word();
    OrBound(a, b, 32);
    Or(a, b)
  }

  /** A word or-ed with a bit it does not reach. */
  lemma OrTop(w: word, bit: word)
    requires w < HALF && (bit == 0 || bit == HALF)
    ensures Or(w, bit) == w + bit
  {
    hide Or, UpBits;
    if bit == 0 {
      OrZero(w);
    } else {
      Pow2Word();
      OrDisjoint(1, w, 31);
    }
  }
}
