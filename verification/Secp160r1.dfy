/** The fast reduction modulo p = 2^160 - 2^31 - 1, section 2.4.2 of SEC 2. */
module Secp160r1 {
  import opened Words
  import opened Vli
  import opened Congruence

  /** 2^160, five words. */
  const E160: int := 0x1_0000_0000_0000_0000_0000_0000_0000_0000_0000_0000
  /** 2^31 + 1, which is 2^160 modulo p. */
  const OMEGA: int := 0x8000_0001
  const P160: int := E160 - OMEGA
  /** The order of the base point. */
  const N160: int := 0x1_0000_0000_0000_0000_0001_F4C8_F927_AED3_CA75_2257

  lemma UpFive(d: int)
    ensures Up(d, 5) == d * E160
  {
    assert Up(d, 2) == BASE * Up(d, 1);
    assert Up(d, 4) == BASE * Up(d, 3);
  }

  lemma ExpFive()
    ensures Exp(5) == E160
  {
    UpFive(1);
  }

  // ---------- What the reduction computes ----------

  /** The three parts the reduction adds: the low half, and the high half folded down twice. */
  function Folded(product: nat): nat {
    var t := (product / E160) * OMEGA;
    product % E160 + t % E160 + (t / E160) * OMEGA
  }

  /** One subtraction of p per carry, borrows dropped, then a last one if still above p. */
  function FastReduce(product: nat): (r: nat)
    ensures r <= P160
  {
    Finish(Folded(product))
  }

  function Finish(s: nat): (r: nat)
    ensures r <= P160
  {
    var r := (s % E160 + (s / E160) * OMEGA) % E160;
    if r > P160 then r - P160 else r
  }

  /** The sums for which a dropped borrow loses 2^160. */
  predicate InGap(s: nat) {
    2 * E160 - OMEGA <= s < 2 * E160
  }

  lemma FoldedCong(product: nat)
    requires product < E160 * E160
    ensures Cong(Folded(product), product, P160)
    ensures Folded(product) < 2 * E160 + OMEGA * OMEGA
  {
    var hi, lo := product / E160, product % E160;
    var t := hi * OMEGA;
    var q, r := t / E160, t % E160;
    assert product == lo + hi * E160 && t == r + q * E160;
    CongFrom(Folded(product), product, P160, -hi - q);
  }

  lemma OmegaNotZero(s: int)
    ensures !Cong(s - OMEGA, s, P160)
  {}

  lemma FastReduceOutsideGap(s: nat, carry: nat, low: nat, r: nat)
    requires s < 2 * E160 + OMEGA * OMEGA && carry == s / E160 && low == s % E160
    requires r == (low + carry * OMEGA) % E160
    ensures !InGap(s) ==> r == s - carry * P160
    ensures InGap(s) ==> r == s - 2 * P160 - OMEGA && r <= P160
  {}

  lemma OutsideGap(s: nat, carry: nat, r: nat, out: nat)
    requires r as int == s - carry * P160 && out == (if r > P160 then r - P160 else r)
    ensures Cong(out, s, P160)
  {
    var k: int := carry;
    CongFrom(out, s, P160, if r > P160 then -k - 1 else -k);
  }

  lemma InsideGap(s: int, out: int)
    requires out == s - 2 * P160 - OMEGA
    ensures !Cong(out, s, P160)
  {
    CongFrom(s - OMEGA, out, P160, 2);
    OmegaNotZero(s);
    if Cong(out, s, P160) {
      CongTrans(s - OMEGA, out, s, P160);
    }
  }

  /** Subtracting p once per carry is right exactly when the sum stays out of the gap. */
  lemma FinishCong(s: nat)
    requires s < 2 * E160 + OMEGA * OMEGA
    ensures Cong(Finish(s), s, P160) <==> !InGap(s)
  {
    hide Cong;
    var carry := s / E160;
    var r := (s % E160 + carry * OMEGA) % E160;
    FastReduceOutsideGap(s, carry, s % E160, r);
    if InGap(s) {
      InsideGap(s, Finish(s));
    } else {
      OutsideGap(s, carry, r, Finish(s));
    }
  }

  /** The reduction is right exactly when its sum stays out of the gap. */
  lemma FastReduceCong(product: nat)
    requires product < E160 * E160
    ensures Cong(FastReduce(product), product, P160) <==> !InGap(Folded(product))
    ensures InGap(Folded(product)) <==> 2 * E160 - OMEGA <= Folded(product) <= 2 * E160 - 1
  {
    hide Folded, Finish, Cong;
    var s, out := Folded(product), FastReduce(product);
    FoldedCong(product);
    FinishCong(s);
    if Cong(out, product, P160) {
      CongSym(s, product, P160);
      CongTrans(out, product, s, P160);
    }
    if Cong(out, s, P160) {
      CongTrans(out, s, product, P160);
    }
  }

  /** A product below p is left alone. */
  lemma SmallProduct(product: nat)
    requires product < P160
    ensures FastReduce(product) == product && !InGap(Folded(product))
  {
    assert product / E160 == 0;
  }

  /** Two field elements whose product falls in the gap, so that their fast product is wrong. */
  lemma FastReduceFails()
    ensures var x, y := 0x26609b8bd1515c7d18709a36acfa558ea5002, 0x2806098c83852eebae3b605ffee4fc00378c3;
            x < P160 && y < P160 && !Cong(FastReduce(x * y), x * y, P160)
  {
    var product := 0x26609b8bd1515c7d18709a36acfa558ea5002 * 0x2806098c83852eebae3b605ffee4fc00378c3;
    assert InGap(Folded(product));
    FastReduceCong(product);
  }

  // ---------- The word routines ----------

  lemma WordsOf(s: seq<word>, d: nat)
    requires |s| == 6 && Val(s[1..]) == d / 2 && s[0] == (d % 2) * HALF
    ensures Val(s[..5]) + Up(s[5], 5) == HALF * d
    ensures d < E160 ==> s[5] < HALF
  {
    ValHead(s);
    ValSnoc(s, 5);
    assert s[..6] == s;
    UpFive(s[5]);
  }

  /** omega_mult_secp160r1: the five words of right from word 5, times 2^31 + 1, in six words. */
  method OmegaMult(result: array<word>, right: array<word>)
    requires result.Length >= 6 && right.Length == 10 && result != right
    modifies result
    ensures Val(result[..6]) == Val(right[5..10]) * OMEGA
    ensures forall j :: 6 <= j < result.Length ==> result[j] == old(result[j])
  {
    ghost var d := Val(right[5..10]);
    ValHead(right[5..10]);
    ValBound(right[5..10]);
    ExpFive();
    Set(result, 1, right, 5, 5);
    Rshift1(result, 1, 5);
    LowBitUp(right[5]);
    result[0] := (right[5] * HALF) % BASE;
    assert result[..6][1..] == result[1..1 + 5];
    WordsOf(result[..6], d);
    assert result[..6][..5] == result[..5];
    var carry := AddFrom(result, result, right, 5, 5);
    ghost var low, top: int, carryIn := result[..5], result[5], carry;
    UpAdd(top, carry, 5);
    UpPositive(0, 5);
    var i := 5;
    while carry != 0
      invariant result[..5] == low && carry <= carryIn
      invariant if carry == 0 then result[5] == top + carryIn else i == 5 && result[5] == top && carry == carryIn
      invariant forall j :: 6 <= j < result.Length ==> result[j] == old(result[j])
      decreases carry
    {
      // the word above the five is below 2^31, so the carry goes no further
      var sum := result[i] + carry;
      result[i] := sum % BASE;
      carry := sum / BASE;
      i := i + 1;
    }
    assert result[..6][..5] == low;
    ValSnoc(result[..6], 5);
    assert result[..6][..6] == result[..6];
  }

  /** The additions of vli_mmod_fast_secp160r1: the carries and the low five words of the folded sum. */
  method Fold(result: array<word>, product: array<word>) returns (carry: word)
    requires result.Length >= 5 && product.Length == 10 && result != product
    modifies result, product
    ensures Val(result[..5]) == Folded(old(Val(product[..]))) % E160
    ensures carry == Folded(old(Val(product[..]))) / E160
    ensures forall j :: 5 <= j < result.Length ==> result[j] == old(result[j])
  {
    ghost var whole := Val(product[..]);
    ghost var t := (whole / E160) * OMEGA;
    TwoHalves(product[..]);
    var tmp := new word[10];
    Clear(tmp, 0, 5);
    Clear(tmp, 5, 5);
    OmegaMult(tmp, product);
    SixWords(tmp[..], t);
    carry := Add(result, product, tmp, 5);
    ghost var carry1 := carry;
    Clear(product, 0, 5);
    OmegaMult(product, tmp);
    SmallFold(product[..6], t / E160);
    assert product[..6][..5] == product[..5];
    var carry2 := Add(result, result, product, 5);
    ValBound(result[..5]);
    ExpFive();
    CarriesTogether(Val(result[..5]), carry1, carry2, Folded(whole));
    carry := carry + carry2;
  }

  /** The loop that subtracts p once for every carry, letting the borrows go. */
  method SubtractCarries(result: array<word>, p: array<word>, carries: nat) returns (ghost lost: nat)
    requires result.Length >= 5 && p.Length >= 5 && result != p && Val(p[..5]) == P160
    modifies result
    ensures Val(result[..5]) + lost * E160 == old(Val(result[..5])) + carries * OMEGA
    ensures Val(result[..5]) < E160
    ensures forall j :: 5 <= j < result.Length ==> result[j] == old(result[j])
  {
    lost := 0;
    var carry := carries;
    while carry > 0
      invariant 0 <= carry <= carries
      invariant Val(p[..5]) == P160
      invariant Val(result[..5]) + lost * E160 == old(Val(result[..5])) + (carries - carry) * OMEGA
      invariant forall j :: 5 <= j < result.Length ==> result[j] == old(result[j])
    {
      carry := carry - 1;
      var borrow := Sub(result, result, p, 5);
      UpFive(borrow);
      lost := lost + 1 - borrow;
    }
    assert carry == 0;
    ValBound(result[..5]);
    ExpFive();
  }

  /** The subtractions of vli_mmod_fast_secp160r1, on the folded sum s. */
  method Subtract(result: array<word>, p: array<word>, carry: nat, ghost s: nat)
    requires result.Length >= 5 && p.Length >= 5 && result != p && Val(p[..5]) == P160
    requires carry == s / E160 && Val(result[..5]) == s % E160
    modifies result
    ensures Val(result[..5]) == Finish(s)
    ensures forall j :: 5 <= j < result.Length ==> result[j] == old(result[j])
  {
    ghost var low := Val(result[..5]);
    ghost var lost := SubtractCarries(result, p, carry);
    DivBig(low + carry * OMEGA, lost, Val(result[..5]));
    var cmp := CmpUnsafe(result, p, 5);
    if cmp > 0 {
      var borrow := Sub(result, result, p, 5);
      ValBound(result[..5]);
      ExpFive();
      UpFive(borrow);
    }
  }

  /** vli_mmod_fast_secp160r1; p holds the modulus. */
  method MmodFast(result: array<word>, product: array<word>, p: array<word>)
    requires result.Length >= 5 && product.Length == 10 && p.Length >= 5
    requires result != product && result != p && product != p
    requires Val(p[..5]) == P160
    modifies result, product
    ensures Val(result[..5]) == FastReduce(old(Val(product[..])))
    ensures forall j :: 5 <= j < result.Length ==> result[j] == old(result[j])
  {
    ghost var s := Folded(Val(product[..]));
    var carry := Fold(result, product);
    Subtract(result, p, carry, s);
  }

  lemma TwoHalves(s: seq<word>)
    requires |s| == 10
    ensures Val(s[..5]) == Val(s) % E160 && Val(s[5..10]) == Val(s) / E160 < E160
  {
    ValSplit(s, 5);
    ValBound(s[..5]);
    ValBound(s[5..]);
    assert s[5..] == s[5..10];
    ExpFive();
    UpFive(Val(s[5..]));
    DivBig(Val(s), Val(s[5..]), Val(s[..5]));
  }

  lemma DivBig(x: nat, q: nat, r: nat)
    requires x == r + q * E160 && r < E160
    ensures x / E160 == q && x % E160 == r
  {}

  lemma SixWords(s: seq<word>, t: nat)
    requires |s| == 10 && Val(s[..6]) == t && forall j :: 6 <= j < 10 ==> s[j] == 0
    ensures Val(s[..5]) == t % E160 && Val(s[5..10]) == t / E160
  {
    ValSplit(s, 6);
    ValZeros(s[6..]);
    UpPositive(0, 6);
    TwoHalves(s);
  }

  lemma SmallFold(s: seq<word>, q: nat)
    requires |s| == 6 && Val(s) == q * OMEGA && q < OMEGA
    ensures Val(s[..5]) == q * OMEGA
  {
    ExpFive();
    ValLow(s, 5);
  }

  lemma CarriesTogether(r: nat, c1: word, c2: word, s: nat)
    requires c1 <= 1 && c2 <= 1 && r < E160 && r + Up(c1, 5) + Up(c2, 5) == s
    ensures s / E160 == c1 + c2 && s % E160 == r
  {
    ExpFive();
    UpPositive(0, 5);
  }
}
