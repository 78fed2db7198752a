/** The fast reduction modulo the prime of secp256r1, appendix D.2.3 of FIPS 186-4. */
module Secp256r1 {
  import opened Words
  import opened Vli
  import opened Congruence

  /** 2^256, eight words. */
  const E256: int := 0x1_0000_0000_0000_0000_0000_0000_0000_0000_0000_0000_0000_0000_0000_0000_0000_0000
  /** 2^256 - 2^224 + 2^192 + 2^96 - 1. */
  const P256: int := 0xFFFF_FFFF_0000_0001_0000_0000_0000_0000_0000_0000_FFFF_FFFF_FFFF_FFFF_FFFF_FFFF

  lemma UpEight(d: int)
    ensures Up(d, 8) == d * E256
  {
    assert Up(d, 2) == BASE * Up(d, 1);
    assert Up(d, 4) == BASE * Up(d, 3);
    assert Up(d, 6) == BASE * Up(d, 5);
    assert Up(d, 8) == BASE * Up(d, 7);
  }

  lemma UpSmall(d: int)
    ensures Up(d, 0) == d && Up(d, 1) == BASE * d && Up(d, 2) == BASE * (BASE * d)
    ensures Up(d, 3) == BASE * (BASE * (BASE * d))
  {
    assert Up(d, 2) == BASE * Up(d, 1);
  }

  /** Four words as a sum with constant weights. */
  function Four(a0: int, a1: int, a2: int, a3: int): int {
    a0 + 0x1_0000_0000 * a1 + 0x1_0000_0000_0000_0000 * a2 + 0x1_0000_0000_0000_0000_0000_0000 * a3
  }

  lemma FourWords(s: seq<word>)
    requires |s| == 4
    ensures Val(s) == Four(s[0], s[1], s[2], s[3])
  {
    ValSnoc(s, 0);
    ValSnoc(s, 1);
    ValSnoc(s, 2);
    assert s[..4] == s && s[..0] == [];
    UpSmall(s[0]);
    UpSmall(s[1]);
    UpSmall(s[2]);
    UpSmall(s[3]);
  }

  lemma UpFour(d: int)
    ensures Up(d, 4) == d * 0x1_0000_0000_0000_0000_0000_0000_0000_0000
  {
    UpSmall(d);
  }

  /** Eight words as a sum with constant weights. */
  function Eight(a0: int, a1: int, a2: int, a3: int, a4: int, a5: int, a6: int, a7: int): int {
    Four(a0, a1, a2, a3) + 0x1_0000_0000_0000_0000_0000_0000_0000_0000 * Four(a4, a5, a6, a7)
  }

  lemma EightWords(s: seq<word>)
    requires |s| == 8
    ensures Val(s) == Eight(s[0], s[1], s[2], s[3], s[4], s[5], s[6], s[7])
  {
    hide Val, Up;
    ValSplit(s, 4);
    FourWords(s[..4]);
    FourWords(s[4..]);
    UpFour(Val(s[4..]));
  }

  lemma EightBound(s: seq<word>)
    requires |s| == 8
    ensures Val(s) < E256
  {
    ValBound(s);
    UpEight(1);
  }

  // ---------- The nine terms ----------

  function Rows(w: seq<word>): (r: seq<seq<word>>)
    requires |w| == 16
    ensures |r| == 9 && forall i :: 0 <= i < 9 ==> |r[i]| == 8
  {
    [ w[..8],
      [0, 0, 0, w[11], w[12], w[13], w[14], w[15]],
      [0, 0, 0, w[12], w[13], w[14], w[15], 0],
      [w[8], w[9], w[10], 0, 0, 0, w[14], w[15]],
      [w[9], w[10], w[11], w[13], w[14], w[15], w[13], w[8]],
      [w[11], w[12], w[13], 0, 0, 0, w[8], w[10]],
      [w[12], w[13], w[14], w[15], 0, 0, w[9], w[11]],
      [w[13], w[14], w[15], w[8], w[9], w[10], 0, w[12]],
      [w[14], w[15], 0, w[9], w[10], w[11], 0, w[13]] ]
  }

  /** t + 2 s1 + 2 s2 + s3 + s4 - d1 - d2 - d3 - d4, as an integer. */
  function NineTerms(w: seq<word>): int
    requires |w| == 16
  {
    var r := Rows(w);
    Val(r[0]) + 2 * Val(r[1]) + 2 * Val(r[2]) + Val(r[3]) + Val(r[4]) - Val(r[5]) - Val(r[6]) - Val(r[7]) - Val(r[8])
  }

  /** The multiple of p between the product and the nine terms, from the eight high words. */
  function Excess(a8: int, a9: int, a10: int, a11: int, a12: int, a13: int, a14: int, a15: int): int {
    a8 + 0x1_0000_0001 * a9 + 0x1_0000_0001_0000_0000 * a10 + 0x1_0000_0000_FFFF_FFFF_FFFF_FFFF * a11
    + 0x1_0000_0000_FFFF_FFFF_FFFF_FFFE_FFFF_FFFF * a12
    + 0x1_0000_0000_FFFF_FFFF_FFFF_FFFE_FFFF_FFFE_FFFF_FFFF * a13
    + 0x1_0000_0000_FFFF_FFFF_FFFF_FFFE_FFFF_FFFE_FFFF_FFFE_FFFF_FFFF * a14
    + 0x1_0000_0000_FFFF_FFFF_FFFF_FFFE_FFFF_FFFE_FFFF_FFFE_FFFF_FFFF_0000_0000 * a15
  }

  /** The identity of the standard, coefficient by coefficient. */
  lemma NineTermsIdentity(a8: int, a9: int, a10: int, a11: int, a12: int, a13: int, a14: int, a15: int)
    ensures E256 * Eight(a8, a9, a10, a11, a12, a13, a14, a15)
            == 2 * Eight(0, 0, 0, a11, a12, a13, a14, a15) + 2 * Eight(0, 0, 0, a12, a13, a14, a15, 0)
               + Eight(a8, a9, a10, 0, 0, 0, a14, a15) + Eight(a9, a10, a11, a13, a14, a15, a13, a8)
               - Eight(a11, a12, a13, 0, 0, 0, a8, a10) - Eight(a12, a13, a14, a15, 0, 0, a9, a11)
               - Eight(a13, a14, a15, a8, a9, a10, 0, a12) - Eight(a14, a15, 0, a9, a10, a11, 0, a13)
               + P256 * Excess(a8, a9, a10, a11, a12, a13, a14, a15)
  {}

  /** The nine terms are congruent to the whole product. */
  lemma NineTermsCong(w: seq<word>)
    requires |w| == 16
    ensures Cong(NineTerms(w), Val(w), P256)
  {
    hide Val, Eight, Excess;
    var r := Rows(w);
    EightWords(r[1]); EightWords(r[2]); EightWords(r[3]); EightWords(r[4]);
    EightWords(r[5]); EightWords(r[6]); EightWords(r[7]); EightWords(r[8]);
    ValSplit(w, 8);
    EightWords(w[8..]);
    UpEight(Val(w[8..]));
    NineTermsIdentity(w[8], w[9], w[10], w[11], w[12], w[13], w[14], w[15]);
    var k := Excess(w[8], w[9], w[10], w[11], w[12], w[13], w[14], w[15]);
    CongFrom(NineTerms(w), Val(w), P256, -k);
  }

  // ---------- The code ----------

  /** Fills the register with eight words. */
  method Load(tmp: array<word>, row: seq<word>)
    requires tmp.Length == 8 && |row| == 8
    modifies tmp
    ensures tmp[..] == row
  {
    tmp[0], tmp[1], tmp[2], tmp[3] := row[0], row[1], row[2], row[3];
    tmp[4], tmp[5], tmp[6], tmp[7] := row[4], row[5], row[6], row[7];
  }

  /** carry += uECC_vli_add(result, result, tmp): the running total grows by tmp. */
  method AddTerm(result: array<word>, tmp: array<word>, carry: int) returns (c: int)
    requires result.Length >= 8 && tmp.Length >= 8 && result != tmp
    modifies result
    ensures c * E256 + Val(result[..8]) == carry * E256 + old(Val(result[..8])) + Val(tmp[..8])
    ensures forall j :: 8 <= j < result.Length ==> result[j] == old(result[j])
  {
    var out := Add(result, result, tmp, 8);
    UpEight(out);
    c := carry + out;
  }

  /** carry -= uECC_vli_sub(result, result, tmp): the running total shrinks by tmp. */
  method SubTerm(result: array<word>, tmp: array<word>, carry: int) returns (c: int)
    requires result.Length >= 8 && tmp.Length >= 8 && result != tmp
    modifies result
    ensures c * E256 + Val(result[..8]) == carry * E256 + old(Val(result[..8])) - Val(tmp[..8])
    ensures forall j :: 8 <= j < result.Length ==> result[j] == old(result[j])
  {
    var out := Sub(result, result, tmp, 8);
    UpEight(out);
    c := carry - out;
  }

  /** Doubles tmp, adds it, and counts both carries; low zero words of tmp stay zero. */
  method AddTwice(result: array<word>, tmp: array<word>, carry: int) returns (c: int)
    requires result.Length >= 8 && tmp.Length == 8 && result != tmp
    requires tmp[0] == tmp[1] == tmp[2] == 0
    modifies result, tmp
    ensures c * E256 + Val(result[..8]) == carry * E256 + old(Val(result[..8])) + 2 * old(Val(tmp[..]))
    ensures tmp[0] == tmp[1] == tmp[2] == 0
    ensures forall j :: 8 <= j < result.Length ==> result[j] == old(result[j])
  {
    ghost var row := tmp[..];
    assert tmp[..8] == row;
    var out := Add(tmp, tmp, tmp, 8);
    UpEight(out);
    LowZeros(row, tmp[..8], out);
    c := AddTerm(result, tmp, carry + out);
  }

  lemma LowZeros(s: seq<word>, t: seq<word>, c: int)
    requires |s| == 8 && |t| == 8 && s[0] == s[1] == s[2] == 0
    requires Val(t) + c * E256 == 2 * Val(s)
    ensures t[0] == t[1] == t[2] == 0
  {
    EightWords(s);
    EightWords(t);
    var low: int := Four(t[0], t[1], t[2], 0);
    var high := 2 * Four(s[3], s[4], s[5], s[6]) - Four(t[3], t[4], t[5], t[6]);
    var top: int := 2 * s[7] as int - t[7] as int - 0x1_0000_0000 * c;
    Low96(low, high + 0x1_0000_0000_0000_0000_0000_0000_0000_0000 * top);
  }

  lemma Low96(low: int, m: int)
    requires 0 <= low < 0x1_0000_0000_0000_0000_0000_0000 && low == 0x1_0000_0000_0000_0000_0000_0000 * m
    ensures low == 0
  {}

  /** t, s1, s2, s3 and s4. */
  method AddTerms(result: array<word>, tmp: array<word>, product: array<word>) returns (carry: int)
    requires result.Length >= 8 && tmp.Length == 8 && product.Length == 16
    requires result != product && result != tmp && tmp != product
    modifies result, tmp
    ensures var r := Rows(product[..]);
            carry * E256 + Val(result[..8]) == Val(r[0]) + 2 * Val(r[1]) + 2 * Val(r[2]) + Val(r[3]) + Val(r[4])
    ensures forall j :: 8 <= j < result.Length ==> result[j] == old(result[j])
  {
    hide Val;
    ghost var r := Rows(product[..]);
    Set(result, 0, product, 0, 8);
    assert result[0..0 + 8] == result[..8] && product[0..0 + 8] == product[..][..8];
    Load(tmp, [0, 0, 0, product[11], product[12], product[13], product[14], product[15]]);
    carry := AddTwice(result, tmp, 0);
    tmp[3], tmp[4], tmp[5], tmp[6], tmp[7] := product[12], product[13], product[14], product[15], 0;
    assert tmp[..] == r[2];
    carry := AddTwice(result, tmp, carry);
    Load(tmp, [product[8], product[9], product[10], 0, 0, 0, product[14], product[15]]);
    assert tmp[..8] == r[3];
    carry := AddTerm(result, tmp, carry);
    Load(tmp, [product[9], product[10], product[11], product[13], product[14], product[15], product[13], product[8]]);
    assert tmp[..8] == r[4];
    carry := AddTerm(result, tmp, carry);
  }

  /** d1, d2, d3 and d4. */
  method SubTerms(result: array<word>, tmp: array<word>, product: array<word>, carry: int) returns (c: int)
    requires result.Length >= 8 && tmp.Length == 8 && product.Length == 16
    requires result != product && result != tmp && tmp != product
    modifies result, tmp
    ensures var r := Rows(product[..]);
            c * E256 + Val(result[..8])
            == carry * E256 + old(Val(result[..8])) - Val(r[5]) - Val(r[6]) - Val(r[7]) - Val(r[8])
    ensures forall j :: 8 <= j < result.Length ==> result[j] == old(result[j])
  {
    hide Val;
    ghost var r := Rows(product[..]);
    Load(tmp, [product[11], product[12], product[13], 0, 0, 0, product[8], product[10]]);
    assert tmp[..8] == r[5];
    c := SubTerm(result, tmp, carry);
    Load(tmp, [product[12], product[13], product[14], product[15], 0, 0, product[9], product[11]]);
    assert tmp[..8] == r[6];
    c := SubTerm(result, tmp, c);
    Load(tmp, [product[13], product[14], product[15], product[8], product[9], product[10], 0, product[12]]);
    assert tmp[..8] == r[7];
    c := SubTerm(result, tmp, c);
    Load(tmp, [product[14], product[15], 0, product[9], product[10], product[11], 0, product[13]]);
    assert tmp[..8] == r[8];
    c := SubTerm(result, tmp, c);
  }

  /** The two correction loops, on carry 2^256 + result. */
  method Correct(result: array<word>, p: array<word>, carryIn: int)
    requires result.Length >= 8 && p.Length >= 8 && result != p && Val(p[..8]) == P256
    modifies result
    ensures Val(result[..8]) < P256
    ensures Cong(Val(result[..8]), carryIn * E256 + old(Val(result[..8])), P256)
    ensures forall j :: 8 <= j < result.Length ==> result[j] == old(result[j])
  {
    hide Val;
    var carry := carryIn;
    ghost var total := carry * E256 + Val(result[..8]);
    EightBound(result[..8]);
    CongRefl(total, P256);
    if carry < 0 {
      while carry < 0
        invariant carry * E256 + Val(result[..8]) < P256
        invariant carry <= 0
        invariant Val(p[..8]) == P256 && Val(result[..8]) < E256
        invariant Cong(carry * E256 + Val(result[..8]), total, P256)
        invariant forall j :: 8 <= j < result.Length ==> result[j] == old(result[j])
        decreases -(carry * E256 + Val(result[..8]))
      {
        ghost var before := carry * E256 + Val(result[..8]);
        carry := AddTerm(result, p, carry);
        EightBound(result[..8]);
        CongShift(before, P256, 1);
        CongTrans(before + 1 * P256, before, total, P256);
      }
    } else {
      var cmp := CmpUnsafe(p, result, 8);
      while carry != 0 || cmp != 1
        invariant carry >= 0 && cmp == Sign(P256, Val(result[..8]))
        invariant Val(p[..8]) == P256 && Val(result[..8]) < E256
        invariant Cong(carry * E256 + Val(result[..8]), total, P256)
        invariant forall j :: 8 <= j < result.Length ==> result[j] == old(result[j])
        decreases carry * E256 + Val(result[..8])
      {
        ghost var before := carry * E256 + Val(result[..8]);
        carry := SubTerm(result, p, carry);
        EightBound(result[..8]);
        CongShift(before, P256, -1);
        CongTrans(before + (-1) * P256, before, total, P256);
        cmp := CmpUnsafe(p, result, 8);
      }
    }
  }

  /** vli_mmod_fast_secp256r1: the residue of every product; p holds the modulus. */
  method MmodFast(result: array<word>, product: array<word>, p: array<word>)
    requires result.Length >= 8 && product.Length == 16 && p.Length >= 8
    requires result != product && result != p && Val(p[..8]) == P256
    modifies result
    ensures Val(result[..8]) == Val(product[..]) % P256
    ensures forall j :: 8 <= j < result.Length ==> result[j] == old(result[j])
  {
    hide Val, Rows;
    ghost var w := product[..];
    var tmp := new word[8];
    var carry := AddTerms(result, tmp, product);
    carry := SubTerms(result, tmp, product, carry);
    assert carry * E256 + Val(result[..8]) == NineTerms(w);
    Correct(result, p, carry);
    NineTermsCong(w);
    CongTrans(Val(result[..8]), NineTerms(w), Val(w), P256);
    CongIsMod(Val(result[..8]), Val(w), P256);
  }
}
