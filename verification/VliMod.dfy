/** Modular addition, subtraction and the shift-and-subtract reduction. */
module VliMod {
  import opened Words
  import opened Vli
  import opened Congruence

  // ---------- Sums and differences of operands that are at most the modulus ----------

  function AddMod(a: nat, b: nat, m: nat): (r: nat)
    requires a <= m && b <= m
    ensures r <= m
  {
    if a + b >= m then a + b - m else a + b
  }

  function SubMod(a: nat, b: nat, m: nat): (r: nat)
    requires a <= m && b <= m
    ensures r <= m
  {
    if a < b then a - b + m else a - b
  }

  lemma AddModCong(a: nat, b: nat, m: nat)
    requires a <= m && b <= m
    ensures Cong(AddMod(a, b, m), a + b, m)
  {
    CongFrom(AddMod(a, b, m), a + b, m, if a + b >= m then -1 else 0);
  }

  lemma SubModCong(a: nat, b: nat, m: nat)
    requires a <= m && b <= m
    ensures Cong(SubMod(a, b, m), a - b, m)
  {
    CongFrom(SubMod(a, b, m), a - b, m, if a < b then 1 else 0);
  }

  /** uECC_vli_modAdd; result may be left or right but not mod. */
  method ModAdd(result: array<word>, left: array<word>, right: array<word>, mod: array<word>, n: nat)
    requires n <= result.Length && n <= left.Length && n <= right.Length && n <= mod.Length
    requires result != mod
    requires Val(left[..n]) <= Val(mod[..n]) && Val(right[..n]) <= Val(mod[..n])
    modifies result
    ensures Val(result[..n]) == old(AddMod(Val(left[..n]), Val(right[..n]), Val(mod[..n])))
    ensures forall j :: n <= j < result.Length ==> result[j] == old(result[j])
  {
    UpPositive(0, n);
    var carry := Add(result, left, right, n);
    ValBound(mod[..n]);
    ValBound(result[..n]);
    var cmp := CmpUnsafe(mod, result, n);
    if carry != 0 || cmp != 1 {
      var borrow := Sub(result, result, mod, n);
      ValBound(result[..n]);
    }
  }

  /** uECC_vli_modSub; result may be left or right but not mod. */
  method ModSub(result: array<word>, left: array<word>, right: array<word>, mod: array<word>, n: nat)
    requires n <= result.Length && n <= left.Length && n <= right.Length && n <= mod.Length
    requires result != mod
    requires Val(left[..n]) <= Val(mod[..n]) && Val(right[..n]) <= Val(mod[..n])
    modifies result
    ensures Val(result[..n]) == old(SubMod(Val(left[..n]), Val(right[..n]), Val(mod[..n])))
    ensures forall j :: n <= j < result.Length ==> result[j] == old(result[j])
  {
    UpPositive(0, n);
    var borrow := Sub(result, left, right, n);
    ValBound(mod[..n]);
    ValBound(result[..n]);
    if borrow != 0 {
      var carry := Add(result, result, mod, n);
      ValBound(result[..n]);
    }
  }

  // ---------- uECC_vli_mmod ----------

  /** w shifted right by k bits. */
  function DownBits(w: nat, k: nat): (r: nat)
    ensures r <= w
  {
    if k == 0 then w else DownBits(w / 2, k - 1)
  }

  lemma {:induction false} DownBitsLow(w: nat, k: nat)
    ensures 0 <= w - UpBits(DownBits(w, k), k) < Pow2(k)
  {
    if k > 0 {
      DownBitsLow(w / 2, k - 1);
    }
  }

  /** A word is q * 2^c + r; shifted left by b = 32 - c, the q part leaves the word. */
  lemma ShiftedParts(w: word, c: nat, b: nat, q: nat, r: nat)
    requires b + c == 32 && w == UpBits(q, c) + r && r < Pow2(c)
    ensures 0 <= UpBits(r, b) && UpBits(r + 1, b) <= BASE
    ensures UpBits(w, b) == q * BASE + UpBits(r, b)
  {
    UpBitsUpBits(q, c, b);
    UpBitsWord(q);
    UpBitsAdd(UpBits(q, c), r, b);
    UpBitsPositive(r, b);
    UpBitsMono(r + 1, Pow2(c), b);
    UpBitsUpBits(1, c, b);
    Pow2Word();
  }

  lemma ShiftedOutSmall(w: word, c: nat, b: nat, q: nat)
    requires b + c == 32 && UpBits(q, c) <= w
    ensures q < Pow2(b)
  {
    if q >= Pow2(b) {
      UpBitsUpBits(1, b, c);
      UpBitsMono(Pow2(b), q, c);
      Pow2Word();
    }
  }

  /** One word shifted left by b bits, with the bits carried in and out. */
  lemma ShiftLeftWord(w: word, b: nat, carry: nat)
    requires 0 < b < 32 && carry < Pow2(b)
    ensures var low, high := UpBits(w, b) % BASE, DownBits(w, 32 - b);
            && low + carry < BASE && Or(low, carry) == low + carry
            && high < Pow2(b)
            && UpBits(w, b) + carry == (low + carry) + high * BASE
  {
    var q := DownBits(w, 32 - b);
    var r := w - UpBits(q, 32 - b);
    DownBitsLow(w, 32 - b);
    ShiftedParts(w, 32 - b, b, q, r);
    ShiftedOutSmall(w, 32 - b, b, q);
    UpBitsAdd(r, 1, b);
    RemainderOf(UpBits(w, b), q, UpBits(r, b));
    OrDisjoint(r, carry, b);
  }

  lemma RemainderOf(x: int, q: int, r: int)
    requires x == q * BASE + r && 0 <= r < BASE
    ensures x % BASE == r
  {}

  lemma ShiftLeftStep(m: seq<word>, s: seq<word>, i: nat, b: nat, carry: nat, carry': nat)
    requires i < |m| && i < |s|
    requires UpBits(Val(m[..i]), b) == Val(s[..i]) + Up(carry, i)
    requires UpBits(m[i], b) + carry == s[i] + carry' * BASE
    ensures UpBits(Val(m[..i + 1]), b) == Val(s[..i + 1]) + Up(carry', i + 1)
  {
    ValSnoc(m, i);
    ValSnoc(s, i);
    var w: int, d: int := m[i], s[i];
    UpBitsAdd(Val(m[..i]), Up(w, i), b);
    UpBitsOfUp(w, b, i);
    UpAdd(UpBits(w, b), carry, i);
    UpAdd(d, BASE * carry', i);
    UpBase(carry', i);
  }

  lemma {:induction false} UpBitsOfUp(d: int, b: nat, n: nat)
    ensures UpBits(Up(d, n), b) == Up(UpBits(d, b), n)
  {
    UpIsUpBits(d, n);
    UpIsUpBits(UpBits(d, b), n);
    UpBitsUpBits(d, 32 * n, b);
    UpBitsUpBits(d, b, 32 * n);
  }

  /** The words of mod shifted left by bitShift into multiple[n..]; the carry out is returned. */
  method ShiftLeft(multiple: array<word>, mod: array<word>, n: nat, bitShift: nat) returns (carry: word)
    requires n <= mod.Length && multiple.Length == 2 * n && multiple != mod && 0 < bitShift < 32
    modifies multiple
    ensures UpBits(Val(mod[..n]), bitShift) == Val(multiple[n..]) + Up(carry, n)
    ensures forall j :: 0 <= j < n ==> multiple[j] == old(multiple[j])
  {
    hide Val, Up, UpBits;
    ghost var m := mod[..n];
    carry := 0;
    UpBitsPositive(0, bitShift);
    NoWords();
    assert m[..0] == [] && multiple[n..][..0] == [];
    for i := 0 to n
      invariant carry < Pow2(bitShift)
      invariant UpBits(Val(m[..i]), bitShift) == Val(multiple[n..][..i]) + Up(carry, i)
      invariant forall j :: 0 <= j < n ==> multiple[j] == old(multiple[j])
    {
      ShiftLeftWord(mod[i], bitShift, carry);
      UpBitsPositive(mod[i], bitShift);
      ghost var below, carryIn := multiple[n..][..i], carry;
      multiple[n + i] := OrWord(UpBits(mod[i], bitShift) % BASE, carry);
      carry := DownBits(mod[i], 32 - bitShift);
      assert multiple[n..][..i] == below;
      ShiftLeftStep(m, multiple[n..], i, bitShift, carryIn, carry);
    }
    assert m[..n] == m && multiple[n..][..n] == multiple[n..];
  }

  /** The words of mod moved to multiple[n..], bitShift bits up, when none leave the top. */
  method MoveUp(multiple: array<word>, mod: array<word>, n: nat, bitShift: nat)
    requires n <= mod.Length && multiple.Length == 2 * n && multiple != mod && bitShift < 32
    requires UpBits(Val(mod[..n]), bitShift) < Exp(n)
    modifies multiple
    ensures Val(multiple[n..]) == UpBits(Val(mod[..n]), bitShift)
    ensures forall j :: 0 <= j < n ==> multiple[j] == old(multiple[j])
  {
    hide Val, Up;
    if bitShift > 0 {
      var carry := ShiftLeft(multiple, mod, n, bitShift);
      NoCarryOut(Val(multiple[n..]), carry, n);
    } else {
      Set(multiple, n, mod, 0, n);
      assert multiple[n..n + n] == multiple[n..];
      assert mod[0..0 + n] == mod[..n];
    }
  }

  lemma NoCarryOut(low: nat, carry: nat, n: nat)
    requires low + Up(carry, n) < Exp(n)
    ensures carry == 0 && Up(carry, n) == 0
  {
    UpPositive(carry, n);
    if carry > 0 {
      UpMono(1, carry, n);
    }
  }

  /** The opening of uECC_vli_mmod: mod moved up until its top bit is bit 64 * n - 1. */
  method AlignMod(mod: array<word>, n: nat) returns (multiple: array<word>, shift: nat)
    requires 0 < n <= mod.Length && mod[n - 1] != 0
    ensures fresh(multiple) && multiple.Length == 2 * n
    ensures Val(multiple[..]) == UpBits(Val(mod[..n]), shift)
    ensures Exp(2 * n) <= 2 * Val(multiple[..])
  {
    hide Val, Up, UpBits;
    multiple := new word[2 * n];
    var bits := NumBits(mod, n);
    TopWordBits(mod[..n], bits);
    shift := 2 * n * 32 - bits;
    var wordShift, bitShift := shift / 32, shift % 32;
    WholeWords(n, bits, shift);
    Clear(multiple, 0, wordShift);
    ghost var m := Val(mod[..n]);
    AlignedFits(m, n, bits);
    MoveUp(multiple, mod, n, bitShift);
    ValZeros(multiple[..n]);
    assert multiple[..][..n] == multiple[..n] && multiple[..][n..] == multiple[n..];
    ValSplit(multiple[..], n);
    AlignedValue(m, n, bits);
  }

  lemma WholeWords(n: nat, bits: nat, shift: nat)
    requires 32 * (n - 1) < bits <= 32 * n && shift == 2 * n * 32 - bits
    ensures shift / 32 == n && shift % 32 == 32 * n - bits
  {
    assert shift == 32 * n + (32 * n - bits);
  }

  /** A number whose top word is not zero needs more bits than the words below hold. */
  lemma TopWordBits(s: seq<word>, bits: nat)
    requires |s| > 0 && s[|s| - 1] != 0 && Val(s) < Pow2(bits) && bits <= 32 * |s|
    ensures bits > 32 * (|s| - 1)
  {
    var n := |s|;
    UpMono(1, s[n - 1], n - 1);
    UpIsUpBits(1, n - 1);
    if bits <= 32 * (n - 1) {
      Pow2Mono(bits, 32 * (n - 1));
    }
  }

  lemma AlignedFits(m: nat, n: nat, bits: nat)
    requires bits <= 32 * n && m < Pow2(bits)
    ensures 0 <= UpBits(m, 32 * n - bits) < Exp(n)
  {
    var b := 32 * n - bits;
    UpBitsPositive(m, b);
    UpBitsAdd(m, 1, b);
    UpBitsPositive(1, b);
    UpBitsMono(m + 1, Pow2(bits), b);
    UpBitsUpBits(1, bits, b);
    UpIsUpBits(1, n);
  }

  lemma AlignedValue(m: nat, n: nat, bits: nat)
    requires 0 < bits <= 32 * n && Pow2(bits - 1) <= m
    ensures Up(UpBits(m, 32 * n - bits), n) == UpBits(m, 2 * n * 32 - bits)
    ensures Exp(2 * n) <= 2 * UpBits(m, 2 * n * 32 - bits)
  {
    var b := 32 * n - bits;
    UpIsUpBits(UpBits(m, b), n);
    UpBitsUpBits(m, b, 32 * n);
    UpBitsMono(Pow2(bits - 1), m, b + 32 * n);
    UpBitsUpBits(1, bits - 1, b + 32 * n);
    UpIsUpBits(1, 2 * n);
  }

  /** mod_multiple >>= 1, done on its two halves. */
  method HalveMultiple(multiple: array<word>, n: nat)
    requires 0 < n && multiple.Length == 2 * n
    modifies multiple
    ensures Val(multiple[..]) == old(Val(multiple[..])) / 2
  {
    hide Val, Up;
    ghost var low, high := multiple[..n], multiple[n..];
    ValSplit(multiple[..], n);
    ValBound(low);
    ValHead(high);
    assert low == multiple[0..0 + n];
    Rshift1(multiple, 0, n);
    assert multiple[..n] == multiple[0..0 + n] && multiple[n..] == high;
    LowBitUp(multiple[n]);
    UpBase(1, n - 1);
    UpHalf(n - 1);
    OrTopBit(multiple, n, (multiple[n] * HALF) % BASE);
    ghost var low' := multiple[..n];
    assert multiple[n..n + n] == high;
    Rshift1(multiple, n, n);
    assert multiple[..n] == low' && multiple[n..] == multiple[n..n + n];
    ValSplit(multiple[..], n);
    HalvesJoin(Val(low), Val(high), n);
  }

  lemma {:induction false} UpHalf(n: nat)
    ensures 2 * Up(HALF, n) == Up(1, n + 1)
  {
    UpAdd(HALF, HALF, n);
    UpBase(1, n);
  }

  lemma HalvesJoin(low: nat, high: nat, n: nat)
    requires n > 0
    ensures (low + Up(high, n)) / 2 == low / 2 + (if high % 2 == 0 then 0 else Up(HALF, n - 1)) + Up(high / 2, n)
  {
    UpAdd(2 * (high / 2), high % 2, n);
    UpAdd(high / 2, high / 2, n);
    UpHalf(n - 1);
    UpPositive(0, n);
  }

  /** Subtracting the multiple when nothing is borrowed keeps the residue and halves the bound. */
  lemma ReduceStep(x: nat, d: nat, diff: nat, borrow: word, n: nat, m: nat, shift: nat)
    requires x < Exp(n) && diff < Exp(n) && d < Exp(n) && borrow <= 1 && diff + d == x + Up(borrow, n)
    requires d == UpBits(m, shift) && x < 2 * d
    ensures borrow == 0 ==> diff < d && Cong(diff, x, m)
    ensures borrow != 0 ==> x < d
  {
    UpPositive(0, n);
    if borrow == 0 {
      UpBitsMul(m, 1, shift);
      Negate(m, Pow2(shift));
      CongFrom(diff, x, m, -(Pow2(shift) as int));
    }
  }

  lemma Negate(m: int, p: int)
    ensures -(m * p) == (-p) * m
  {}

  /** One round of uECC_vli_mmod: subtract, swap the index when nothing was borrowed, halve the multiple.
      The loop that subtracts is uECC_vli_sub written out. */
  method ReduceRound(v: seq<array<word>>, index: nat, multiple: array<word>, n: nat, ghost m: nat, ghost shift: nat)
    returns (next: nat)
    requires |v| == 2 && index <= 1 && v[0] != v[1] && multiple != v[0] && multiple != v[1]
    requires 0 < n && 2 * n <= v[0].Length && 2 * n <= v[1].Length && multiple.Length == 2 * n
    requires Val(multiple[..]) == UpBits(m, shift) && Val(v[index][..2 * n]) < 2 * UpBits(m, shift)
    modifies v[0], v[1], multiple
    ensures next <= 1
    ensures Val(multiple[..]) == UpBits(m, shift) / 2
    ensures Val(v[next][..2 * n]) < UpBits(m, shift)
    ensures Cong(Val(v[next][..2 * n]), old(Val(v[index][..2 * n])), m)
  {
    ghost var x, d := Val(v[index][..2 * n]), Val(multiple[..]);
    ValBound(v[index][..2 * n]);
    ValBound(multiple[..]);
    assert multiple[..2 * n] == multiple[..];
    var borrow := Sub(v[1 - index], v[index], multiple, 2 * n);
    ValBound(v[1 - index][..2 * n]);
    ReduceStep(x, d, Val(v[1 - index][..2 * n]), borrow, 2 * n, m, shift);
    CongRefl(x, m);
    next := if borrow == 0 then 1 - index else index;
    HalveMultiple(multiple, n);
  }

  lemma DoubleUpBits(m: nat, shift: nat)
    ensures UpBits(m, shift + 1) == 2 * UpBits(m, shift)
    ensures if shift == 0 then UpBits(m, shift) == m else UpBits(m, shift) / 2 == UpBits(m, shift - 1)
  {}

  /** The loop of uECC_vli_mmod, the remainder alternating between the two arrays. */
  method ReduceLoop(v: seq<array<word>>, multiple: array<word>, n: nat, top: nat, ghost m: nat) returns (index: nat)
    requires |v| == 2 && v[0] != v[1] && multiple != v[0] && multiple != v[1]
    requires 0 < n && 2 * n <= v[0].Length && 2 * n <= v[1].Length && multiple.Length == 2 * n
    requires Val(multiple[..]) == UpBits(m, top) && Val(v[1][..2 * n]) < 2 * UpBits(m, top)
    modifies v[0], v[1], multiple
    ensures index <= 1 && Val(v[index][..2 * n]) < m
    ensures Cong(Val(v[index][..2 * n]), old(Val(v[1][..2 * n])), m)
  {
    hide Val, UpBits;
    ghost var whole := Val(v[1][..2 * n]);
    index := 1;
    var shift: int := top;
    CongRefl(whole, m);
    DoubleUpBits(m, top);
    DoubleUpBits(m, 0);
    while shift >= 0
      invariant -1 <= shift && 0 <= index <= 1
      invariant shift >= 0 ==> Val(multiple[..]) == UpBits(m, shift)
      invariant Val(v[index][..2 * n]) < UpBits(m, shift + 1)
      invariant Cong(Val(v[index][..2 * n]), whole, m)
    {
      ghost var x := Val(v[index][..2 * n]);
      DoubleUpBits(m, shift);
      index := ReduceRound(v, index, multiple, n, m, shift);
      CongTrans(Val(v[index][..2 * n]), x, whole, m);
      shift := shift - 1;
    }
  }

  /** uECC_vli_mmod: shift and subtract. */
  method Mmod(result: array<word>, product: array<word>, mod: array<word>, n: nat)
    requires 0 < n <= result.Length && 2 * n <= product.Length && n <= mod.Length
    requires result != mod && product != mod
    requires mod[n - 1] != 0
    modifies result, product
    ensures Val(mod[..n]) > 0
    ensures Val(result[..n]) == old(Val(product[..2 * n])) % Val(mod[..n])
    ensures result != product ==> forall j :: n <= j < result.Length ==> result[j] == old(result[j])
  {
    hide Val, UpBits;
    ghost var m, whole := Val(mod[..n]), Val(product[..2 * n]);
    ValPositive(mod[..n], n - 1);
    var multiple, top := AlignMod(mod, n);
    var tmp := new word[2 * n];
    var v := [tmp, product];
    ValBound(product[..2 * n]);
    var index := ReduceLoop(v, multiple, n, top, m);
    CongIsMod(Val(v[index][..2 * n]), whole, m);
    ValBound(mod[..n]);
    ValLow(v[index][..2 * n], n);
    assert v[index][..2 * n][..n] == v[index][0..0 + n];
    Set(result, 0, v[index], 0, n);
    assert result[0..0 + n] == result[..n];
  }
}
