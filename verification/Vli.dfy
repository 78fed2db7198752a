/** The word-array routines of micro-ecc: loops with manual carries, in place. */
module Vli {
  import opened Words

  /** uECC_vli_clear on the n words from position at. */
  method Clear(vli: array<word>, at: nat, n: nat)
    requires at + n <= vli.Length
    modifies vli
    ensures forall j :: at <= j < at + n ==> vli[j] == 0
    ensures forall j :: 0 <= j < vli.Length && !(at <= j < at + n) ==> vli[j] == old(vli[j])
    ensures Val(vli[at..at + n]) == 0
  {
    for i := 0 to n
      invariant forall j :: at <= j < at + i ==> vli[j] == 0
      invariant forall j :: 0 <= j < vli.Length && !(at <= j < at + i) ==> vli[j] == old(vli[j])
    {
      vli[at + i] := 0;
    }
    ValZeros(vli[at..at + n]);
  }

  /** uECC_vli_set: dest[to..] takes n words of src[from..]. */
  method Set(dest: array<word>, to: nat, src: array<word>, from: nat, n: nat)
    requires to + n <= dest.Length && from + n <= src.Length
    requires dest != src || to == from
    modifies dest
    ensures dest[to..to + n] == old(src[from..from + n])
    ensures forall j :: 0 <= j < dest.Length && !(to <= j < to + n) ==> dest[j] == old(dest[j])
  {
    ghost var s := src[from..from + n];
    for i := 0 to n
      invariant dest[to..to + i] == s[..i]
      invariant src[from + i..from + n] == s[i..]
      invariant forall j :: 0 <= j < dest.Length && !(to <= j < to + i) ==> dest[j] == old(dest[j])
    {
      ghost var before := dest[to..to + i];
      assert src[from + i] == s[i] by { assert src[from + i..from + n][0] == s[i..][0]; }
      ghost var tail := src[from + i..from + n][1..];
      dest[to + i] := src[from + i];
      assert dest[to..to + i + 1] == before + [dest[to + i]];
      assert src[from + i + 1..from + n] == tail;
    }
  }

  /** uECC_vli_isZero: gathers all bits with or. */
  method IsZero(vli: array<word>, n: nat) returns (zero: bool)
    requires n <= vli.Length
    ensures zero <==> Val(vli[..n]) == 0
  {
    var bits: word := 0;
    for i := 0 to n
      invariant bits == 0 <==> forall j :: 0 <= j < i ==> vli[j] == 0
    {
      OrIsZero(bits, vli[i]);
      bits := OrWord(bits, vli[i]);
    }
    zero := bits == 0;
    if zero {
      ValZeros(vli[..n]);
    } else {
      var j :| 0 <= j < n && vli[j] != 0;
      ValPositive(vli[..n], j);
    }
  }

  // ---------- Bits ----------

  /** Bit number k of a natural number. */
  predicate Bit(v: nat, k: nat) {
    if k == 0 then v % 2 == 1 else Bit(v / 2, k - 1)
  }

  lemma {:induction false} BitOfSum(low: nat, high: nat, k: nat, b: nat)
    requires low < Pow2(k)
    ensures UpBits(high, k) >= 0
    ensures Bit(low + UpBits(high, k), k + b) == Bit(high, b)
    ensures b < k ==> Bit(low + UpBits(high, k), b) == Bit(low, b)
    decreases k
  {
    UpBitsPositive(high, k);
    if k > 0 {
      UpBitsPositive(high, k - 1);
      HalfOfSum(low, UpBits(high, k - 1));
      BitOfSum(low / 2, high, k - 1, b);
      if 0 < b < k {
        BitOfSum(low / 2, high, k - 1, b - 1);
      }
    }
  }

  lemma HalfOfSum(low: nat, h: nat)
    ensures (low + 2 * h) / 2 == low / 2 + h && (low + 2 * h) % 2 == low % 2
  {}

  lemma BitPastWords(s: seq<word>, q: nat, b: nat)
    requires q < |s|
    ensures Bit(Val(s), 32 * q + b) == Bit(Val(s[q..]), b)
  {
    ValSplit(s, q);
    ValBound(s[..q]);
    UpIsUpBits(1, q);
    UpIsUpBits(Val(s[q..]), q);
    BitOfSum(Val(s[..q]), Val(s[q..]), 32 * q, b);
  }

  lemma BitInLowWord(s: seq<word>, b: nat)
    requires |s| > 0 && b < 32
    ensures Bit(Val(s), b) == Bit(s[0], b)
  {
    ValHead(s);
    UpBitsWord(Val(s[1..]));
    Pow2Word();
    BitOfSum(s[0], Val(s[1..]), 32, b);
  }

  lemma BitOfWord(s: seq<word>, bit: nat)
    requires bit / 32 < |s|
    ensures Bit(Val(s), bit) == Bit(s[bit / 32], bit % 32)
  {
    BitPastWords(s, bit / 32, bit % 32);
    BitInLowWord(s[bit / 32..], bit % 32);
  }

  /** uECC_vli_testBit: nonzero exactly when the bit is set. */
  method TestBit(vli: array<word>, bit: nat) returns (r: word)
    requires bit / 32 < vli.Length
    ensures r != 0 <==> Bit(Val(vli[..]), bit)
  {
    var b := bit % 32;
    Pow2Mono(b, 31);
    Pow2Word();
    r := if Bit(vli[bit / 32], b) then Pow2(b) else 0;
    BitOfWord(vli[..], bit);
  }

  /** vli_numDigits: the words up to and including the highest nonzero one. */
  method NumDigits(vli: array<word>, maxWords: nat) returns (digits: nat)
    requires maxWords <= vli.Length
    ensures digits <= maxWords
    ensures Val(vli[..maxWords]) == Val(vli[..digits])
    ensures digits > 0 ==> vli[digits - 1] != 0
  {
    digits := maxWords;
    while digits > 0 && vli[digits - 1] == 0
      invariant 0 <= digits <= maxWords
      invariant Val(vli[..maxWords]) == Val(vli[..digits])
    {
      ValSnoc(vli[..], digits - 1);
      UpPositive(0, digits - 1);
      assert vli[..][..digits] == vli[..digits] && vli[..][..digits - 1] == vli[..digits - 1];
      digits := digits - 1;
    }
  }

  lemma {:induction false} BitsBetween(top: nat, digit: nat, i: nat)
    requires UpBits(digit, i) <= top < UpBits(digit + 1, i)
    ensures UpBits(digit / 2, i + 1) <= top < UpBits(digit / 2 + 1, i + 1)
  {
    UpBitsUpBits(digit / 2, 1, i);
    UpBitsUpBits(digit / 2 + 1, 1, i);
    assert UpBits(digit / 2, 1) == 2 * (digit / 2);
    assert UpBits(digit / 2 + 1, 1) == 2 * (digit / 2) + 2;
    UpBitsMono(2 * (digit / 2), digit, i);
    UpBitsMono(digit + 1, 2 * (digit / 2) + 2, i);
  }

  /** uECC_vli_numBits: the position just above the highest set bit. */
  method NumBits(vli: array<word>, maxWords: nat) returns (bits: nat)
    requires maxWords <= vli.Length
    ensures Val(vli[..maxWords]) < Pow2(bits)
    ensures bits > 0 ==> Pow2(bits - 1) <= Val(vli[..maxWords])
    ensures bits <= 32 * maxWords
  {
    var digits := NumDigits(vli, maxWords);
    if digits == 0 {
      return 0;
    }
    var digit := vli[digits - 1];
    ghost var top := digit;
    var i := 0;
    while digit != 0
      invariant UpBits(digit, i) <= top < UpBits(digit as int + 1, i)
      invariant i > 0 ==> Pow2(i - 1) <= top
      invariant digit != 0 || i > 0
      decreases digit
    {
      BitsBetween(top, digit, i);
      UpBitsMono(1, digit, i);
      digit := digit / 2;
      i := i + 1;
    }
    bits := 32 * (digits - 1) + i;
    WordBits(top, i);
    TopDigitBits(vli[..digits - 1], top, i);
    ValSnoc(vli[..], digits - 1);
    assert vli[..][..digits] == vli[..digits] && vli[..][..digits - 1] == vli[..digits - 1];
  }

  lemma WordBits(top: word, i: nat)
    requires i > 0 ==> Pow2(i - 1) <= top
    ensures i <= 32
  {
    Pow2Word();
    if i > 32 {
      Pow2Mono(32, i - 1);
    }
  }

  lemma TopDigitBits(low: seq<word>, top: word, i: nat)
    requires i > 0 && Pow2(i - 1) <= top < Pow2(i)
    ensures Pow2(32 * |low| + i - 1) <= Val(low) + Up(top, |low|) < Pow2(32 * |low| + i)
  {
    hide Val, Up, UpBits;
    var n := |low|;
    var w: int := top;
    ValBound(low);
    UpAdd(w, 1, n);
    UpMono(Pow2(i - 1), w, n);
    UpMono(w + 1, Pow2(i), n);
    UpIsUpBits(Pow2(i - 1), n);
    UpIsUpBits(Pow2(i), n);
    UpBitsUpBits(1, i - 1, 32 * n);
    UpBitsUpBits(1, i, 32 * n);
  }

  // ---------- Comparison, addition, subtraction, shifting ----------

  function Sign(a: int, b: int): int {
    if a > b then 1 else if a < b then -1 else 0
  }

  /** uECC_vli_cmp_unsafe: scans from the top word. */
  method CmpUnsafe(left: array<word>, right: array<word>, n: nat) returns (r: int)
    requires n <= left.Length && n <= right.Length
    ensures r == Sign(Val(left[..n]), Val(right[..n]))
  {
    var i := n;
    while i > 0
      invariant 0 <= i <= n
      invariant left[i..n] == right[i..n]
    {
      i := i - 1;
      assert left[..n][i + 1..] == left[i + 1..n] && right[..n][i + 1..] == right[i + 1..n];
      if left[i] > right[i] {
        ValLess(right[..n], left[..n], i);
        return 1;
      } else if left[i] < right[i] {
        ValLess(left[..n], right[..n], i);
        return -1;
      }
    }
    assert left[..n] == left[0..n] && right[..n] == right[0..n];
    return 0;
  }

  /** One more word of the schoolbook sum l + r = s, with its carry. */
  lemma AddWord(l: seq<word>, r: seq<word>, s: seq<word>, i: nat, carry: word, carry': word)
    requires i < |l| && i < |r| && i < |s|
    requires l[i] + r[i] + carry == s[i] + carry' * BASE
    requires Val(l[..i]) + Val(r[..i]) == Val(s[..i]) + Up(carry, i)
    ensures Val(l[..i + 1]) + Val(r[..i + 1]) == Val(s[..i + 1]) + Up(carry', i + 1)
  {
    ValSnoc(l, i);
    ValSnoc(r, i);
    ValSnoc(s, i);
    var a: int, b: int, c: int, d: int, c': int := l[i], r[i], carry, s[i], carry';
    UpAdd(a, b, i);
    UpAdd(a + b, c, i);
    UpAdd(d, BASE * c', i);
    UpBase(c', i);
  }

  /** uECC_vli_add with the right operand starting at word from; result may be left or, when from is 0, right. */
  method AddFrom(result: array<word>, left: array<word>, right: array<word>, from: nat, n: nat) returns (carry: word)
    requires n <= result.Length && n <= left.Length && from + n <= right.Length
    requires result != right || from == 0
    modifies result
    ensures carry <= 1
    ensures Val(result[..n]) + Up(carry, n) == old(Val(left[..n]) + Val(right[from..from + n]))
    ensures forall j :: n <= j < result.Length ==> result[j] == old(result[j])
  {
    hide Val, Up;
    carry := 0;
    NoWords();
    ghost var l, r := left[..n], right[from..from + n];
    assert result[..0] == [] && l[..0] == [] && r[..0] == [];
    for i := 0 to n
      invariant carry <= 1
      invariant Val(l[..i]) + Val(r[..i]) == Val(result[..i]) + Up(carry, i)
      invariant forall j :: i <= j < result.Length ==> result[j] == old(result[j])
      invariant left[i..n] == l[i..] && right[from + i..from + n] == r[i..]
    {
      assert left[i] == l[i] by { assert left[i..n][0] == l[i..][0]; }
      assert right[from + i] == r[i] by { assert right[from + i..from + n][0] == r[i..][0]; }
      ghost var restL, restR := left[i..n][1..], right[from + i..from + n][1..];
      var sum: word := (left[i] + right[from + i] + carry) % BASE;
      ghost var carryIn := carry;
      if sum != left[i] {
        carry := if sum < left[i] then 1 else 0;
      }
      ghost var before := result[..i];
      result[i] := sum;
      assert result[..][..i] == before && result[..][..i + 1] == result[..i + 1];
      assert left[i + 1..n] == restL && right[from + i + 1..from + n] == restR;
      AddWord(l, r, result[..], i, carryIn, carry);
    }
    assert l[..n] == l && r[..n] == r;
  }

  /** uECC_vli_add: result may be left or right; the final carry is returned. */
  method Add(result: array<word>, left: array<word>, right: array<word>, n: nat) returns (carry: word)
    requires n <= result.Length && n <= left.Length && n <= right.Length
    modifies result
    ensures carry <= 1
    ensures Val(result[..n]) + Up(carry, n) == old(Val(left[..n]) + Val(right[..n]))
    ensures forall j :: n <= j < result.Length ==> result[j] == old(result[j])
  {
    assert right[0..0 + n] == right[..n];
    carry := AddFrom(result, left, right, 0, n);
  }

  /** uECC_vli_sub: result may be left or right; the final borrow is returned. */
  method Sub(result: array<word>, left: array<word>, right: array<word>, n: nat) returns (borrow: word)
    requires n <= result.Length && n <= left.Length && n <= right.Length
    modifies result
    ensures borrow <= 1
    ensures Val(result[..n]) + old(Val(right[..n])) == old(Val(left[..n])) + Up(borrow, n)
    ensures forall j :: n <= j < result.Length ==> result[j] == old(result[j])
  {
    hide Val, Up;
    borrow := 0;
    NoWords();
    ghost var l, r := left[..], right[..];
    assert result[..0] == [] && l[..0] == [] && r[..0] == [];
    for i := 0 to n
      invariant borrow <= 1
      invariant Val(result[..i]) + Val(r[..i]) == Val(l[..i]) + Up(borrow, i)
      invariant forall j :: i <= j < result.Length ==> result[j] == old(result[j])
      invariant forall j :: i <= j < n ==> left[j] == l[j] && right[j] == r[j]
    {
      var diff: word := (left[i] - right[i] - borrow) % BASE;
      ghost var borrowIn := borrow;
      if diff != left[i] {
        borrow := if diff > left[i] then 1 else 0;
      }
      ghost var before := result[..i];
      result[i] := diff;
      assert result[..][..i] == before && result[..][..i + 1] == result[..i + 1];
      AddWord(result[..], r, l, i, borrowIn, borrow);
    }
    assert l[..n] == old(left[..n]) && r[..n] == old(right[..n]);
  }

  /** uECC_vli_cmp: the constant-time comparison, by subtraction. */
  method Cmp(left: array<word>, right: array<word>, n: nat) returns (r: int)
    requires n <= left.Length && n <= right.Length
    ensures r == Sign(Val(left[..n]), Val(right[..n]))
  {
    var tmp := new word[n];
    ValBound(left[..n]);
    ValBound(right[..n]);
    var borrow := Sub(tmp, left, right, n);
    var zero := IsZero(tmp, n);
    ValBound(tmp[..n]);
    UpPositive(0, n);
    r := (if zero then 0 else 1) - 2 * (if borrow != 0 then 1 else 0);
  }

  /** A word shifted right by one, or-ed with the bit moved in from above. */
  function ShiftedWord(w: word, moved: word): (r: word)
    requires moved == 0 || moved == HALF
    ensures r == w / 2 + moved
  {
    OrTop(w / 2, moved);
    OrWord(w / 2, moved)
  }

  lemma LowBitUp(w: word)
    ensures (w * HALF) % BASE == (w % 2) * HALF
  {
    DivUnique(w * HALF, BASE, w / 2, (w % 2) * HALF);
  }

  lemma ShiftDown(s: seq<word>, t: seq<word>, low: int)
    requires |s| == |t| > 0
    requires Val(s[1..]) == 2 * Val(t[1..]) + low
    requires t[0] == s[0] / 2 + low * HALF
    ensures Val(s) == 2 * Val(t) + s[0] % 2
  {
    ValHead(s);
    ValHead(t);
  }

  lemma NoWords()
    ensures Val([]) == 0 && Up(0, 0) == 0
  {}

  /** The words above i shifted, then word i: what is moved out of the shifted part is its low bit. */
  lemma ShiftDownStep(s: seq<word>, above: seq<word>, w: word, i: nat, low: int)
    requires i < |s| && |above| == |s| - i - 1
    requires Val(s[i + 1..]) == 2 * Val(above) + low && w == s[i] / 2 + low * HALF
    ensures Val(s[i..]) == 2 * Val([w] + above) + s[i] % 2
    ensures (s[i] * HALF) % BASE == (s[i] % 2) * HALF
  {
    hide Val;
    assert s[i..][1..] == s[i + 1..];
    assert ([w] + above)[1..] == above;
    ShiftDown(s[i..], [w] + above, low);
    LowBitUp(s[i]);
  }

  /** uECC_vli_rshift1 on the n words from position at. */
  method Rshift1(vli: array<word>, at: nat, n: nat)
    requires at + n <= vli.Length
    modifies vli
    ensures Val(vli[at..at + n]) == old(Val(vli[at..at + n])) / 2
    ensures forall j :: 0 <= j < vli.Length && !(at <= j < at + n) ==> vli[j] == old(vli[j])
  {
    hide Val, ShiftedWord;
    ghost var s := vli[at..at + n];
    var carry: word := 0;
    var i := n;
    ghost var low := 0;
    NoWords();
    assert s[n..] == [] && vli[at + n..at + n] == [];
    // the words from i up, once shifted: twice them plus the bit moved out is what they were
    while i > 0
      invariant 0 <= i <= n && 0 <= low <= 1 && carry == low * HALF
      invariant Val(s[i..]) == 2 * Val(vli[at + i..at + n]) + low
      invariant forall j :: 0 <= j < at + i ==> vli[j] == old(vli[j])
      invariant forall j :: at + n <= j < vli.Length ==> vli[j] == old(vli[j])
    {
      i := i - 1;
      var temp := vli[at + i];
      ghost var above := vli[at + i + 1..at + n];
      vli[at + i] := ShiftedWord(temp, carry);
      assert vli[at + i..at + n] == [vli[at + i]] + above;
      ShiftDownStep(s, above, vli[at + i], i, low);
      carry := (temp * HALF) % BASE;
      low := temp % 2;
    }
    assert s[0..] == s;
  }

  /** The top word of a number below half the range is below half a word. */
  lemma TopWordSmall(s: seq<word>)
    requires |s| > 0 && Val(s) < Up(HALF, |s| - 1)
    ensures s[|s| - 1] < HALF
  {
    if s[|s| - 1] >= HALF {
      UpMono(HALF, s[|s| - 1], |s| - 1);
    }
  }

  lemma AddToTop(s: seq<word>, w: word)
    requires |s| > 0 && w == s[|s| - 1] + HALF
    ensures Val(s[|s| - 1 := w]) == Val(s) + Up(HALF, |s| - 1)
  {
    var k := |s| - 1;
    assert s[k := w][..k] == s[..k];
    UpAdd(s[k], HALF, k);
  }

  /** vli[n - 1] |= bit, for the bit a right shift left empty. */
  method OrTopBit(vli: array<word>, n: nat, bit: word)
    requires 0 < n <= vli.Length && (bit == 0 || bit == HALF)
    requires Val(vli[..n]) < Up(HALF, n - 1)
    modifies vli
    ensures Val(vli[..n]) == old(Val(vli[..n])) + (if bit == 0 then 0 else Up(HALF, n - 1))
    ensures forall j :: 0 <= j < vli.Length && j != n - 1 ==> vli[j] == old(vli[j])
  {
    ghost var s := vli[..n];
    TopWordSmall(s);
    OrTop(vli[n - 1], bit);
    vli[n - 1] := OrWord(vli[n - 1], bit);
    assert vli[..n] == s[n - 1 := vli[n - 1]];
    if bit == 0 {
      assert vli[..n] == s;
    } else {
      AddToTop(s, vli[n - 1]);
    }
  }
}
