/** uECC_vli_modInv: the binary inversion, its result and its number of rounds. */
module ModInverse {
  import opened Words
  import opened Vli
  import opened VliMod
  import opened Congruence

  // ---------- The computation on numbers ----------

  /** Half of u modulo an odd m. */
  function HalveMod(u: nat, m: nat): nat {
    if u % 2 == 0 then u / 2 else (u + m) / 2
  }

  datatype Quad = Quad(a: nat, b: nat, u: nat, v: nat)

  predicate Reduced(s: Quad, m: nat) {
    s.a > 0 && s.b > 0 && s.u < m && s.v < m && m % 2 == 1
  }

  function Round(s: Quad, m: nat): (t: Quad)
    requires Reduced(s, m) && s.a != s.b
    ensures Reduced(t, m) && t.a + t.b < s.a + s.b
  {
    if s.a % 2 == 0 then s.(a := s.a / 2, u := HalveMod(s.u, m))
    else if s.b % 2 == 0 then s.(b := s.b / 2, v := HalveMod(s.v, m))
    else if s.a > s.b then s.(a := (s.a - s.b) / 2, u := HalveMod(SubMod(s.u, s.v, m), m))
    else s.(b := (s.b - s.a) / 2, v := HalveMod(SubMod(s.v, s.u, m), m))
  }

  function Final(s: Quad, m: nat): (t: Quad)
    requires Reduced(s, m)
    ensures Reduced(t, m) && t.a == t.b
    decreases s.a + s.b
  {
    if s.a == s.b then s else Final(Round(s, m), m)
  }

  function Rounds(s: Quad, m: nat): nat
    requires Reduced(s, m)
    decreases s.a + s.b
  {
    if s.a == s.b then 0 else 1 + Rounds(Round(s, m), m)
  }

  function Start(input: nat, m: nat): Quad {
    Quad(input, m, 1, 0)
  }

  /** The residue uECC_vli_modInv computes. */
  function Inverse(input: nat, m: nat): (r: nat)
    requires m > 1 && m % 2 == 1
    ensures r < m
  {
    if input == 0 then 0 else Final(Start(input, m), m).u
  }

  // ---------- Its meaning ----------

  ghost predicate Divides(d: int, x: int) {
    Cong(x, 0, d)
  }

  ghost predicate IsGcd(g: int, x: int, y: int) {
    && g > 0 && Divides(g, x) && Divides(g, y)
    && forall d :: d > 0 && Divides(d, x) && Divides(d, y) ==> Divides(d, g)
  }

  lemma Parity(d: int, k: int)
    ensures (d * k) % 2 == 1 <==> d % 2 == 1 && k % 2 == 1
  {
    var r, bit := k / 2, k % 2;
    assert d * k == 2 * (d * r) + d * bit by { MulSplit(d, r, bit); }
    EvenPlus(d * r, d * bit);
    if bit == 1 {
      assert d * bit == d;
    } else {
      assert d * bit == 0;
    }
  }

  lemma MulSplit(d: int, r: int, bit: int)
    ensures d * (2 * r + bit) == 2 * (d * r) + d * bit
  {}

  lemma EvenPlus(x: int, y: int)
    ensures (2 * x + y) % 2 == y % 2
  {}

  /** A common divisor of 2x and an odd number divides x. */
  lemma OddDivisor(d: int, x: int, y: int)
    requires Divides(d, 2 * x) && Divides(d, y) && y % 2 == 1
    ensures Divides(d, x)
  {
    var j :| Differ(2 * x, 0, d, j);
    var k :| Differ(y, 0, d, k);
    Parity(k, d);
    Parity(j, d);
    assert 2 * x == 2 * ((j / 2) * d) by { assert j == 2 * (j / 2); }
    CongFrom(x, 0, d, j / 2);
  }

  /** x and y exchange for x and (y - x) / 2, or 2x for x, without changing the greatest common divisor. */
  lemma GcdStep(g: int, x: int, x': int, y: int, sub: bool)
    requires IsGcd(g, x', y) && y % 2 == 1
    requires x == 2 * x' + (if sub then y else 0)
    ensures IsGcd(g, x, y)
  {
    assert Divides(g, x) by {
      CongAdd(x', 0, x', 0, g);
      if sub { CongAdd(x' + x', 0, y, 0, g); }
    }
    forall d | d > 0 && Divides(d, x) && Divides(d, y)
      ensures Divides(d, g)
    {
      if sub { CongSub(x, 0, y, 0, d); }
      OddDivisor(d, x', y);
    }
  }

  lemma GcdCommutes(g: int, x: int, y: int)
    requires IsGcd(g, x, y)
    ensures IsGcd(g, y, x)
  {}

  /** One round does not change the greatest common divisor. */
  lemma RoundKeepsGcd(g: int, s: Quad, m: nat)
    requires Reduced(s, m) && s.a != s.b && (s.a % 2 == 1 || s.b % 2 == 1)
    requires IsGcd(g, Round(s, m).a, Round(s, m).b)
    ensures IsGcd(g, s.a, s.b)
  {
    var t := Round(s, m);
    if s.a % 2 == 0 || (s.b % 2 == 1 && s.a > s.b) {
      GcdStep(g, s.a, t.a, s.b, s.a % 2 == 1);
    } else {
      GcdCommutes(g, t.a, t.b);
      GcdStep(g, s.b, t.b, s.a, s.b % 2 == 1);
      GcdCommutes(g, s.b, s.a);
    }
  }

  lemma {:induction false} FinalIsGcd(s: Quad, m: nat)
    requires Reduced(s, m) && (s.a % 2 == 1 || s.b % 2 == 1)
    ensures IsGcd(Final(s, m).a, s.a, s.b)
    decreases s.a + s.b
  {
    if s.a == s.b {
      CongFrom(s.a, 0, s.a, 1);
    } else {
      FinalIsGcd(Round(s, m), m);
      RoundKeepsGcd(Final(s, m).a, s, m);
    }
  }

  lemma HalveModCong(u: nat, m: nat)
    requires m % 2 == 1
    ensures Cong(2 * HalveMod(u, m), u, m)
    ensures u < m ==> HalveMod(u, m) < m
  {
    CongFrom(2 * HalveMod(u, m), u, m, if u % 2 == 0 then 0 else 1);
  }

  /** w stands for h divided by x. */
  ghost predicate Over(w: int, h: int, x: int, m: nat) {
    Cong(x * w, h, m)
  }

  lemma HalveOver(w: nat, h: int, x: int, m: nat)
    requires m % 2 == 1 && Over(w, 2 * h, x, m)
    ensures Over(HalveMod(w, m), h, x, m)
  {
    var w' := HalveMod(w, m);
    HalveModCong(w, m);
    CongRefl(x, m);
    CongMul(x, x, 2 * w', w, m);
    assert x * (2 * w') == 2 * (x * w');
    CongTrans(2 * (x * w'), x * w, 2 * h, m);
    TwoInvertible(m);
    CongCancel(2, x * w', h, m);
  }

  lemma SubOver(u: nat, v: nat, a: int, b: int, x: int, m: nat)
    requires u < m && v < m && Over(u, a, x, m) && Over(v, b, x, m)
    ensures Over(SubMod(u, v, m), a - b, x, m)
  {
    SubModCong(u, v, m);
    CongRefl(x, m);
    CongMul(x, x, SubMod(u, v, m), u - v, m);
    CongSub(x * u, a, x * v, b, m);
    assert x * (u - v) == x * u - x * v;
    CongTrans(x * SubMod(u, v, m), x * (u - v), a - b, m);
  }

  /** u and v are a and b divided by the input. */
  ghost predicate Tracks(s: Quad, x: int, m: nat) {
    Over(s.u, s.a, x, m) && Over(s.v, s.b, x, m)
  }

  /** The odd branch: the difference is even, and half of it goes on. */
  lemma OddOver(u: nat, v: nat, a: nat, b: nat, x: int, m: nat)
    requires m % 2 == 1 && u < m && v < m && Over(u, a, x, m) && Over(v, b, x, m)
    requires a % 2 == 1 && b % 2 == 1 && a > b
    ensures Over(HalveMod(SubMod(u, v, m), m), (a - b) / 2, x, m)
  {
    SubOver(u, v, a, b, x, m);
    assert a - b == 2 * ((a - b) / 2);
    HalveOver(SubMod(u, v, m), (a - b) / 2, x, m);
  }

  lemma EvenOver(u: nat, a: nat, x: int, m: nat)
    requires m % 2 == 1 && Over(u, a, x, m) && a % 2 == 0
    ensures Over(HalveMod(u, m), a / 2, x, m)
  {
    assert a == 2 * (a / 2);
    HalveOver(u, a / 2, x, m);
  }

  lemma RoundTracks(s: Quad, x: int, m: nat)
    requires Reduced(s, m) && s.a != s.b && Tracks(s, x, m)
    ensures Tracks(Round(s, m), x, m)
  {
    if s.a % 2 == 0 {
      EvenOver(s.u, s.a, x, m);
    } else if s.b % 2 == 0 {
      EvenOver(s.v, s.b, x, m);
    } else if s.a > s.b {
      OddOver(s.u, s.v, s.a, s.b, x, m);
    } else {
      OddOver(s.v, s.u, s.b, s.a, x, m);
    }
  }

  lemma {:induction false} FinalTracks(s: Quad, x: int, m: nat)
    requires Reduced(s, m) && Tracks(s, x, m)
    ensures Tracks(Final(s, m), x, m)
    decreases s.a + s.b
  {
    if s.a != s.b {
      RoundTracks(s, x, m);
      FinalTracks(Round(s, m), x, m);
    }
  }

  /** For every odd modulus above one: the input times the result is their greatest common divisor. */
  lemma InverseTimesInput(input: nat, m: nat)
    requires m > 1 && m % 2 == 1 && input > 0
    ensures exists g :: IsGcd(g, input, m) && Cong(input * Inverse(input, m), g, m)
  {
    var s := Start(input, m);
    CongRefl(input, m);
    CongFrom(0, m, m, -1);
    FinalTracks(s, input, m);
    FinalIsGcd(s, m);
    assert IsGcd(Final(s, m).a, input, m);
  }

  lemma UnitGcd(g: int, x: int, m: int)
    requires IsGcd(g, x, m) && Invertible(x, m)
    ensures g == 1
  {
    var i :| IsInverse(x, i, m);
    var k :| Differ(x * i, 1, m, k);
    var p :| Differ(x, 0, g, p);
    var q :| Differ(m, 0, g, q);
    assert (p * i - k * q) * g == (p * g) * i - k * (q * g) == 1;
    UnitFactor(p * i - k * q, g);
  }

  lemma UnitFactor(t: int, g: int)
    requires t * g == 1 && g > 0
    ensures g == 1
  {
    assert t <= 0 ==> t * g <= 0;
    assert t >= 1 ==> t * g >= g;
  }

  /** A unit's inverse is found. */
  lemma InverseOfUnit(input: nat, m: nat)
    requires m > 1 && m % 2 == 1 && Invertible(input, m)
    ensures Cong(input * Inverse(input, m), 1, m)
  {
    if input == 0 {
      var i :| IsInverse(0, i, m);
      CongSmall(0, 1, m);
      assert false;
    } else {
      InverseTimesInput(input, m);
      var g :| IsGcd(g, input, m) && Cong(input * Inverse(input, m), g, m);
      UnitGcd(g, input, m);
    }
  }

  /** Every round takes a bit off a or b, so the rounds are fewer than the bits of the input and modulus. */
  lemma {:induction false} RoundsBound(s: Quad, m: nat, i: nat, j: nat)
    requires Reduced(s, m) && s.a < Pow2(i) && s.b < Pow2(j)
    ensures i >= 1 && j >= 1 && Rounds(s, m) + 2 <= i + j
    decreases s.a + s.b
  {
    if s.a != s.b {
      var t := Round(s, m);
      if t.b == s.b {
        RoundsBound(t, m, i - 1, j);
      } else {
        RoundsBound(t, m, i, j - 1);
      }
    }
  }

  // ---------- The word routines ----------

  /** Half of a sum is half of its n words, and the carry as the top bit. */
  lemma HalveSum(sum: nat, v: nat, carry: word, n: nat)
    requires n > 0 && carry <= 1 && v < Exp(n) && v + Up(carry, n) == sum
    ensures sum / 2 == v / 2 + (if carry == 0 then 0 else Up(HALF, n - 1))
    ensures v / 2 < Up(HALF, n - 1)
  {
    UpPositive(0, n);
    UpHalf(n - 1);
  }

  /** vli_modInv_update. */
  method ModInvUpdate(uv: array<word>, mod: array<word>, n: nat)
    requires 0 < n <= uv.Length && n <= mod.Length && uv != mod
    requires Val(uv[..n]) < Val(mod[..n])
    modifies uv
    ensures Val(uv[..n]) == HalveMod(old(Val(uv[..n])), Val(mod[..n]))
    ensures forall j :: n <= j < uv.Length ==> uv[j] == old(uv[j])
  {
    hide Val, Up;
    var carry: word := 0;
    ghost var sum := Val(uv[..n]);
    UpPositive(0, n);
    ValHead(uv[..n]);
    if uv[0] % 2 == 1 {
      sum := sum + Val(mod[..n]);
      carry := Add(uv, uv, mod, n);
    }
    ValBound(uv[..n]);
    HalveSum(sum, Val(uv[..n]), carry, n);
    assert uv[..n] == uv[0..0 + n];
    Rshift1(uv, 0, n);
    assert uv[..n] == uv[0..0 + n];
    if carry != 0 {
      OrTopBit(uv, n, HALF);
    }
  }

  /** A carry dropped by an addition and a borrow dropped by a subtraction cancel. */
  lemma DroppedCancel(r: nat, exact: nat, carry: word, borrow: word, n: nat)
    requires r < Exp(n) && exact < Exp(n) && carry <= 1 && borrow <= 1
    requires r + Up(carry, n) == exact + Up(borrow, n)
    ensures r == exact
  {
    UpPositive(0, n);
  }

  /** One pass of the while loop: cmpResult is the comparison the loop condition just made. */
  method InvRound(a: array<word>, b: array<word>, u: array<word>, v: array<word>, mod: array<word>, n: nat,
                  cmpResult: int)
    requires 0 < n && a.Length == b.Length == u.Length == v.Length == n <= mod.Length
    requires a != b && a != u && a != v && b != u && b != v && u != v
    requires mod != a && mod != b && mod != u && mod != v
    requires Reduced(Registers(a, b, u, v), Val(mod[..n]))
    requires cmpResult == Sign(Val(a[..]), Val(b[..])) && cmpResult != 0
    modifies a, b, u, v
    ensures Registers(a, b, u, v) ==
            old(Round(Registers(a, b, u, v), Val(mod[..n])))
  {
    ValHead(a[..]);
    ValHead(b[..]);
    if a[0] % 2 == 0 {
      HalveWords(a, n);
      UpdateWords(u, mod, n);
    } else if b[0] % 2 == 0 {
      HalveWords(b, n);
      UpdateWords(v, mod, n);
    } else if cmpResult > 0 {
      SubtractInto(a, b, u, v, mod, n);
    } else {
      SubtractInto(b, a, v, u, mod, n);
    }
  }

  method HalveWords(a: array<word>, n: nat)
    requires a.Length == n
    modifies a
    ensures Val(a[..]) == old(Val(a[..])) / 2
  {
    assert a[..] == a[0..0 + n];
    Rshift1(a, 0, n);
    assert a[..] == a[0..0 + n];
  }

  method UpdateWords(u: array<word>, mod: array<word>, n: nat)
    requires 0 < n == u.Length <= mod.Length && u != mod && Val(u[..]) < Val(mod[..n])
    modifies u
    ensures Val(u[..]) == HalveMod(old(Val(u[..])), Val(mod[..n]))
  {
    assert u[..] == u[..n];
    ModInvUpdate(u, mod, n);
    assert u[..] == u[..n];
  }

  /** The two odd branches of the loop are this with a, u and b, v exchanged. */
  method SubtractInto(a: array<word>, b: array<word>, u: array<word>, v: array<word>, mod: array<word>, n: nat)
    requires 0 < n && a.Length == b.Length == u.Length == v.Length == n <= mod.Length
    requires a != b && a != u && a != v && b != u && b != v && u != v
    requires mod != a && mod != b && mod != u && mod != v
    requires Val(a[..]) > Val(b[..]) && Val(u[..]) < Val(mod[..n]) && Val(v[..]) < Val(mod[..n])
    modifies a, u
    ensures Val(a[..]) == (old(Val(a[..])) - Val(b[..])) / 2
    ensures Val(u[..]) == HalveMod(SubMod(old(Val(u[..])), Val(v[..]), Val(mod[..n])), Val(mod[..n]))
  {
    hide Val, Up, HalveMod;
    UpPositive(0, n);
    assert a[..] == a[..n] && b[..] == b[..n] && u[..] == u[..n] && v[..] == v[..n];
    ValBound(a[..]);
    var borrow := Sub(a, a, b, n);
    assert a[..] == a[..n];
    ValBound(a[..]);
    HalveWords(a, n);
    BorrowedDifference(u, v, mod, n);
    UpdateWords(u, mod, n);
  }

  /** u gets mod added when it is below v; the carry this drops comes back as the borrow of the subtraction. */
  method BorrowedDifference(u: array<word>, v: array<word>, mod: array<word>, n: nat)
    requires u.Length == v.Length == n <= mod.Length && u != v && mod != u && mod != v
    requires Val(u[..]) < Val(mod[..n]) && Val(v[..]) < Val(mod[..n])
    modifies u
    ensures Val(u[..]) == SubMod(old(Val(u[..])), Val(v[..]), Val(mod[..n]))
  {
    assert u[..] == u[..n] && v[..] == v[..n];
    ghost var x, y, m := Val(u[..]), Val(v[..]), Val(mod[..n]);
    ValBound(mod[..n]);
    var carry: word := 0;
    UpPositive(0, n);
    var cmp := CmpUnsafe(u, v, n);
    if cmp < 0 {
      carry := Add(u, u, mod, n);
    }
    var borrow := Sub(u, u, v, n);
    assert u[..] == u[..n];
    ValBound(u[..]);
    DroppedCancel(Val(u[..]), SubMod(x, y, m), carry, borrow, n);
  }

  ghost function Registers(a: array<word>, b: array<word>, u: array<word>, v: array<word>): Quad
    reads a, b, u, v
  {
    Quad(Val(a[..]), Val(b[..]), Val(u[..]), Val(v[..]))
  }

  /** The four registers at the start: input, mod, 1, 0. */
  method InvSetup(input: array<word>, mod: array<word>, n: nat)
    returns (a: array<word>, b: array<word>, u: array<word>, v: array<word>)
    requires 0 < n <= input.Length && n <= mod.Length
    ensures fresh(a) && fresh(b) && fresh(u) && fresh(v)
    ensures a.Length == b.Length == u.Length == v.Length == n
    ensures a != b && a != u && a != v && b != u && b != v && u != v
    ensures Registers(a, b, u, v) == Start(Val(input[..n]), Val(mod[..n]))
  {
    hide Val;
    a, b, u, v := new word[n], new word[n], new word[n], new word[n];
    Set(a, 0, input, 0, n);
    Set(b, 0, mod, 0, n);
    assert a[..] == a[0..0 + n] == input[0..0 + n] == input[..n];
    assert b[..] == b[0..0 + n] == mod[0..0 + n] == mod[..n];
    Clear(u, 0, n);
    u[0] := 1;
    OneOf(u[..]);
    Clear(v, 0, n);
    assert v[..] == v[0..0 + n];
  }

  lemma OneOf(s: seq<word>)
    requires |s| > 0 && s[0] == 1 && forall i :: 1 <= i < |s| ==> s[i] == 0
    ensures Val(s) == 1
  {
    ValZeros(s[1..]);
    ValHead(s);
  }

  /** The while loop of uECC_vli_modInv; rounds counts its passes. */
  method InvLoop(a: array<word>, b: array<word>, u: array<word>, v: array<word>, mod: array<word>, n: nat)
    returns (ghost rounds: nat)
    requires 0 < n && a.Length == b.Length == u.Length == v.Length == n <= mod.Length
    requires a != b && a != u && a != v && b != u && b != v && u != v
    requires mod != a && mod != b && mod != u && mod != v
    requires Reduced(Registers(a, b, u, v), Val(mod[..n]))
    modifies a, b, u, v
    ensures Registers(a, b, u, v) == Final(old(Registers(a, b, u, v)), Val(mod[..n]))
    ensures rounds == Rounds(old(Registers(a, b, u, v)), Val(mod[..n]))
  {
    ghost var m, start := Val(mod[..n]), Registers(a, b, u, v);
    rounds := 0;
    assert a[..n] == a[..] && b[..n] == b[..];
    var cmpResult := CmpUnsafe(a, b, n);
    while cmpResult != 0
      invariant Val(mod[..n]) == m
      invariant Reduced(Registers(a, b, u, v), m)
      invariant Final(Registers(a, b, u, v), m) == Final(start, m)
      invariant rounds + Rounds(Registers(a, b, u, v), m) == Rounds(start, m)
      invariant cmpResult == Sign(Val(a[..]), Val(b[..]))
      decreases Registers(a, b, u, v).a + Registers(a, b, u, v).b
    {
      InvRound(a, b, u, v, mod, n, cmpResult);
      rounds := rounds + 1;
      assert a[..n] == a[..] && b[..n] == b[..];
      cmpResult := CmpUnsafe(a, b, n);
    }
  }

  /** uECC_vli_modInv. */
  method ModInv(result: array<word>, input: array<word>, mod: array<word>, n: nat) returns (ghost rounds: nat)
    requires 0 < n <= result.Length && n <= input.Length && n <= mod.Length && result != mod
    requires Val(mod[..n]) > 1 && Val(mod[..n]) % 2 == 1
    modifies result
    ensures Val(result[..n]) == Inverse(old(Val(input[..n])), Val(mod[..n]))
    ensures old(Val(input[..n])) > 0 ==> rounds == Rounds(Start(old(Val(input[..n])), Val(mod[..n])), Val(mod[..n]))
    ensures forall j :: n <= j < result.Length ==> result[j] == old(result[j])
  {
    rounds := 0;
    var zero := IsZero(input, n);
    if zero {
      Clear(result, 0, n);
      assert result[..n] == result[0..0 + n];
    } else {
      var a, b, u, v := InvSetup(input, mod, n);
      rounds := InvLoop(a, b, u, v, mod, n);
      assert u[0..0 + n] == u[..];
      Set(result, 0, u, 0, n);
      assert result[0..0 + n] == result[..n];
    }
  }
}
