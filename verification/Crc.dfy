/** The table-driven CRC-8 and CRC-16 of the River2 framing, and what they detect. */
module Crc {
  import opened Bytes
  import opened Words

  // ---------- Bit by bit ----------

  /** One bit of CRC-16 (reflected polynomial 0xA001). */
  function Shift16(c: half): half {
    if c % 2 == 1 then XorHalfWord(c / 2, 0xA001) else c / 2
  }

  function Times16(c: half, n: nat): half {
    if n == 0 then c else Shift16(Times16(c, n - 1))
  }

  /** One bit of CRC-8 (polynomial 0x07, most significant bit first). */
  function Shift8(c: byte): byte {
    if c >= 0x80 then XorByte(2 * c as int % 256, 0x07) else 2 * c as int % 256
  }

  function Times8(c: byte, n: nat): byte {
    if n == 0 then c else Shift8(Times8(c, n - 1))
  }

  /** One byte: eight single-bit steps. */
  function Feed16(c: half, d: byte): half {
    Times16(XorHalfWord(c, d), 8)
  }

  function Feed8(c: byte, d: byte): byte {
    Times8(XorByte(c, d), 8)
  }

  function Crc16From(c: half, s: seq<byte>): half
    decreases |s|
  {
    if |s| == 0 then c else Crc16From(Feed16(c, s[0]), s[1..])
  }

  function Crc8From(c: byte, s: seq<byte>): byte
    decreases |s|
  {
    if |s| == 0 then c else Crc8From(Feed8(c, s[0]), s[1..])
  }

  function Crc16(s: seq<byte>): half {
    Crc16From(0, s)
  }

  function Crc8(s: seq<byte>): byte {
    Crc8From(0, s)
  }

  // ---------- Steps are linear and injective ----------

  lemma Shift16Linear(a: half, b: half)
    ensures Shift16(XorHalfWord(a, b)) == XorHalfWord(Shift16(a), Shift16(b))
  {
    hide Xor;
    var x, y, k := a / 2, b / 2, 0xA001;
    XorHalf(a, b);
    // (x + k) + (y + k), (x + k) + y and x + (y + k) against x + y
    XorSwap(x, k, y, k);
    XorSame(k);
    XorNone(Xor(x, y));
    XorAssoc(x, k, y);
    XorComm(k, y);
    XorAssoc(x, y, k);
  }

  lemma Shift16Zero(a: half)
    ensures Shift16(a) == 0 <==> a == 0
  {
    hide Xor;
    XorZero(a / 2, 0xA001);
  }

  lemma {:induction false} Times16Linear(a: half, b: half, n: nat)
    ensures Times16(XorHalfWord(a, b), n) == XorHalfWord(Times16(a, n), Times16(b, n))
  {
    hide XorHalfWord, Shift16;
    if n > 0 {
      Times16Linear(a, b, n - 1);
      Shift16Linear(Times16(a, n - 1), Times16(b, n - 1));
    }
  }

  lemma {:induction false} Times16Zero(a: half, n: nat)
    ensures Times16(a, n) == 0 <==> a == 0
  {
    hide Shift16;
    if n > 0 {
      Times16Zero(a, n - 1);
      Shift16Zero(Times16(a, n - 1));
    }
  }

  /** A step loses nothing: different registers stay different. */
  lemma Times16Injective(a: half, b: half, n: nat)
    ensures Times16(a, n) == Times16(b, n) <==> a == b
  {
    hide Xor, Times16;
    Times16Linear(a, b, n);
    Times16Zero(XorHalfWord(a, b), n);
    XorZero(a, b);
    XorZero(Times16(a, n), Times16(b, n));
  }

  // ---------- CRC-16 is linear and injective ----------

  /** The bits in which s and t differ. */
  function Difference(s: seq<byte>, t: seq<byte>): (r: seq<byte>)
    requires |s| == |t|
    ensures |r| == |s|
  {
    if |s| == 0 then [] else [XorByte(s[0], t[0])] + Difference(s[1..], t[1..])
  }

  lemma Feed16Linear(a: half, b: half, x: byte, y: byte)
    ensures Feed16(XorHalfWord(a, b), XorByte(x, y)) == XorHalfWord(Feed16(a, x), Feed16(b, y))
  {
    hide Xor, Times16;
    XorSwap(a, b, x, y);
    Times16Linear(XorHalfWord(a, x), XorHalfWord(b, y), 8);
  }

  /** The CRC of the difference of two strings is the difference of their CRCs. */
  lemma {:induction false} Crc16Linear(a: half, b: half, s: seq<byte>, t: seq<byte>)
    requires |s| == |t|
    ensures Crc16From(XorHalfWord(a, b), Difference(s, t)) == XorHalfWord(Crc16From(a, s), Crc16From(b, t))
    decreases |s|
  {
    hide XorHalfWord, XorByte, Feed16;
    if |s| > 0 {
      Feed16Linear(a, b, s[0], t[0]);
      Crc16Linear(Feed16(a, s[0]), Feed16(b, t[0]), s[1..], t[1..]);
      assert Difference(s, t)[1..] == Difference(s[1..], t[1..]);
    }
  }

  lemma {:induction false} Crc16Concat(c: half, s: seq<byte>, t: seq<byte>)
    ensures Crc16From(c, s + t) == Crc16From(Crc16From(c, s), t)
    decreases |s|
  {
    hide Feed16;
    if |s| == 0 {
      assert s + t == t;
    } else {
      assert (s + t)[1..] == s[1..] + t;
      Crc16Concat(Feed16(c, s[0]), s[1..], t);
    }
  }

  lemma Feed16Injective(a: half, b: half, d: byte)
    ensures Feed16(a, d) == Feed16(b, d) <==> a == b
  {
    hide Xor, Times16;
    Times16Injective(XorHalfWord(a, d), XorHalfWord(b, d), 8);
    XorBack(a, d);
    XorBack(b, d);
  }

  /** The same bytes keep different registers different. */
  lemma {:induction false} Crc16Injective(a: half, b: half, s: seq<byte>)
    ensures Crc16From(a, s) == Crc16From(b, s) <==> a == b
    decreases |s|
  {
    hide Feed16;
    if |s| > 0 {
      Feed16Injective(a, b, s[0]);
      Crc16Injective(Feed16(a, s[0]), Feed16(b, s[0]), s[1..]);
    }
  }

  // ---------- Eight steps at once ----------

  lemma {:induction false} UpAndDown(y: nat, k: nat, n: nat)
    requires n <= k && 0 <= UpBits(y, k) < 65536
    ensures 0 <= UpBits(y, k - n) < 65536 && Times16(UpBits(y, k), n) == UpBits(y, k - n)
  {
    UpBitsPositive(y, k);
    if n > 0 {
      UpAndDown(y, k, n - 1);
      UpBitsPositive(y, k - n);
    }
  }

  /** Eight steps move a register with an empty low byte down unchanged. */
  lemma HighByteDown(y: byte)
    ensures Times16(256 * y as int, 8) == y
  {
    hide Times16;
    UpBitsEight(y);
    UpAndDown(y, 8, 8);
  }

  /** The table entry of the low byte, with the high byte moved down, is eight single steps. */
  lemma TableStep(c: half, d: byte)
    ensures XorHalfWord(c, d) % 256 == XorByte(c % 256, d)
    ensures XorHalfWord(Times16(XorHalfWord(c, d) % 256, 8), c / 256) == Feed16(c, d)
  {
    hide Times16, Xor;
    XorLowByte(c, d);
    var lo, hi: byte := XorByte(c % 256, d), c / 256;
    XorBytes(lo, hi);
    XorComm(256 * hi as int, lo);
    HighByteDown(hi);
    Times16Linear(lo, 256 * hi as int, 8);
  }

  // ---------- What a CRC-16 detects ----------

  lemma TwoBytes(c: half, a: byte, b: byte)
    ensures Crc16From(c, [a, b]) == Feed16(Feed16(c, a), b)
  {
    hide Feed16;
    assert [a, b][1..] == [b];
    assert [b][1..] == [];
    assert Crc16From(Feed16(c, a), [b]) == Crc16From(Feed16(Feed16(c, a), b), []);
  }

  /** Feeding two bytes clears the register exactly when they are its own two bytes. */
  lemma FeedZero(c: half, lo: byte, hi: byte)
    ensures Feed16(Feed16(c, lo), hi) == 0 <==> c == U16(lo, hi)
  {
    hide Times16, Xor;
    var r, h := XorHalfWord(c, lo), 256 * hi as int;
    Times16Zero(XorHalfWord(Times16(r, 8), hi), 8);
    XorZero(Times16(r, 8), hi);
    HighByteDown(hi);
    Times16Injective(r, h, 8);
    XorBytes(lo, hi);
    XorBack(c, lo);
    XorBack(h, lo);
  }

  /** A string ends in its own CRC exactly when the CRC of the whole is zero. */
  lemma ResidueZero(body: seq<byte>, lo: byte, hi: byte)
    ensures Crc16(body + [lo, hi]) == 0 <==> Crc16(body) == U16(lo, hi)
  {
    hide Feed16, U16, Crc16From;
    Crc16Concat(0, body, [lo, hi]);
    TwoBytes(Crc16(body), lo, hi);
    FeedZero(Crc16(body), lo, hi);
  }

  /** Two bytes can be read back from the register they lead to. */
  lemma TwoBytesInjective(c: half, a: byte, b: byte, a': byte, b': byte)
    ensures Feed16(Feed16(c, a), b) == Feed16(Feed16(c, a'), b') <==> a == a' && b == b'
  {
    hide Times16, Xor;
    var t, t', d := Feed16(c, a), Feed16(c, a'), XorByte(b, b');
    Times16Injective(XorHalfWord(t, b), XorHalfWord(t', b'), 8);
    XorZero(Xor(t, b), Xor(t', b'));
    XorSwap(t, b, t', b');
    XorZero(Xor(t, t'), Xor(b, b'));
    // the two registers differ by eight steps of the difference of the first bytes
    DifferenceFed(c, a, a');
    HighByteDown(d);
    Times16Injective(XorByte(a, a'), 256 * d as int, 8);
    XorZero(a, a');
    XorZero(b, b');
  }

  lemma DifferenceFed(c: half, a: byte, a': byte)
    ensures XorHalfWord(Feed16(c, a), Feed16(c, a')) == Times16(XorByte(a, a'), 8)
  {
    hide Times16, Xor;
    Feed16Linear(c, c, a, a');
    XorSame(c);
    XorNone(XorByte(a, a'));
  }

  /** The strings have the same length and differ at most at positions j and j + 1. */
  predicate Near(s: seq<byte>, t: seq<byte>, j: nat) {
    |s| == |t| && forall i :: 0 <= i < |s| && i != j && i != j + 1 ==> s[i] == t[i]
  }

  /** Any change within two adjacent bytes changes the CRC. */
  lemma AdjacentBytesDetected(s: seq<byte>, t: seq<byte>, j: nat)
    requires Near(s, t, j) && s != t
    ensures Crc16(s) != Crc16(t)
  {
    hide Crc16From, Feed16;
    if j + 2 <= |s| {
      var c := Crc16From(0, s[..j]);
      var a, b, rest := [s[j], s[j + 1]], [t[j], t[j + 1]], s[j + 2..];
      assert s == s[..j] + (a + rest) && t == s[..j] + (b + rest);
      Crc16Concat(0, s[..j], a + rest);
      Crc16Concat(0, s[..j], b + rest);
      Crc16Concat(c, a, rest);
      Crc16Concat(c, b, rest);
      TwoBytes(c, s[j], s[j + 1]);
      TwoBytes(c, t[j], t[j + 1]);
      TwoBytesInjective(c, s[j], s[j + 1], t[j], t[j + 1]);
      Crc16Injective(Crc16From(c, a), Crc16From(c, b), rest);
    } else {
      LastByteDetected(s, t, j);
    }
  }

  lemma LastByteDetected(s: seq<byte>, t: seq<byte>, j: nat)
    requires Near(s, t, j) && s != t && j + 2 > |s|
    ensures Crc16(s) != Crc16(t)
  {
    hide Crc16From, Feed16;
    assert j + 1 == |s|;
    var c := Crc16From(0, s[..j]);
    assert s == s[..j] + [s[j]] && t == s[..j] + [t[j]];
    Crc16Concat(0, s[..j], [s[j]]);
    Crc16Concat(0, s[..j], [t[j]]);
    // one more byte makes it the two-byte case
    TwoBytes(c, s[j], 0);
    TwoBytes(c, t[j], 0);
    TwoBytesInjective(c, s[j], 0, t[j], 0);
    assert [s[j], 0] == [s[j]] + [0] && [t[j], 0] == [t[j]] + [0];
    Crc16Concat(c, [s[j]], [0]);
    Crc16Concat(c, [t[j]], [0]);
  }

  // ---------- The tables ----------

  function TableEntry8(i: nat): byte
    requires i < 256
  {
    Times8(i, 8)
  }

  function TableEntry16(i: nat): half
    requires i < 256
  {
    Times16(i, 8)
  }

  /** The static tables of river2_crc.c, filled on first use. */
  class Tables {
    const crc8: array<byte>
    const crc16: array<half>
    var built: bool

    ghost predicate Valid()
      reads this, crc8, crc16
    {
      crc8.Length == 256 && crc16.Length == 256 && (built ==> Right(256))
    }

    ghost predicate Right(n: nat)
      requires n <= 256 && crc8.Length == 256 && crc16.Length == 256
      reads crc8, crc16
    {
      && (forall i :: 0 <= i < n ==> crc8[i] == TableEntry8(i))
      && (forall i :: 0 <= i < n ==> crc16[i] == TableEntry16(i))
    }

    ghost function Repr(): set<object> {
      {this, crc8, crc16}
    }

    constructor ()
      ensures Valid() && !built && fresh(crc8) && fresh(crc16)
    {
      crc8 := new byte[256];
      crc16 := new half[256];
      built := false;
    }

    /** build_tables. */
    method BuildTables()
      requires Valid()
      modifies Repr()
      ensures Valid() && built
    {
      hide TableEntry8, TableEntry16;
      var i := 0;
      while i < 256
        invariant 0 <= i <= 256
        invariant crc8.Length == 256 && crc16.Length == 256
        invariant Right(i)
      {
        var entry8 := FillEntry8(i);
        var entry16 := FillEntry16(i);
        crc8[i] := entry8;
        crc16[i] := entry16;
        i := i + 1;
      }
      built := true;
    }

    /** The inner loop of build_tables for CRC-8. */
    static method FillEntry8(i: nat) returns (crc: byte)
      requires i < 256
      ensures crc == TableEntry8(i)
    {
      crc := i;
      for b := 0 to 8
        invariant crc == Times8(i, b)
      {
        crc := if crc >= 0x80 then XorByte(2 * crc as int % 256, 0x07) else 2 * crc as int % 256;
      }
    }

    /** The inner loop of build_tables for CRC-16. */
    static method FillEntry16(i: nat) returns (crc: half)
      requires i < 256
      ensures crc == TableEntry16(i)
    {
      crc := i;
      for b := 0 to 8
        invariant crc == Times16(i, b)
      {
        crc := if crc % 2 == 1 then XorHalfWord(crc / 2, 0xA001) else crc / 2;
      }
    }

    method Lookup8(crc: byte, d: byte) returns (r: byte)
      requires Valid() && built
      ensures r == Feed8(crc, d)
    {
      hide Times8, Times16, XorByte;
      r := crc8[XorByte(crc, d)];
    }

    method Lookup16(crc: half, d: byte) returns (r: half)
      requires Valid() && built
      ensures r == Feed16(crc, d)
    {
      hide Times8, Times16, XorHalfWord;
      TableStep(crc, d);
      r := XorHalfWord(crc16[XorHalfWord(crc, d) % 256], crc / 256);
    }

    /** river2_crc8 over len bytes of data from position from. */
    method ComputeCrc8(data: array<byte>, from: nat, len: nat) returns (crc: byte)
      requires Valid() && from + len <= data.Length && data !in Repr()
      modifies Repr()
      ensures Valid()
      ensures crc == Crc8(data[from..from + len])
    {
      hide Feed8, Right;
      if !built {
        BuildTables();
      }
      crc := 0;
      ghost var s := data[from..from + len];
      var i := 0;
      while i < len
        invariant 0 <= i <= len
        invariant Valid() && built && data[from..from + len] == s
        invariant Crc8From(crc, s[i..]) == Crc8(s)
      {
        assert s[i..][1..] == s[i + 1..] && s[i] == data[from + i];
        crc := Lookup8(crc, data[from + i]);
        i := i + 1;
      }
    }

    /** river2_crc16 over len bytes of data from position from. */
    method ComputeCrc16(data: array<byte>, from: nat, len: nat) returns (crc: half)
      requires Valid() && from + len <= data.Length && data !in Repr()
      modifies Repr()
      ensures Valid()
      ensures crc == Crc16(data[from..from + len])
    {
      hide Feed16, Right;
      if !built {
        BuildTables();
      }
      crc := 0;
      ghost var s := data[from..from + len];
      var i := 0;
      while i < len
        invariant 0 <= i <= len
        invariant Valid() && built && data[from..from + len] == s
        invariant Crc16From(crc, s[i..]) == Crc16(s)
      {
        assert s[i..][1..] == s[i + 1..] && s[i] == data[from + i];
        crc := Lookup16(crc, data[from + i]);
        i := i + 1;
      }
    }
  }
}
