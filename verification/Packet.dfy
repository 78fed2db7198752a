/** The inner packet and the outer wrapper of the River2 protocol: builders and parser. */
module Packet {
  import opened Bytes
  import opened Crc

  datatype Option<+T> = None | Some(value: T)

  /** What an inner packet carries. */
  datatype Inner = Inner(src: byte, dst: byte, cmdSet: byte, cmdId: byte, payload: seq<byte>)

  const INNER_OVERHEAD: nat := 18
  const OUTER_OVERHEAD: nat := 8

  /** The bytes wr_u16le stores for a CRC. */
  function CrcBytes(c: half): (r: seq<byte>)
    ensures |r| == 2
  {
    [LowByte(c), HighByte(c)]
  }

  // ---------- The inner packet ----------

  function InnerPrefix(n: nat): (r: seq<byte>)
    ensures |r| == 4
  {
    [0xAA, 0x02, LowByte(n), HighByte(n)]
  }

  /** An inner packet whose bytes 5 to 11, which the parser does not read, are mid. */
  function InnerWith(p: Inner, mid: seq<byte>): (r: seq<byte>)
    requires |mid| == 7
    ensures |r| == INNER_OVERHEAD + |p.payload|
  {
    var prefix := InnerPrefix(|p.payload|);
    var body := prefix + [Crc8(prefix)] + mid + [p.src, p.dst, p.cmdSet, p.cmdId] + p.payload;
    body + CrcBytes(Crc16(body))
  }

  /** What river2_inner_build writes: product id, and seq and flags zero. */
  function InnerBytes(p: Inner): (r: seq<byte>)
    ensures |r| == INNER_OVERHEAD + |p.payload|
  {
    InnerWith(p, [0x0D, 0, 0, 0, 0, 0, 0])
  }

  function ParseInner(s: seq<byte>): Option<Inner> {
    if |s| < INNER_OVERHEAD || s[0] != 0xAA || s[1] != 0x02 then None
    else if |s| != INNER_OVERHEAD + U16(s[2], s[3]) then None
    else if Crc8(s[..4]) != s[4] then None
    else if U16(s[|s| - 2], s[|s| - 1]) != Crc16(s[..|s| - 2]) then None
    else Some(Inner(s[12], s[13], s[14], s[15], s[16..|s| - 2]))
  }

  lemma InnerParts(p: Inner, mid: seq<byte>)
    requires |mid| == 7
    ensures var s := InnerWith(p, mid);
            && s[..4] == InnerPrefix(|p.payload|) && s[4] == Crc8(s[..4]) && s[5..12] == mid
            && s[12] == p.src && s[13] == p.dst && s[14] == p.cmdSet && s[15] == p.cmdId
            && s[16..|s| - 2] == p.payload
            && s[|s| - 2..] == CrcBytes(Crc16(s[..|s| - 2]))
            && s[0] == 0xAA && s[1] == 0x02 && s[2] == LowByte(|p.payload|) && s[3] == HighByte(|p.payload|)
  {
    hide Crc8, Crc16, LowByte, HighByte, CrcBytes;
    var s := InnerWith(p, mid);
    var prefix := InnerPrefix(|p.payload|);
    var body := prefix + [Crc8(prefix)] + mid + [p.src, p.dst, p.cmdSet, p.cmdId] + p.payload;
    assert s[..|s| - 2] == body;
    assert s[..4] == prefix;
    assert forall i :: 0 <= i < 4 ==> s[i] == s[..4][i];
    assert s[5..12] == mid;
    assert s[16..|s| - 2] == p.payload;
    assert s[|s| - 2..] == CrcBytes(Crc16(body));
  }

  lemma PrefixRebuilt(s: seq<byte>)
    requires |s| >= 4 && s[0] == 0xAA && s[1] == 0x02
    ensures s[..4] == InnerPrefix(U16(s[2], s[3]))
  {
    hide LowByte, HighByte, U16;
    FieldOfBytes(s[2], s[3]);
  }

  lemma Slices(s: seq<byte>)
    requires |s| >= 18
    ensures var k := |s| - 2;
            && s == s[..k] + [s[k], s[k + 1]]
            && s[..k] == s[..4] + [s[4]] + s[5..12] + [s[12], s[13], s[14], s[15]] + s[16..k]
  {}

  lemma Rebuilt(p: Inner, s: seq<byte>)
    requires ParseInner(s) == Some(p)
    ensures |p.payload| < 65536 && s == InnerWith(p, s[5..12])
  {
    hide Crc8, Crc16, InnerPrefix, LowByte, HighByte, U16;
    PrefixRebuilt(s);
    FieldOfBytes(s[|s| - 2], s[|s| - 1]);
    Slices(s);
  }

  /** The parser accepts exactly the packets of the builder's form with a 16-bit payload length. */
  lemma ParsesExactly(s: seq<byte>, p: Inner)
    ensures ParseInner(s) == Some(p)
            <==> |s| >= INNER_OVERHEAD && |p.payload| < 65536 && s == InnerWith(p, s[5..12])
  {
    hide Crc8, Crc16, LowByte, HighByte, U16, InnerWith;
    if ParseInner(s) == Some(p) {
      Rebuilt(p, s);
    }
    if |s| >= INNER_OVERHEAD && |p.payload| < 65536 && s == InnerWith(p, s[5..12]) {
      InnerParts(p, s[5..12]);
      FieldOfNumber(|p.payload|);
      FieldOfNumber(Crc16(s[..|s| - 2]));
    }
  }

  /** Parsing what was built gives it back exactly when the length fits its field. */
  lemma InnerRoundTrip(p: Inner)
    ensures ParseInner(InnerBytes(p)) == Some(p) <==> |p.payload| < 65536
  {
    hide InnerWith, ParseInner;
    var s := InnerBytes(p);
    InnerParts(p, [0x0D, 0, 0, 0, 0, 0, 0]);
    ParsesExactly(s, p);
  }

  /** An accepted packet ends in its own CRC. */
  lemma AcceptedResidue(s: seq<byte>)
    requires ParseInner(s).Some?
    ensures Crc16(s) == 0
  {
    hide Crc8, Crc16, U16;
    var k := |s| - 2;
    assert s == s[..k] + [s[k], s[k + 1]];
    ResidueZero(s[..k], s[k], s[k + 1]);
  }

  /** No change within two adjacent bytes of an accepted packet is accepted. */
  lemma CorruptedRejected(s: seq<byte>, t: seq<byte>, j: nat)
    requires ParseInner(s).Some? && Near(s, t, j) && s != t
    ensures ParseInner(t) == None
  {
    hide ParseInner, Crc16, Near;
    AcceptedResidue(s);
    AdjacentBytesDetected(s, t, j);
    if ParseInner(t).Some? {
      AcceptedResidue(t);
    }
  }

  // ---------- The outer wrapper ----------

  /** (uint8_t)(frame_type << 4). */
  function TypeByte(frameType: byte): byte {
    16 * frameType as int % 256
  }

  function OuterHeader(frameType: byte, n: nat): (r: seq<byte>)
    ensures |r| == 6
  {
    [0x5A, 0x5A, TypeByte(frameType), 0x01, LowByte(n + 2), HighByte(n + 2)]
  }

  /** What river2_outer_build writes. */
  function OuterBytes(frameType: byte, payload: seq<byte>): (r: seq<byte>)
    ensures |r| == OUTER_OVERHEAD + |payload|
  {
    var body := OuterHeader(frameType, |payload|) + payload;
    body + CrcBytes(Crc16(body))
  }

  // ---------- The bytes, one by one ----------

  /** What is on the wire at each position of an inner packet. */
  lemma InnerLayout(p: Inner)
    ensures var s, n := InnerBytes(p), |p.payload|;
            && |s| == n + 18
            && s[0] == 0xAA && s[1] == 2 && s[2] as int + 256 * s[3] as int == n % 65536 && s[4] == Crc8(s[..4])
            && s[5] == 13 && (forall i :: 6 <= i < 12 ==> s[i] == 0)
            && s[12] == p.src && s[13] == p.dst && s[14] == p.cmdSet && s[15] == p.cmdId && s[16..n + 16] == p.payload
            && s[n + 16] as int + 256 * s[n + 17] as int == Crc16(s[..n + 16])
  {
    hide Crc8, Crc16, LowByte, HighByte;
    var s, n, mid: seq<byte> := InnerBytes(p), |p.payload|, [0x0D, 0, 0, 0, 0, 0, 0];
    InnerParts(p, mid);
    assert forall i :: 5 <= i < 12 ==> s[i] == s[5..12][i - 5];
    assert s[n + 16] == s[|s| - 2..][0] && s[n + 17] == s[|s| - 2..][1];
    FieldOfNumber(n);
    FieldOfNumber(Crc16(s[..n + 16]));
  }

  /** And of an outer frame. */
  lemma OuterLayout(kind: byte, payload: seq<byte>)
    ensures var s, n := OuterBytes(kind, payload), |payload|;
            && |s| == n + 8
            && s[0] == 0x5A && s[1] == 0x5A && s[2] == 16 * (kind % 16) && s[3] == 1
            && s[4] as int + 256 * s[5] as int == (n + 2) % 65536 && s[6..n + 6] == payload
            && s[n + 6] as int + 256 * s[n + 7] as int == Crc16(s[..n + 6])
  {
    hide Crc16, LowByte, HighByte, CrcBytes, OuterHeader;
    var n := |payload|;
    var header := OuterHeader(kind, n);
    var body := header + payload;
    var s := OuterBytes(kind, payload);
    assert s[..n + 6] == body && s[6..n + 6] == payload;
    assert forall i :: 0 <= i < 6 ==> s[i] == header[i];
    HeaderBytes(kind, n);
    CrcLayout(Crc16(body));
  }

  lemma HeaderBytes(kind: byte, n: nat)
    ensures var h := OuterHeader(kind, n);
            && h[0] == 0x5A && h[1] == 0x5A && h[2] == 16 * (kind % 16) && h[3] == 1
            && h[4] as int + 256 * h[5] as int == (n + 2) % 65536
  {
    hide LowByte, HighByte;
    FieldOfNumber(n + 2);
  }

  lemma CrcLayout(c: half)
    ensures CrcBytes(c)[0] as int + 256 * CrcBytes(c)[1] as int == c
  {
    FieldOfNumber(c);
  }

  // ---------- The code ----------

  /** The six bytes before the payload. */
  method WriteHeader(frameType: byte, n: nat, out: array<byte>)
    requires out.Length >= 6
    modifies out
    ensures out[..6] == OuterHeader(frameType, n)
    ensures forall i :: 6 <= i < out.Length ==> out[i] == old(out[i])
  {
    hide LowByte, HighByte, TypeByte;
    out[0], out[1], out[2], out[3] := 0x5A, 0x5A, TypeByte(frameType), 0x01;
    out[4], out[5] := LowByte(n + 2), HighByte(n + 2);
  }

  /** memcpy(&out[at], payload, n), skipped for an empty payload. */
  method CopyPayload(out: array<byte>, at: nat, payload: array?<byte>, n: nat)
    requires at + n <= out.Length && payload != out
    requires n > 0 ==> payload != null && n <= payload.Length
    modifies out
    ensures out[at..at + n] == Pointed(payload, n)
    ensures forall i :: 0 <= i < out.Length && !(at <= i < at + n) ==> out[i] == old(out[i])
  {
    if n > 0 {
      forall i | 0 <= i < n {
        out[at + i] := payload[i];
      }
    }
  }

  /** The bytes a pointer and a length denote. */
  ghost function Pointed(data: array?<byte>, n: nat): (r: seq<byte>)
    requires n > 0 ==> data != null && n <= data.Length
    reads if data == null then {} else {data}
    ensures |r| == n
  {
    if n == 0 then [] else data[..n]
  }

  /** The prefix, version, length and header CRC of river2_inner_build. */
  method WriteInnerPrefix(tables: Tables, payloadLen: nat, out: array<byte>)
    requires tables.Valid() && out !in tables.Repr() && out.Length >= 16
    modifies out, tables.Repr()
    ensures tables.Valid()
    ensures out[..4] == InnerPrefix(payloadLen) && out[4] == Crc8(InnerPrefix(payloadLen))
    ensures forall i :: 5 <= i < out.Length ==> out[i] == old(out[i])
  {
    hide Crc8, LowByte, HighByte, tables.Right;
    out[0], out[1] := 0xAA, 0x02;
    out[2], out[3] := LowByte(payloadLen), HighByte(payloadLen);
    assert out[0..0 + 4] == InnerPrefix(payloadLen);
    var crc := tables.ComputeCrc8(out, 0, 4);
    assert out[..4] == InnerPrefix(payloadLen);
    out[4] := crc;
    assert out[..4] == InnerPrefix(payloadLen);
  }

  /** The product id, the zero fields and the addresses of river2_inner_build. */
  method WriteRoute(src: byte, dst: byte, cmdSet: byte, cmdId: byte, out: array<byte>)
    requires out.Length >= 16
    modifies out
    ensures out[5..12] == [0x0D, 0, 0, 0, 0, 0, 0] && out[12..16] == [src, dst, cmdSet, cmdId]
    ensures forall i :: 0 <= i < out.Length && !(5 <= i < 16) ==> out[i] == old(out[i])
  {
    out[5] := 0x0D;
    out[6], out[7], out[8], out[9] := 0, 0, 0, 0;
    out[10], out[11] := 0, 0;
    out[12], out[13], out[14], out[15] := src, dst, cmdSet, cmdId;
  }

  /** The trailing crc16 of both builders. */
  method WriteCrc(tables: Tables, out: array<byte>, n: nat)
    requires tables.Valid() && out !in tables.Repr() && n + 2 <= out.Length
    modifies out, tables.Repr()
    ensures tables.Valid()
    ensures out[..n + 2] == old(out[..n]) + CrcBytes(Crc16(old(out[..n])))
    ensures forall i :: n + 2 <= i < out.Length ==> out[i] == old(out[i])
  {
    hide Crc16;
    ghost var body := out[..n];
    assert out[0..0 + n] == body;
    var crc := tables.ComputeCrc16(out, 0, n);
    assert out[..n] == body;
    out[n], out[n + 1] := LowByte(crc), HighByte(crc);
    assert out[..n + 2] == out[..n] + [out[n], out[n + 1]];
    assert out[..n] == body;
  }

  lemma HeaderParts(s: seq<byte>)
    requires |s| == 16
    ensures s == s[..4] + [s[4]] + s[5..12] + s[12..]
  {}

  /** river2_inner_build. */
  method InnerBuild(tables: Tables, src: byte, dst: byte, cmdSet: byte, cmdId: byte, payload: array?<byte>,
                    payloadLen: nat, out: array<byte>, outCap: nat) returns (len: nat)
    requires tables.Valid() && out !in tables.Repr() && payload !in tables.Repr() && payload != out
             && outCap <= out.Length
    requires payloadLen > 0 ==> payload != null && payloadLen <= payload.Length
    modifies out, tables.Repr()
    ensures tables.Valid()
    ensures len == if outCap < INNER_OVERHEAD + payloadLen then 0 else INNER_OVERHEAD + payloadLen
    ensures len != 0 ==> out[..len] == InnerBytes(Inner(src, dst, cmdSet, cmdId, old(Pointed(payload, payloadLen))))
    ensures forall i :: len <= i < out.Length ==> out[i] == old(out[i])
  {
    hide Crc8, Crc16, CrcBytes, InnerPrefix, tables.Valid, tables.Right;
    var total := INNER_OVERHEAD + payloadLen;
    if outCap < total {
      return 0;
    }
    ghost var data := Pointed(payload, payloadLen);
    WriteInnerPrefix(tables, payloadLen, out);
    ghost var prefix := InnerPrefix(payloadLen);
    WriteRoute(src, dst, cmdSet, cmdId, out);
    assert out[..4] == prefix;
    ghost var header := prefix + [Crc8(prefix)] + [0x0D, 0, 0, 0, 0, 0, 0] + [src, dst, cmdSet, cmdId];
    HeaderParts(out[..16]);
    assert out[..16][..4] == out[..4] && out[..16][5..12] == out[5..12] && out[..16][12..] == out[12..16];
    assert out[..16] == header;
    CopyPayload(out, 16, payload, payloadLen);
    assert out[..16] == header;
    assert out[..16 + payloadLen] == out[..16] + out[16..16 + payloadLen];
    WriteCrc(tables, out, 16 + payloadLen);
    len := total;
  }

  /** river2_inner_parse. The payload is a view into data. */
  method InnerParse(tables: Tables, data: array<byte>, len: nat) returns (r: Option<Inner>)
    requires tables.Valid() && data !in tables.Repr() && len <= data.Length
    modifies tables.Repr()
    ensures tables.Valid()
    ensures r == ParseInner(data[..len])
  {
    hide Crc8, Crc16, U16, tables.Right;
    ghost var s := data[..len];
    if len < INNER_OVERHEAD || data[0] != 0xAA || data[1] != 0x02 {
      return None;
    }
    var payloadLen := U16(data[2], data[3]);
    if len != INNER_OVERHEAD + payloadLen {
      return None;
    }
    assert data[0..0 + 4] == s[..4] && data[0..0 + (len - 2)] == s[..len - 2];
    var crc8 := tables.ComputeCrc8(data, 0, 4);
    if crc8 != data[4] {
      return None;
    }
    var crcExpect := tables.ComputeCrc16(data, 0, len - 2);
    if U16(data[len - 2], data[len - 1]) != crcExpect {
      return None;
    }
    assert data[16..16 + payloadLen] == s[16..len - 2];
    r := Some(Inner(data[12], data[13], data[14], data[15], data[16..16 + payloadLen]));
  }

  /** river2_outer_build. */
  method OuterBuild(tables: Tables, frameType: byte, payload: array?<byte>, payloadLen: nat, out: array<byte>,
                    outCap: nat)
    returns (len: nat)
    requires tables.Valid() && out !in tables.Repr() && payload !in tables.Repr() && payload != out
             && outCap <= out.Length
    requires payloadLen > 0 ==> payload != null && payloadLen <= payload.Length
    modifies out, tables.Repr()
    ensures tables.Valid()
    ensures len == if outCap < OUTER_OVERHEAD + payloadLen then 0 else OUTER_OVERHEAD + payloadLen
    ensures len != 0 ==> out[..len] == OuterBytes(frameType, old(Pointed(payload, payloadLen)))
    ensures forall i :: len <= i < out.Length ==> out[i] == old(out[i])
  {
    hide Crc16, CrcBytes, OuterHeader, tables.Valid, tables.Right;
    var total := OUTER_OVERHEAD + payloadLen;
    if outCap < total {
      return 0;
    }
    ghost var data := Pointed(payload, payloadLen);
    WriteHeader(frameType, payloadLen, out);
    ghost var header := OuterHeader(frameType, payloadLen);
    CopyPayload(out, 6, payload, payloadLen);
    assert out[..6] == header;
    assert out[..6 + payloadLen] == out[..6] + out[6..6 + payloadLen];
    WriteCrc(tables, out, 6 + payloadLen);
    len := total;
  }
}
