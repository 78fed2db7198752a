/** Encrypted packets: PKCS7 padding, the lenient decryption, and the way from sender to receiver. */
module Session {
  import opened Bytes
  import opened Crc
  import opened Packet
  import opened Stream
  import opened FrameBuf

  /** The esp_err_t values these routines return. */
  datatype Err = Ok | Fail | NoMem | InvalidArg | InvalidState | InvalidSize | NotSupported | Timeout | InvalidResponse

  /** AES-128-CBC under one key and iv: on whole blocks a bijection that keeps the length. */
  datatype Cipher = Cipher(enc: seq<byte> -> seq<byte>, dec: seq<byte> -> seq<byte>) {
    ghost predicate Valid() {
      && (forall s :: |s| % 16 == 0 ==> |enc(s)| == |s| && dec(enc(s)) == s)
      && (forall s :: |s| % 16 == 0 ==> |dec(s)| == |s| && enc(dec(s)) == s)
    }
  }

  // ---------- PKCS7 ----------

  function Fill(n: nat, b: byte): (r: seq<byte>)
    ensures |r| == n && forall i :: 0 <= i < n ==> r[i] == b
  {
    seq(n, _ => b)
  }

  /** Section 6.3 of RFC 5652, for blocks of 16. */
  function Pad(m: seq<byte>): (r: seq<byte>)
    ensures |r| == |m| + 16 - |m| % 16 && |r| % 16 == 0 && m <= r
  {
    var k := 16 - |m| % 16;
    m + Fill(k, k)
  }

  /** The last byte counts itself and as many equal bytes before it. */
  predicate Padded(s: seq<byte>) {
    && |s| > 0 && 1 <= s[|s| - 1] <= 16 && s[|s| - 1] <= |s|
    && forall i :: |s| - s[|s| - 1] as int <= i < |s| ==> s[i] == s[|s| - 1]
  }

  /** The lenient unpadding: bytes without valid padding are kept as they are. */
  function Unpad(s: seq<byte>): seq<byte> {
    if Padded(s) then s[..|s| - s[|s| - 1] as int] else s
  }

  lemma UnpadPad(m: seq<byte>)
    ensures Padded(Pad(m)) && Unpad(Pad(m)) == m
  {
    var k: byte := 16 - |m| % 16;
    var s := Pad(m);
    assert s[|s| - 1] == k;
    assert forall i :: |m| <= i < |s| ==> s[i] == k;
  }

  /** On whole blocks the unpadding undoes the padding, and changes nothing else. */
  lemma UnpadExactly(s: seq<byte>, m: seq<byte>)
    requires |s| % 16 == 0
    ensures Padded(s) ==> s == Pad(Unpad(s))
    ensures s == Pad(m) <==> Padded(s) && Unpad(s) == m
    ensures (forall u :: s != Pad(u)) ==> Unpad(s) == s
  {
    hide Pad, Padded;
    if Padded(s) {
      PadUnpad(s);
    }
    UnpadPad(m);
  }

  /** The padding: as many bytes as complete a block, at least one, each telling how many they are. */
  lemma PadLayout(m: seq<byte>)
    ensures var s, k := Pad(m), 16 - |m| % 16;
            1 <= k <= 16 && |s| % 16 == 0 && |s| == |m| + k && s[..|m|] == m && forall i :: |m| <= i < |s| ==> s[i] == k
  {}

  lemma PadUnpad(s: seq<byte>)
    requires |s| % 16 == 0 && Padded(s)
    ensures s == Pad(Unpad(s))
  {
    var k := s[|s| - 1];
    var u := Unpad(s);
    RestOfBlock(|s|, k);
    assert s[|u|..] == Fill(k, k);
    assert s == u + s[|u|..];
  }

  lemma RestOfBlock(n: nat, k: nat)
    requires n % 16 == 0 && 1 <= k <= 16 && k <= n
    ensures 16 - (n - k) % 16 == k
  {}

  /** The part of a ciphertext that is decrypted. */
  function Aligned(n: nat): nat {
    n - n % 16
  }

  /** river2_session_decrypt; psa tells whether the PSA calls succeed. */
  function Decrypt(c: Cipher, s: seq<byte>, outCap: nat, psa: bool): (Err, seq<byte>) {
    var n := Aligned(|s|);
    if n == 0 then (Ok, [])
    else if outCap < n then (InvalidSize, [])
    else if !psa then (Fail, [])
    else (Ok, Unpad(c.dec(s[..n])))
  }

  /** Whole blocks are decrypted, if there is room, and bytes after the last whole block are ignored. */
  lemma DecryptExactly(c: Cipher, s: seq<byte>, t: seq<byte>, outCap: nat)
    requires |s| % 16 == 0 && |t| < 16
    ensures Decrypt(c, s + t, outCap, true)
            == if s == [] then (Ok, []) else if outCap < |s| then (InvalidSize, []) else (Ok, Unpad(c.dec(s)))
    ensures Decrypt(c, s + t, outCap, false).0
            == if s == [] then Ok else if outCap < |s| then InvalidSize else Fail
  {
    hide Unpad;
    assert (s + t)[..|s|] == s;
    BlocksOf(|s|, |t|);
  }

  lemma BlocksOf(n: nat, k: nat)
    requires n % 16 == 0 && k < 16
    ensures Aligned(n + k) == n
  {}

  // ---------- From sender to receiver ----------

  const FRAME_COMMAND: byte := 0x00
  const FRAME_DATA: byte := 0x01
  const INNER_CAP: nat := 300
  const RECEIVE_CAP: nat := 256

  /** The bytes send_inner_encrypted hands to the BLE layer. */
  function Sealed(c: Cipher, p: Inner): seq<byte> {
    OuterBytes(FRAME_DATA, c.enc(Pad(InnerBytes(p))))
  }

  /** What a receiver with a 256-byte buffer makes of a data frame's payload. */
  function Opened(c: Cipher, s: seq<byte>): Option<Inner> {
    var (err, plain) := Decrypt(c, s, RECEIVE_CAP, true);
    if err != Ok then None else ParseInner(plain)
  }

  lemma EncryptedBlocks(c: Cipher, s: seq<byte>)
    requires c.Valid() && |s| % 16 == 0
    ensures |c.enc(s)| == |s| && c.dec(c.enc(s)) == s
  {}

  lemma DecryptedBlocks(c: Cipher, s: seq<byte>)
    requires c.Valid() && |s| % 16 == 0
    ensures |c.dec(s)| == |s| && c.enc(c.dec(s)) == s
  {}

  /** Decryption undoes padding and encryption, when the receiver has room for the padded text. */
  lemma DecryptSealed(c: Cipher, m: seq<byte>, outCap: nat)
    requires c.Valid()
    ensures Decrypt(c, c.enc(Pad(m)), outCap, true) == if outCap < |Pad(m)| then (InvalidSize, []) else (Ok, m)
  {
    hide Pad, Unpad, c.Valid;
    EncryptedBlocks(c, Pad(m));
    UnpadPad(m);
    var s := c.enc(Pad(m));
    assert s[..|s|] == s;
  }

  lemma OpenedIff(c: Cipher, p: Inner)
    requires c.Valid()
    ensures var s := c.enc(Pad(InnerBytes(p)));
            && (Opened(c, s) == Some(p) <==> |p.payload| <= 237)
            && (|p.payload| > 237 ==> Decrypt(c, s, RECEIVE_CAP, true).0 == InvalidSize)
  {
    hide ParseInner, InnerBytes, Pad, Decrypt, c.Valid;
    DecryptSealed(c, InnerBytes(p), RECEIVE_CAP);
    InnerRoundTrip(p);
    PaddedLength(|p.payload|, |Pad(InnerBytes(p))|);
  }

  /** A packet the sender can build arrives as one data frame, and is read back, whatever its contents, exactly when
      its payload has at most 237 bytes; a longer one is refused for its size. */
  lemma EndToEnd(c: Cipher, p: Inner)
    requires c.Valid() && |p.payload| <= 282
    ensures Scan(Sealed(c, p)).0 == [Frame(FRAME_DATA, c.enc(Pad(InnerBytes(p))))]
    ensures var s := c.enc(Pad(InnerBytes(p)));
            && (Opened(c, s) == Some(p) <==> |p.payload| <= 237)
            && (|p.payload| > 237 ==> Decrypt(c, s, RECEIVE_CAP, true).0 == InvalidSize)
  {
    hide InnerBytes, OuterBytes, Pad, Scan, Opened, Decrypt, c.Valid;
    EncryptedBlocks(c, Pad(InnerBytes(p)));
    FrameRoundTrip(Frame(FRAME_DATA, c.enc(Pad(InnerBytes(p)))));
    OpenedIff(c, p);
  }

  lemma PaddedLength(n: nat, total: nat)
    requires total == n + 18 + 16 - (n + 18) % 16
    ensures total % 16 == 0 && total > 0 && (total <= 256 <==> n <= 237)
  {}

  function SealedFrames(c: Cipher, ps: seq<Inner>): (r: seq<Frame>)
    ensures |r| == |ps|
  {
    seq(|ps|, i requires 0 <= i < |ps| => Frame(FRAME_DATA, c.enc(Pad(InnerBytes(ps[i])))))
  }

  /** Packets sealed and sent with quiet gaps all arrive, in order, and open to what was sent, however the stream
      is split into chunks. */
  lemma PacketsDelivered(c: Cipher, calls: seq<Call>, gaps: seq<seq<byte>>, ps: seq<Inner>)
    requires c.Valid() && |gaps| == |ps| + 1
    requires forall i :: 0 <= i < |gaps| ==> Quiet(gaps[i])
    requires forall i :: 0 <= i < |ps| ==> |ps[i].payload| <= 237
    requires var r := Steps(START, calls); Drained(r.buf) && r.accepted == Wire(gaps, SealedFrames(c, ps))
    ensures var fs := Steps(START, calls).frames;
            && |fs| == |ps|
            && forall i :: 0 <= i < |ps| ==> fs[i].kind == FRAME_DATA && Opened(c, fs[i].payload) == Some(ps[i])
  {
    hide InnerBytes, Pad, Scan, Opened, Steps, Drained, Quiet, Wire, c.Valid;
    forall i | 0 <= i < |ps|
      ensures Sendable(SealedFrames(c, ps)[i]) && Opened(c, SealedFrames(c, ps)[i].payload) == Some(ps[i])
    {
      EncryptedBlocks(c, Pad(InnerBytes(ps[i])));
      PaddedLength(|ps[i].payload|, |Pad(InnerBytes(ps[i]))|);
      OpenedIff(c, ps[i]);
    }
    DeliveredInOrder(calls, gaps, SealedFrames(c, ps));
  }

  // ---------- The code ----------

  /** The PSA cipher's output, written to out. */
  method Store(out: array<byte>, s: seq<byte>)
    requires |s| <= out.Length
    modifies out
    ensures out[..|s|] == s
  {
    forall i | 0 <= i < |s| {
      out[i] := s[i];
    }
  }

  /** aes_cbc_encrypt_pkcs7, the PSA cipher filling out when it has room. */
  method EncryptPkcs7(c: Cipher, input: array<byte>, inLen: nat, out: array<byte>, outCap: nat, psa: bool)
    returns (err: Err, outLen: nat)
    requires c.Valid() && inLen <= input.Length && outCap <= out.Length
    modifies out
    ensures err == if psa && |Pad(old(input[..inLen]))| <= outCap then Ok else Fail
    ensures err == Ok ==> outLen <= outCap && out[..outLen] == c.enc(Pad(old(input[..inLen])))
    ensures err == Ok ==> outLen == |Pad(old(input[..inLen]))|
  {
    outLen := 0;
    var sealed := c.enc(Pad(input[..inLen]));
    assert |sealed| == |Pad(input[..inLen])|;
    if !psa || |sealed| > outCap {
      return Fail, 0;
    }
    Store(out, sealed);
    err, outLen := Ok, |sealed|;
  }

  /** The padding check of river2_session_decrypt on the n decrypted bytes in out. */
  method UnpaddedLength(out: array<byte>, n: nat) returns (len: nat)
    requires 0 < n <= out.Length
    ensures len <= n && out[..len] == Unpad(out[..n])
  {
    ghost var s := out[..n];
    var pad := out[n - 1];
    var validPad := pad >= 1 && pad <= 16 && pad <= n;
    if validPad {
      var i := 0;
      while i < pad as int
        invariant 0 <= i <= pad as int
        invariant validPad
        invariant forall j :: n - i <= j < n ==> out[j] == pad
      {
        if out[n - 1 - i] != pad {
          validPad := false;
          assert s[n - 1 - i] != s[n - 1];
          break;
        }
        i := i + 1;
      }
    }
    assert validPad <==> Padded(s);
    len := if validPad then n - pad as int else n;
  }

  /** river2_session_decrypt on the inLen bytes of input from position from. */
  method SessionDecrypt(c: Cipher, input: seq<byte>, out: array<byte>, outCap: nat, psa: bool)
    returns (err: Err, outLen: nat)
    requires c.Valid() && outCap <= out.Length
    modifies out
    ensures outLen <= outCap
    ensures (err, out[..outLen]) == Decrypt(c, input, outCap, psa)
  {
    hide Unpad, c.Valid;
    outLen := 0;
    var aligned := |input| - |input| % 16;
    if aligned == 0 {
      return Ok, 0;
    }
    if outCap < aligned {
      return InvalidSize, 0;
    }
    if !psa {
      return Fail, 0;
    }
    DecryptedBlocks(c, input[..aligned]);
    var plain := c.dec(input[..aligned]);
    Store(out, plain);
    outLen := UnpaddedLength(out, aligned);
    err := Ok;
  }

  /** send_frame: the bytes given to river2_ble_write, whose own result is ble. */
  method SendFrame(tables: Tables, frameType: byte, payload: array?<byte>, payloadLen: nat, ble: Err)
    returns (err: Err, sent: seq<byte>)
    requires tables.Valid() && payload !in tables.Repr()
    requires payloadLen > 0 ==> payload != null && payloadLen <= payload.Length
    modifies tables.Repr()
    ensures tables.Valid()
    ensures (err, sent) == if payloadLen > 592 then (InvalidSize, [])
                           else (ble, OuterBytes(frameType, old(Pointed(payload, payloadLen))))
  {
    hide OuterBytes, tables.Valid;
    var frame := new byte[600];
    var frameLen := OuterBuild(tables, frameType, payload, payloadLen, frame, 600);
    if frameLen == 0 {
      return InvalidSize, [];
    }
    err, sent := ble, frame[..frameLen];
  }

  /** send_inner_encrypted. */
  method SendInnerEncrypted(tables: Tables, c: Cipher, src: byte, dst: byte, cmdSet: byte, cmdId: byte,
                            payload: array?<byte>, payloadLen: nat, psa: bool, ble: Err)
    returns (err: Err, sent: seq<byte>)
    requires c.Valid() && tables.Valid() && payload !in tables.Repr()
    requires payloadLen > 0 ==> payload != null && payloadLen <= payload.Length
    modifies tables.Repr()
    ensures tables.Valid()
    ensures (err, sent) == if payloadLen > 282 then (InvalidSize, [])
                           else if !psa then (Fail, [])
                           else (ble, Sealed(c, Inner(src, dst, cmdSet, cmdId, old(Pointed(payload, payloadLen)))))
  {
    hide OuterBytes, InnerBytes, tables.Valid;
    var inner := new byte[INNER_CAP];
    var innerLen := InnerBuild(tables, src, dst, cmdSet, cmdId, payload, payloadLen, inner, INNER_CAP);
    if innerLen == 0 {
      return InvalidSize, [];
    }
    var encrypted := new byte[320];
    ghost var plain := inner[..innerLen];
    var encryptedLen: nat;
    err, encryptedLen := EncryptPkcs7(c, inner, innerLen, encrypted, 320, psa);
    if err != Ok {
      return err, [];
    }
    assert plain == InnerBytes(Inner(src, dst, cmdSet, cmdId, old(Pointed(payload, payloadLen))));
    err, sent := SendFrame(tables, FRAME_DATA, encrypted, encryptedLen, ble);
  }
}
