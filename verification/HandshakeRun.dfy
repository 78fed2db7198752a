/** The handshake's code over BLE notifications: its outcome is the verdict on the bytes that arrive, unless something
    outside fails, and then it never reports success. */
module HandshakeRun {
  import opened Bytes
  import opened Crc
  import opened Packet
  import opened Stream
  import opened FrameBuf
  import opened Session
  import opened Handshake

  function Flatten(chunks: seq<seq<byte>>): seq<byte>
    decreases |chunks|
  {
    if |chunks| == 0 then [] else chunks[0] + Flatten(chunks[1..])
  }

  // ---------- What lies outside ----------

  /** The queue of BLE notifications; and memory, PSA calls and waits, each of which may fail whenever it is used.
      failures holds the codes under which the failures so far may be reported. */
  class Platform {
    var waiting: seq<seq<byte>>
    ghost var failures: set<Err>

    /** Whether one allocation is granted, or one PSA operation succeeds. */
    method Works(ghost code: Err) returns (ok: bool)
      modifies this`failures
      ensures failures == old(failures) + if ok then {} else {code}
    {
      ok := *;
      if !ok {
        failures := failures + {code};
      }
    }

    /** river2_ble_wait_notification, until a notification comes, the deadline passes or the link fails. */
    method Wait() returns (err: Err, chunk: seq<byte>)
      modifies this
      ensures old(failures) <= failures
      ensures err == Ok ==> old(|waiting|) > 0 && [chunk] + waiting == old(waiting) && failures == old(failures)
      ensures err != Ok ==> waiting == old(waiting) && (err in failures || (err == Timeout && |waiting| == 0))
    {
      chunk := [];
      err :| true;
      if err != Ok {
        failures := failures + {err};
      } else if |waiting| == 0 {
        err := Timeout;
      } else {
        chunk := waiting[0];
        waiting := waiting[1..];
      }
    }
  }

  // ---------- The frames to come ----------

  /** The frames still to come, buffered or waiting. */
  ghost function Coming(fb: FrameBuf, platform: Platform): seq<Frame>
    requires fb.Valid()
    reads fb, fb.data, platform`waiting
  {
    Scan(fb.Value().contents + Flatten(platform.waiting)).0
  }

  /** An extract takes the first of the coming frames, or changes none of them. */
  lemma ExtractComing(b: Buffered, alloc: bool, later: seq<byte>)
    ensures var (c, got) := AfterExtract(b, alloc);
            var before, after := Scan(b.contents + later).0, Scan(c.contents + later).0;
            if got.Some? then before == [got.value] + after && |c.contents| < |b.contents| else before == after
  {
    hide Scan, Stream.Extract;
    ExtractIsScan(b.contents);
    ScanConcat(b.contents, later);
    match Stream.Extract(b.contents) {
      case Wait(rest) =>
        assert [] + Scan(rest + later).0 == Scan(rest + later).0;
      case Got(f, held) =>
        ScanConcat(held, later);
        var tail := held[Size(f)..];
        ScanConcat(tail, later);
        var a, z := Scan(tail).0, Scan(Scan(tail).1 + later).0;
        assert ([f] + a) + z == [f] + (a + z);
    }
  }

  /** An appended chunk was coming before. */
  lemma AppendComing(contents: seq<byte>, chunk: seq<byte>, waiting: seq<seq<byte>>)
    ensures contents + Flatten([chunk] + waiting) == (contents + chunk) + Flatten(waiting)
  {
    assert ([chunk] + waiting)[1..] == waiting;
  }

  /** Neither the buffer nor its arrays are shared with the tables. */
  ghost predicate Ready(tables: Tables, fb: FrameBuf)
    reads tables, tables.crc8, tables.crc16, fb
  {
    tables.Valid() && fb.Valid() && fb.Apart(tables)
  }

  /** The buffer's arrays are the old ones or new. */
  twostate predicate Kept(fb: FrameBuf)
    reads fb
  {
    (fb.data == old(fb.data) || fresh(fb.data)) && (fb.scratch == old(fb.scratch) || fresh(fb.scratch))
  }

  /** The frames from position at are still to come. */
  ghost predicate Awaits(tables: Tables, fb: FrameBuf, platform: Platform, frames: seq<Frame>, at: nat)
    reads tables, tables.crc8, tables.crc16, fb, fb.data, platform`waiting
  {
    Ready(tables, fb) && at <= |frames| && Coming(fb, platform) == frames[at..]
  }

  // ---------- Waiting ----------

  /** One call of extract: the next of the coming frames, or, memory granted, none buffered. */
  method TakeFrame(tables: Tables, fb: FrameBuf, platform: Platform, ghost frames: seq<Frame>, ghost at: nat)
    returns (found: bool, kind: byte, payload: seq<byte>)
    requires Awaits(tables, fb, platform, frames, at)
    modifies fb, fb.data, fb.scratch, tables.Repr(), platform`failures
    ensures old(platform.failures) <= platform.failures
    ensures Kept(fb) && fb.data == old(fb.data)
    ensures found ==>
              at < |frames| && frames[at] == Frame(kind, payload) && Awaits(tables, fb, platform, frames, at + 1)
    ensures found ==> fb.len < old(fb.len)
    ensures !found ==>
              && Awaits(tables, fb, platform, frames, at)
              && (Timeout in platform.failures || Scan(fb.Value().contents).0 == [])
  {
    hide Scan, tables.Valid, AfterExtract, Flatten;
    ghost var b, later := fb.Value(), Flatten(platform.waiting);
    var payloadLen: nat;
    var alloc := platform.Works(Timeout);
    found, kind, payloadLen := fb.Extract(tables, alloc);
    ExtractComing(b, alloc, later);
    payload := [];
    if found {
      payload := fb.scratch[..payloadLen];
      ghost var coming := Coming(fb, platform);
      assert frames[at..] == [Frame(kind, payload)] + coming;
      assert frames[at] == frames[at..][0] && frames[at + 1..] == frames[at..][1..];
    } else if alloc {
      ExtractExactly(b, true);
    }
  }

  /** One notification appended. A failure means a timeout with no frame to come, or something outside that failed. */
  method TakeChunk(tables: Tables, fb: FrameBuf, platform: Platform, ghost frames: seq<Frame>, ghost at: nat)
    returns (err: Err)
    requires Awaits(tables, fb, platform, frames, at)
    requires Timeout in platform.failures || Scan(fb.Value().contents).0 == []
    modifies fb`data, fb`len, fb.data, platform
    ensures old(platform.failures) <= platform.failures
    ensures Ready(tables, fb) && Kept(fb)
    ensures err == Ok ==> Awaits(tables, fb, platform, frames, at) && |platform.waiting| < old(|platform.waiting|)
    ensures err != Ok ==> err in platform.failures || (err == Timeout && at == |frames|)
  {
    hide Scan, tables.Valid;
    ghost var b := fb.Value();
    var chunk: seq<byte>;
    err, chunk := platform.Wait();
    if err != Ok {
      assert b.contents + [] == b.contents;
      return err;
    }
    AppendComing(b.contents, chunk, platform.waiting);
    var buf := ArrayOf(chunk);
    assert buf[..|chunk|] == chunk;
    var alloc := platform.Works(NoMem);
    var ok := fb.Append(buf, |chunk|, alloc);
    AppendExactly(b, chunk, alloc);
    if !ok {
      return NoMem;
    }
  }

  method ArrayOf(s: seq<byte>) returns (a: array<byte>)
    ensures fresh(a) && a.Length == |s| && a[..] == s
  {
    a := new byte[|s|](i requires 0 <= i < |s| => s[i]);
  }

  /** wait_for_frame: from position at of all the frames, the next one of the wanted type; a failure means that there is
      none, or that something outside failed. */
  method WaitForFrame(tables: Tables, fb: FrameBuf, platform: Platform, want: byte, ghost frames: seq<Frame>,
                      ghost at: nat)
    returns (err: Err, payload: seq<byte>, ghost next: nat)
    requires Awaits(tables, fb, platform, frames, at)
    modifies fb, fb.data, fb.scratch, tables.Repr(), platform
    ensures old(platform.failures) <= platform.failures
    ensures Ready(tables, fb) && Kept(fb)
    ensures err == Ok ==>
              at < next && Awaits(tables, fb, platform, frames, next) && frames[next - 1] == Frame(want, payload)
    ensures err == Ok ==> forall i :: at <= i < next - 1 ==> frames[i].kind != want
    ensures err != Ok ==>
              err in platform.failures || (err == Timeout && forall i :: at <= i < |frames| ==> frames[i].kind != want)
  {
    hide Scan, tables.Valid, Coming;
    next, payload := at, [];
    while true
      invariant old(platform.failures) <= platform.failures
      invariant Kept(fb) && at <= next && Awaits(tables, fb, platform, frames, next)
      invariant forall i :: at <= i < next ==> frames[i].kind != want
      decreases |platform.waiting|, fb.len
    {
      var found, kind, data := TakeFrame(tables, fb, platform, frames, next);
      if found {
        next := next + 1;
        if kind == want {
          return Ok, data, next;
        }
      } else {
        err := TakeChunk(tables, fb, platform, frames, next);
        if err != Ok {
          return err, [], next;
        }
      }
    }
  }

  /** A data frame's payload decrypted into a 256-byte buffer and parsed. */
  method OpenFrame(tables: Tables, platform: Platform, c: Cipher, payload: seq<byte>) returns (o: Opening)
    requires tables.Valid() && c.Valid()
    modifies tables.Repr(), platform`failures
    ensures tables.Valid() && old(platform.failures) <= platform.failures
    ensures o == Open(c, payload) || (o == Failed(Fail) && Fail in platform.failures)
  {
    hide c.Valid, tables.Valid, ParseInner, Unpad;
    var decrypted := new byte[RECEIVE_CAP];
    var psa := platform.Works(Fail);
    var err, decryptedLen := SessionDecrypt(c, payload, decrypted, RECEIVE_CAP, psa);
    if err != Ok {
      return Failed(err);
    }
    var pkt := InnerParse(tables, decrypted, decryptedLen);
    match pkt {
      case None => o := Undecodable;
      case Some(p) => o := Carries(p);
    }
  }

  /** The frames before a data frame do not end a wait for data. */
  lemma {:induction false} SkipOthers(w: Wanted, frames: seq<Frame>, at: nat, next: nat)
    requires at <= next <= |frames| && !w.Command?
    requires forall i :: at <= i < next ==> frames[i].kind != FRAME_DATA
    ensures FirstAt(w, frames, at) == FirstAt(w, frames, next)
    decreases next - at
  {
    hide Open;
    if at < next {
      SkipOthers(w, frames, at + 1, next);
    }
  }

  lemma {:induction false} CommandAt(frames: seq<Frame>, at: nat, m: nat)
    requires at <= m <= |frames|
    requires forall i :: at <= i < m ==> frames[i].kind != FRAME_COMMAND
    requires m < |frames| ==> frames[m].kind == FRAME_COMMAND
    ensures FirstAt(Command, frames, at) == m
    decreases m - at
  {
    if at < m {
      CommandAt(frames, at + 1, m);
    }
  }

  lemma NoneLeft(w: Wanted, frames: seq<Frame>)
    ensures FirstAt(w, frames, |frames|) == |frames|
  {}

  lemma AtFrame(w: Wanted, frames: seq<Frame>, m: nat)
    requires m < |frames|
    ensures FirstAt(w, frames, m) == if Ends(w, frames[m]) then m else FirstAt(w, frames, m + 1)
  {
    hide Ends;
  }

  /** What a wait for data that started at `at` brings: the first frame that ends it, or a timeout without one. */
  ghost predicate Brings(w: Wanted, c: Cipher, frames: seq<Frame>, at: nat, o: Opening, next: nat)
    requires at <= |frames|
  {
    var m := FirstAt(w, frames, at);
    if m == |frames| then o == Failed(Timeout) else next == m + 1 && o == Open(c, frames[m].payload)
  }

  /** A failure that comes from outside. */
  ghost predicate FailedOutside(o: Opening, failures: set<Err>) {
    o.Failed? && o.err != Ok && o.err in failures
  }

  /** The next data frame: done if it, or a failure, ends the wait. */
  method DataStep(tables: Tables, fb: FrameBuf, platform: Platform, w: Wanted, c: Cipher,
                  ghost frames: seq<Frame>, ghost at: nat)
    returns (done: bool, o: Opening, ghost next: nat)
    requires (w == Status(c) || w == Result(c)) && c.Valid() && Awaits(tables, fb, platform, frames, at)
    modifies fb, fb.data, fb.scratch, tables.Repr(), platform
    ensures old(platform.failures) <= platform.failures
    ensures Ready(tables, fb) && Kept(fb)
    ensures done ==> Brings(w, c, frames, at, o, next) || FailedOutside(o, platform.failures)
    ensures done && !o.Failed? ==> Awaits(tables, fb, platform, frames, next)
    ensures !done ==> at < next && Awaits(tables, fb, platform, frames, next)
                      && FirstAt(w, frames, at) == FirstAt(w, frames, next)
  {
    hide c.Valid, Open, FirstAt, tables.Valid, Coming;
    var err: Err, payload: seq<byte>;
    err, payload, next := WaitForFrame(tables, fb, platform, FRAME_DATA, frames, at);
    if err != Ok {
      if err !in platform.failures {
        SkipOthers(w, frames, at, |frames|);
        NoneLeft(w, frames);
      }
      return true, Failed(err), next;
    }
    SkipOthers(w, frames, at, next - 1);
    AtFrame(w, frames, next - 1);
    o := OpenFrame(tables, platform, c, payload);
    done := match o {
      case Failed(_) => true
      case Undecodable => false
      case Carries(p) => w.Result? || FromAuth(p)
    };
  }

  /** The loops of steps 3 and 4: data frames until one ends the wait. */
  method AwaitData(tables: Tables, fb: FrameBuf, platform: Platform, w: Wanted, c: Cipher,
                   ghost frames: seq<Frame>, ghost at: nat)
    returns (o: Opening, ghost next: nat)
    requires (w == Status(c) || w == Result(c)) && c.Valid() && Awaits(tables, fb, platform, frames, at)
    modifies fb, fb.data, fb.scratch, tables.Repr(), platform
    ensures old(platform.failures) <= platform.failures
    ensures Ready(tables, fb) && Kept(fb)
    ensures Brings(w, c, frames, at, o, next) || FailedOutside(o, platform.failures)
    ensures !o.Failed? ==> Awaits(tables, fb, platform, frames, next)
  {
    hide c.Valid, Open, FirstAt, tables.Valid, Awaits, Ends;
    next := at;
    var done: bool;
    done, o, next := DataStep(tables, fb, platform, w, c, frames, next);
    while !done
      invariant old(platform.failures) <= platform.failures
      invariant Ready(tables, fb) && Kept(fb)
      invariant !done ==> Awaits(tables, fb, platform, frames, next) && next <= |frames|
                          && FirstAt(w, frames, at) == FirstAt(w, frames, next)
      invariant done ==> Brings(w, c, frames, at, o, next) || FailedOutside(o, platform.failures)
      invariant done && !o.Failed? ==> Awaits(tables, fb, platform, frames, next)
      decreases !done, |frames| - next
    {
      done, o, next := DataStep(tables, fb, platform, w, c, frames, next);
      assert !done ==> next <= |frames| by { if !done { AwaitsWithin(tables, fb, platform, frames, next); } }
    }
  }

  lemma AwaitsWithin(tables: Tables, fb: FrameBuf, platform: Platform, frames: seq<Frame>, at: nat)
    requires Awaits(tables, fb, platform, frames, at)
    ensures at <= |frames|
  {}

  /** A command frame sent and the command reply awaited. */
  method Exchange(tables: Tables, fb: FrameBuf, platform: Platform, request: seq<byte>, ble: Err,
                  ghost frames: seq<Frame>, ghost at: nat)
    returns (err: Err, sent: seq<byte>, reply: seq<byte>, ghost next: nat)
    requires Awaits(tables, fb, platform, frames, at) && |request| <= 592
    modifies fb, fb.data, fb.scratch, tables.Repr(), platform
    ensures old(platform.failures) <= platform.failures
    ensures Ready(tables, fb) && Kept(fb)
    ensures sent == OuterBytes(FRAME_COMMAND, request)
    ensures var m := FirstAt(Command, frames, at);
            if ble != Ok then err == ble
            else if err == Ok then m < |frames| && reply == frames[m].payload && next == m + 1
                                   && Awaits(tables, fb, platform, frames, next)
            else err in platform.failures || (err == Timeout && m == |frames|)
  {
    hide OuterBytes, FirstAt, tables.Valid, Scan;
    reply, next := [], at;
    var payload := ArrayOf(request);
    assert payload[..|request|] == request;
    err, sent := SendFrame(tables, FRAME_COMMAND, payload, |request|, ble);
    if err != Ok {
      return;
    }
    err, reply, next := WaitForFrame(tables, fb, platform, FRAME_COMMAND, frames, at);
    if err == Ok {
      CommandAt(frames, at, next - 1);
    } else if err !in platform.failures {
      CommandAt(frames, at, |frames|);
    }
  }

  // ---------- Replies ----------

  /** The reply to our public key, field by field. */
  method ReadPublicKeyReply(env: Env, reply: seq<byte>) returns (err: Err, interim: Keys)
    requires env.Valid()
    ensures (err, interim) == PublicKeyReply(env, reply)
  {
    hide env.Valid;
    interim := NO_KEYS;
    if |reply| < 3 || reply[0] != 0x01 {
      return InvalidResponse, interim;
    }
    var curveType := reply[2];
    var devPubSize: nat;
    if curveType == 1 {
      devPubSize := 52;
    } else if curveType == 2 {
      devPubSize := 56;
    } else if curveType == 3 || curveType == 4 {
      devPubSize := 64;
    } else {
      devPubSize := 40;
    }
    if devPubSize != 40 {
      return NotSupported, interim;
    }
    if |reply| < 3 + devPubSize {
      return InvalidSize, interim;
    }
    var shared := env.shared(reply[3..3 + devPubSize]);
    SharedLength(env, reply[3..43]);
    if shared.0 != Ok {
      return shared.0, interim;
    }
    err, interim := Ok, Keys(shared.1[..16], env.md5(shared.1));
  }

  lemma SharedLength(env: Env, k: seq<byte>)
    requires env.Valid()
    ensures env.shared(k).0 == Ok ==> |env.shared(k).1| == 20
  {}

  /** The reply to the session-key request, decrypted into a 64-byte buffer. */
  method ReadSessionKeyReply(env: Env, platform: Platform, interim: Keys, reply: seq<byte>)
    returns (err: Err, session: Keys)
    requires env.Valid()
    modifies platform`failures
    ensures old(platform.failures) <= platform.failures
    ensures (err, session) == SessionKeyReply(env, interim, reply) || (err == Fail && Fail in platform.failures)
  {
    hide env.Valid, DeriveKey, Decrypt, Unpad;
    session := interim;
    if |reply| < 2 || reply[0] != 0x02 {
      return InvalidResponse, session;
    }
    var decrypted := new byte[64];
    CipherValid(env, interim);
    var psa := platform.Works(Fail);
    PsaFails(env.cipher(interim), reply[1..], 64);
    var decryptedLen;
    err, decryptedLen := SessionDecrypt(env.cipher(interim), reply[1..], decrypted, 64, psa);
    if err != Ok {
      return;
    }
    if decryptedLen < 18 {
      return InvalidSize, session;
    }
    FrontOf(decrypted[..], decryptedLen);
    assert decrypted[..][..decryptedLen] == decrypted[..decryptedLen] && decrypted[..][..16] == decrypted[..16];
    var key;
    err, key := DeriveSessionKey(env, decrypted[16], decrypted[17], decrypted[..16]);
    session := Keys(key, interim.iv);
  }

  /** A PSA failure shows as itself or not at all. */
  lemma PsaFails(c: Cipher, s: seq<byte>, cap: nat)
    ensures Decrypt(c, s, cap, false) == Decrypt(c, s, cap, true) || Decrypt(c, s, cap, false).0 == Fail
  {
    hide Unpad;
  }

  lemma FrontOf(s: seq<byte>, n: nat)
    requires 18 <= n <= |s|
    ensures s[..n][..16] == s[..16] && s[..n][16] == s[16] && s[..n][17] == s[17]
  {}

  /** derive_session_key: sixteen bytes of the lookup table and the random bytes, hashed together. */
  method DeriveSessionKey(env: Env, seed0: byte, seed1: byte, srand: seq<byte>) returns (err: Err, key: seq<byte>)
    requires env.Valid() && |srand| == 16
    ensures (err, key) == DeriveKey(env, seed0, seed1, srand)
  {
    var pos := seed0 as int * 0x10 + (seed1 as int - 1) % 256 * 0x100;
    if pos + 16 > LUT_SIZE {
      return InvalidState, [];
    }
    var data := new byte[32];
    forall i | 0 <= i < 16 {
      data[i] := env.lookup[pos + i];
    }
    forall i | 0 <= i < 16 {
      data[16 + i] := srand[i];
    }
    assert data[..] == env.lookup[pos..pos + 16] + srand;
    err, key := Ok, env.md5(data[..]);
  }

  // ---------- The digest in hexadecimal ----------

  /** One past the last byte that call i of snprintf stores: its two digits and the terminator. */
  function StoresUpTo(i: nat): nat {
    2 * i + 3
  }

  /** snprintf(&hex_payload[i * 2], 3, "%02X", b) on a hex_payload that begins at base. */
  method PrintHex(memory: array<byte>, base: nat, i: nat, b: byte)
    requires base + StoresUpTo(i) <= memory.Length
    modifies memory
    ensures memory[base + 2 * i] == HexDigit(b / 16) && memory[base + 2 * i + 1] == HexDigit(b % 16)
    ensures memory[base + StoresUpTo(i) - 1] == 0
    ensures forall k :: 0 <= k < memory.Length && !(base + 2 * i <= k < base + StoresUpTo(i)) ==>
              memory[k] == old(memory[k])
  {
    var at := base + i * 2;
    memory[at] := HexDigit(b / 16);
    memory[at + 1] := HexDigit(b % 16);
    memory[at + 2] := 0;
  }

  /** The sixteen calls on the 32 bytes of hex_payload, which begin at base. The last terminator goes to the byte after
      them, whatever it belongs to. */
  method WriteHex(digest: seq<byte>, memory: array<byte>, base: nat)
    requires |digest| == 16 && base + StoresUpTo(15) <= memory.Length
    modifies memory
    ensures memory[base..base + 32] == Hex(digest) && memory[base + 32] == 0
    ensures forall k :: 0 <= k < memory.Length && !(base <= k <= base + 32) ==> memory[k] == old(memory[k])
  {
    for i := 0 to 16
      invariant forall k :: 0 <= k < 2 * i ==> memory[base + k] == Hex(digest)[k]
      invariant i > 0 ==> memory[base + 2 * i] == 0
      invariant forall k :: 0 <= k < memory.Length && !(base <= k <= base + 32) ==> memory[k] == old(memory[k])
    {
      PrintHex(memory, base, i, digest[i]);
    }
  }

  /** The calls stay inside an array exactly when it has 33 bytes; the code's has 32. */
  lemma HexRoom(length: nat)
    ensures (forall i: nat :: i < 16 ==> StoresUpTo(i) <= length) <==> length >= 33
  {
    assert StoresUpTo(15) == 33;
  }

  // ---------- The four steps ----------

  /** Where river2_auth_run writes the session. */
  class SessionBox {
    var keys: Keys
  }

  /** The result of a step is the verdict's, and out is written only on success. */
  ghost predicate Concludes(v: Verdict, err: Err, sent: seq<seq<byte>>, before: Keys, after: Keys) {
    err == v.err && sent == v.sent && after == if err == Ok then v.keys else before
  }

  /** The step is cut short: an error, out as it was, and nothing sent that the verdict does not send. */
  ghost predicate CutShort(v: Verdict, err: Err, sent: seq<seq<byte>>, before: Keys, after: Keys) {
    err != Ok && sent <= v.sent && after == before
  }

  lemma AuthSends(env: Env, frames: seq<Frame>, at: nat, session: Keys, before: seq<seq<byte>>)
    requires env.Valid() && at <= |frames|
    ensures var v := FromAuth4(env, frames, at, session, before);
            && before <= v.sent
            && (|env.user| + |env.serial| <= 40 ==> v.sent == before + [AuthFrame(env, env.cipher(session))])
  {
    hide env.Valid, AuthFrame, Open, FirstAt, AuthResult;
  }

  lemma WakeUpSends(env: Env, frames: seq<Frame>, at: nat, session: Keys, before: seq<seq<byte>>)
    requires env.Valid() && at <= |frames|
    ensures before + [WakeUpFrame(env.cipher(session))] <= FromWakeUp(env, frames, at, session, before).sent
  {
    hide env.Valid, WakeUpFrame, Open, FirstAt, FromAuth4;
    var k, sent := FirstAt(Status(env.cipher(session)), frames, at), before + [WakeUpFrame(env.cipher(session))];
    if k < |frames| {
      AuthSends(env, frames, k + 1, session, sent);
    }
  }

  lemma SessionKeySends(env: Env, frames: seq<Frame>, at: nat, interim: Keys, before: seq<seq<byte>>)
    requires env.Valid() && at <= |frames|
    ensures before + [SessionKeyFrame()] <= FromSessionKey(env, frames, at, interim, before).sent
  {
    hide env.Valid, SessionKeyFrame, SessionKeyReply, WakeUpFrame, FirstAt, FromWakeUp;
    var j, sent := FirstAt(Command, frames, at), before + [SessionKeyFrame()];
    if j < |frames| {
      WakeUpSends(env, frames, j + 1, SessionKeyReply(env, interim, frames[j].payload).1, sent);
    }
  }

  lemma PublicKeySends(env: Env, frames: seq<Frame>)
    requires env.Valid() && env.keygen == Ok
    ensures [PublicKeyFrame(env)] <= AuthVerdict(env, frames).sent
  {
    hide env.Valid, SessionKeyFrame, PublicKeyReply, PublicKeyFrame, FirstAt, FromSessionKey;
    var i, sent := FirstAt(Command, frames, 0), [PublicKeyFrame(env)];
    if i < |frames| {
      SessionKeySends(env, frames, i + 1, PublicKeyReply(env, frames[i].payload).1, sent);
    }
  }

  lemma OpenedData(w: Wanted, c: Cipher, frames: seq<Frame>, at: nat)
    requires (w == Status(c) || w == Result(c)) && at <= |frames| && FirstAt(w, frames, at) < |frames|
    ensures var o := Open(c, frames[FirstAt(w, frames, at)].payload); !o.Undecodable? && (o.Failed? ==> o.err != Ok)
  {
    hide Open, FirstAt;
    OpenFailed(c, frames[FirstAt(w, frames, at)].payload);
  }

  /** The authentication packet: 32 hexadecimal digits. */
  method SendAuth(tables: Tables, env: Env, c: Cipher, psa: bool) returns (err: Err, sent: seq<byte>)
    requires env.Valid() && c.Valid() && tables.Valid()
    modifies tables.Repr()
    ensures tables.Valid()
    ensures if psa then err == env.ble(3) && sent == AuthFrame(env, c) else err == Fail
  {
    hide Sealed, c.Valid, tables.Valid, Hex;
    // the 32 bytes of hex_payload and the one after them
    var payload := new byte[33];
    WriteHex(env.md5(env.user + env.serial), payload, 0);
    err, sent := SendInnerEncrypted(tables, c, ADDR_APP, ADDR_AUTH, 0x35, 0x86, payload, 32, psa, env.ble(3));
  }

  /** Step 4: auto-authentication. */
  method RunAuth(tables: Tables, env: Env, fb: FrameBuf, platform: Platform, session: Keys, before: seq<seq<byte>>,
                 out: SessionBox, ghost frames: seq<Frame>, ghost at: nat)
    returns (err: Err, sent: seq<seq<byte>>)
    requires env.Valid() && Awaits(tables, fb, platform, frames, at)
    modifies fb, fb.data, fb.scratch, tables.Repr(), platform, out
    ensures tables.Valid() && old(platform.failures) <= platform.failures
    ensures var v := FromAuth4(env, frames, at, session, before);
            || Concludes(v, err, sent, old(out.keys), out.keys)
            || (err in platform.failures && CutShort(v, err, sent, old(out.keys), out.keys))
  {
    hide env.Valid, Coming, Open, AuthFrame, Hex, tables.Valid, FirstAt, Ends;
    var c := env.cipher(session);
    CipherValid(env, session);
    AuthSends(env, frames, at, session, before);
    sent := before;
    if |env.user| + |env.serial| > 40 {
      return InvalidSize, sent;
    }
    var psa := platform.Works(Fail);
    var frame: seq<byte>;
    err, frame := SendAuth(tables, env, c, psa);
    if psa {
      sent := sent + [frame];
    }
    if err != Ok {
      return;
    }
    var o: Opening;
    ghost var next: nat;
    o, next := AwaitData(tables, fb, platform, Result(c), c, frames, at);
    if FirstAt(Result(c), frames, at) < |frames| {
      OpenedData(Result(c), c, frames, at);
    }
    match o {
      case Failed(e) => err := e;
      case Undecodable => err := Timeout;
      case Carries(p) => err := AuthResult(p);
    }
    if err == Ok {
      out.keys := session;
    }
  }

  /** Step 3: auth-status wake-up, and the steps after it. */
  method RunWakeUp(tables: Tables, env: Env, fb: FrameBuf, platform: Platform, session: Keys, before: seq<seq<byte>>,
                   out: SessionBox, ghost frames: seq<Frame>, ghost at: nat)
    returns (err: Err, sent: seq<seq<byte>>)
    requires env.Valid() && Awaits(tables, fb, platform, frames, at)
    modifies fb, fb.data, fb.scratch, tables.Repr(), platform, out
    ensures tables.Valid() && old(platform.failures) <= platform.failures
    ensures var v := FromWakeUp(env, frames, at, session, before);
            || Concludes(v, err, sent, old(out.keys), out.keys)
            || (err in platform.failures && CutShort(v, err, sent, old(out.keys), out.keys))
  {
    hide env.Valid, Coming, Open, WakeUpFrame, tables.Valid, FirstAt, Ends, FromAuth4;
    var c := env.cipher(session);
    CipherValid(env, session);
    WakeUpSends(env, frames, at, session, before);
    var psa := platform.Works(Fail);
    var frame: seq<byte>;
    err, frame := SendWakeUp(tables, env, c, psa);
    sent := if psa then before + [frame] else before;
    if err != Ok {
      return;
    }
    var o: Opening;
    ghost var next: nat;
    o, next := AwaitData(tables, fb, platform, Status(c), c, frames, at);
    if FirstAt(Status(c), frames, at) < |frames| {
      OpenedData(Status(c), c, frames, at);
    }
    if o.Failed? {
      return o.err, sent;
    }
    err, sent := RunAuth(tables, env, fb, platform, session, sent, out, frames, next);
  }

  method SendWakeUp(tables: Tables, env: Env, c: Cipher, psa: bool) returns (err: Err, sent: seq<byte>)
    requires c.Valid() && tables.Valid()
    modifies tables.Repr()
    ensures tables.Valid()
    ensures if psa then err == env.ble(2) && sent == WakeUpFrame(c) else err == Fail
  {
    hide Sealed, c.Valid, tables.Valid;
    err, sent := SendInnerEncrypted(tables, c, ADDR_APP, ADDR_AUTH, 0x35, 0x89, null, 0, psa, env.ble(2));
  }

  /** Step 2: session-key request, and the steps after it. */
  method RunSessionKey(tables: Tables, env: Env, fb: FrameBuf, platform: Platform, interim: Keys,
                       before: seq<seq<byte>>, out: SessionBox, ghost frames: seq<Frame>, ghost at: nat)
    returns (err: Err, sent: seq<seq<byte>>)
    requires env.Valid() && Awaits(tables, fb, platform, frames, at)
    modifies fb, fb.data, fb.scratch, tables.Repr(), platform, out
    ensures tables.Valid() && old(platform.failures) <= platform.failures
    ensures var v := FromSessionKey(env, frames, at, interim, before);
            || Concludes(v, err, sent, old(out.keys), out.keys)
            || (err in platform.failures && CutShort(v, err, sent, old(out.keys), out.keys))
  {
    hide env.Valid, Coming, OuterBytes, SessionKeyReply, tables.Valid, FirstAt, FromWakeUp;
    SessionKeySends(env, frames, at, interim, before);
    var frame: seq<byte>, reply: seq<byte>;
    ghost var next: nat;
    err, frame, reply, next := Exchange(tables, fb, platform, [0x02], env.ble(1), frames, at);
    sent := before + [frame];
    if err != Ok {
      return;
    }
    var session: Keys;
    err, session := ReadSessionKeyReply(env, platform, interim, reply);
    if err != Ok {
      return;
    }
    err, sent := RunWakeUp(tables, env, fb, platform, session, sent, out, frames, next);
  }

  /** river2_auth_run. What it returns, sends and writes is the verdict on the bytes that arrive, whatever chunks they
      come in. If memory, a PSA call or a wait fails on the way it may be cut short instead: then it returns the code of
      one of the failures and leaves out as it was. */
  method AuthRun(tables: Tables, env: Env, platform: Platform, out: SessionBox) returns (err: Err, sent: seq<seq<byte>>)
    requires env.Valid() && tables.Valid() && platform.failures == {}
    modifies tables.Repr(), platform, out
    ensures tables.Valid()
    ensures var v := AuthVerdict(env, Scan(old(Flatten(platform.waiting))).0);
            || Concludes(v, err, sent, old(out.keys), out.keys)
            || (err in platform.failures && CutShort(v, err, sent, old(out.keys), out.keys))
    ensures err != Ok ==> out.keys == old(out.keys)
    ensures err == Ok ==> AuthVerdict(env, Scan(old(Flatten(platform.waiting))).0).err == Ok
  {
    hide Coming, OuterBytes, PublicKeyReply, tables.Valid, FirstAt, FromSessionKey, Scan, Flatten;
    if env.keygen != Ok {
      return env.keygen, [];
    }
    var fb := new FrameBuf();
    ghost var frames := Scan(Flatten(platform.waiting)).0;
    AllComing(fb, platform);
    PublicKeySends(env, frames);
    var frame: seq<byte>, reply: seq<byte>;
    ghost var next: nat;
    err, frame, reply, next := Exchange(tables, fb, platform, [0x01, 0x00] + env.publicKey, env.ble(0), frames, 0);
    sent := [frame];
    if err != Ok {
      return;
    }
    var interim: Keys;
    err, interim := ReadPublicKeyReply(env, reply);
    if err != Ok {
      return;
    }
    err, sent := RunSessionKey(tables, env, fb, platform, interim, sent, out, frames, next);
  }

  lemma AllComing(fb: FrameBuf, platform: Platform)
    requires fb.Valid() && fb.Value() == EMPTY
    ensures Coming(fb, platform) == Scan(Flatten(platform.waiting)).0[0..]
  {
    hide Scan, Flatten;
    assert [] + Flatten(platform.waiting) == Flatten(platform.waiting);
  }
}
