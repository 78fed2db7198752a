/** The four-step handshake: what it makes of the frames that arrive, and when it succeeds. */
module Handshake {
  import opened Bytes
  import opened Packet
  import opened Stream
  import opened Session

  const ADDR_APP: byte := 0x21
  const ADDR_AUTH: byte := 0x35
  const LUT_SIZE: nat := 65280

  /** river2_session_t. */
  datatype Keys = Keys(key: seq<byte>, iv: seq<byte>)

  /** Everything the handshake takes from outside the byte stream: the key pair and the shared secret, MD5, AES,
      the results of the four writes, the lookup table, the user id and the serial number. */
  datatype Env = Env(keygen: Err, publicKey: seq<byte>, shared: seq<byte> -> (Err, seq<byte>),
                     md5: seq<byte> -> seq<byte>, cipher: Keys -> Cipher, ble: nat -> Err,
                     lookup: seq<byte>, user: seq<byte>, serial: seq<byte>)
  {
    ghost predicate Valid() {
      && |publicKey| == 40 && |lookup| == LUT_SIZE
      && (forall k :: shared(k).0 == Ok ==> |shared(k).1| == 20)
      && (forall s :: |md5(s)| == 16)
      && (forall k :: cipher(k).Valid())
    }
  }

  // ---------- Replies ----------

  /** Public key bytes that go with a curve type. */
  function PublicKeySize(curveType: byte): nat {
    if curveType == 1 then 52 else if curveType == 2 then 56 else if curveType == 3 || curveType == 4 then 64 else 40
  }

  /** The interim keys from the reply to our public key. */
  function PublicKeyReply(env: Env, reply: seq<byte>): (Err, Keys)
    requires env.Valid()
  {
    var none := Keys([], []);
    if |reply| < 3 || reply[0] != 0x01 then (InvalidResponse, none)
    else if PublicKeySize(reply[2]) != 40 then (NotSupported, none)
    else if |reply| < 43 then (InvalidSize, none)
    else
      var (err, secret) := env.shared(reply[3..43]);
      if err != Ok then (err, none) else (Ok, Keys(secret[..16], env.md5(secret)))
  }

  /** derive_session_key. */
  function DeriveKey(env: Env, seed0: byte, seed1: byte, srand: seq<byte>): (Err, seq<byte>)
    requires env.Valid()
  {
    var pos := seed0 as int * 0x10 + (seed1 as int - 1) % 256 * 0x100;
    if pos + 16 > LUT_SIZE then (InvalidState, []) else (Ok, env.md5(env.lookup[pos..pos + 16] + srand))
  }

  /** The session keys from the reply to the session-key request. */
  function SessionKeyReply(env: Env, interim: Keys, reply: seq<byte>): (Err, Keys)
    requires env.Valid()
  {
    if |reply| < 2 || reply[0] != 0x02 then (InvalidResponse, interim) else
    var (err, plain) := Decrypt(env.cipher(interim), reply[1..], 64, true);
    if err != Ok then (err, interim)
    else if |plain| < 18 then (InvalidSize, interim)
    else
      var (derived, key) := DeriveKey(env, plain[16], plain[17], plain[..16]);
      (derived, Keys(key, interim.iv))
  }

  /** A data frame's payload under the session keys. */
  datatype Opening = Failed(err: Err) | Undecodable | Carries(packet: Inner)

  function Open(c: Cipher, s: seq<byte>): Opening {
    var (err, plain) := Decrypt(c, s, RECEIVE_CAP, true);
    if err != Ok then Failed(err)
    else match ParseInner(plain)
      case None => Undecodable
      case Some(p) => Carries(p)
  }

  predicate FromAuth(p: Inner) {
    p.src == ADDR_AUTH && p.cmdSet == 0x35
  }

  /** The packet that answers auto-authentication: anything but an 0x86 reply of the auth board means we are in. */
  function AuthResult(p: Inner): Err {
    if !(FromAuth(p) && p.cmdId == 0x86) then Ok
    else if |p.payload| == 1 && p.payload[0] == 0x00 then Ok
    else InvalidState
  }

  // ---------- Waiting ----------

  /** What a step waits for: a command frame; a data frame from the auth board, or one that fails to decrypt;
      a data frame that decodes, or one that fails to decrypt. */
  datatype Wanted = Command | Status(c: Cipher) | Result(c: Cipher)

  predicate Ends(w: Wanted, f: Frame) {
    match w
    case Command => f.kind == FRAME_COMMAND
    case Status(c) => f.kind == FRAME_DATA && match Open(c, f.payload) {
        case Failed(_) => true
        case Undecodable => false
        case Carries(p) => FromAuth(p)
      }
    case Result(c) => f.kind == FRAME_DATA && !Open(c, f.payload).Undecodable?
  }

  /** The first frame from position `from` on that ends the wait, or the number of frames. */
  function FirstAt(w: Wanted, frames: seq<Frame>, from: nat): (r: nat)
    requires from <= |frames|
    ensures from <= r <= |frames|
    ensures r < |frames| ==> Ends(w, frames[r])
    ensures forall m :: from <= m < r ==> !Ends(w, frames[m])
    decreases |frames| - from
  {
    if from == |frames| || Ends(w, frames[from]) then from else FirstAt(w, frames, from + 1)
  }

  // ---------- The verdict on the frames of a whole stream ----------

  /** err, the keys when it is Ok, and the frames handed to the BLE layer. */
  datatype Verdict = Verdict(err: Err, keys: Keys, sent: seq<seq<byte>>)

  const NO_KEYS := Keys([], [])

  function HexDigit(n: nat): byte
    requires n < 16
  {
    if n < 10 then 0x30 + n else 0x41 + (n - 10)
  }

  /** Uppercase hexadecimal digits, two for each byte, high digit first. */
  function Hex(s: seq<byte>): (r: seq<byte>)
    ensures |r| == 2 * |s|
  {
    seq(2 * |s|, k requires 0 <= k < 2 * |s| => HexDigit(if k % 2 == 0 then s[k / 2] / 16 else s[k / 2] % 16))
  }

  /** The digits can be read back. */
  lemma HexInjective(s: seq<byte>, t: seq<byte>)
    ensures Hex(s) == Hex(t) <==> s == t
  {
    if Hex(s) == Hex(t) {
      assert |s| == |t|;
      forall i | 0 <= i < |s|
        ensures s[i] == t[i]
      {
        assert Hex(s)[2 * i] == Hex(t)[2 * i] && Hex(s)[2 * i + 1] == Hex(t)[2 * i + 1];
        SameDigits(s[i], t[i]);
      }
    }
  }

  lemma SameDigits(a: byte, b: byte)
    requires HexDigit(a / 16) == HexDigit(b / 16) && HexDigit(a % 16) == HexDigit(b % 16)
    ensures a == b
  {}

  function PublicKeyFrame(env: Env): seq<byte> {
    OuterBytes(FRAME_COMMAND, [0x01, 0x00] + env.publicKey)
  }

  function SessionKeyFrame(): seq<byte> {
    OuterBytes(FRAME_COMMAND, [0x02])
  }

  function WakeUpFrame(c: Cipher): seq<byte> {
    Sealed(c, Inner(ADDR_APP, ADDR_AUTH, 0x35, 0x89, []))
  }

  function AuthFrame(env: Env, c: Cipher): seq<byte> {
    Sealed(c, Inner(ADDR_APP, ADDR_AUTH, 0x35, 0x86, Hex(env.md5(env.user + env.serial))))
  }

  /** Step 1. */
  function AuthVerdict(env: Env, frames: seq<Frame>): Verdict
    requires env.Valid()
  {
    if env.keygen != Ok then Verdict(env.keygen, NO_KEYS, []) else
    var sent := [PublicKeyFrame(env)];
    if env.ble(0) != Ok then Verdict(env.ble(0), NO_KEYS, sent) else
    var i := FirstAt(Command, frames, 0);
    if i == |frames| then Verdict(Timeout, NO_KEYS, sent) else
    var (err, interim) := PublicKeyReply(env, frames[i].payload);
    if err != Ok then Verdict(err, NO_KEYS, sent) else
    FromSessionKey(env, frames, i + 1, interim, sent)
  }

  /** Step 2, on the frames from position at. */
  function FromSessionKey(env: Env, frames: seq<Frame>, at: nat, interim: Keys, before: seq<seq<byte>>): Verdict
    requires env.Valid() && at <= |frames|
  {
    var sent := before + [SessionKeyFrame()];
    if env.ble(1) != Ok then Verdict(env.ble(1), NO_KEYS, sent) else
    var j := FirstAt(Command, frames, at);
    if j == |frames| then Verdict(Timeout, NO_KEYS, sent) else
    var (err, session) := SessionKeyReply(env, interim, frames[j].payload);
    if err != Ok then Verdict(err, NO_KEYS, sent) else
    FromWakeUp(env, frames, j + 1, session, sent)
  }

  /** Step 3. */
  function FromWakeUp(env: Env, frames: seq<Frame>, at: nat, session: Keys, before: seq<seq<byte>>): Verdict
    requires env.Valid() && at <= |frames|
  {
    var c := env.cipher(session);
    var sent := before + [WakeUpFrame(c)];
    if env.ble(2) != Ok then Verdict(env.ble(2), NO_KEYS, sent) else
    var k := FirstAt(Status(c), frames, at);
    if k == |frames| then Verdict(Timeout, NO_KEYS, sent) else
    match Open(c, frames[k].payload)
    case Failed(err) => Verdict(err, NO_KEYS, sent)
    case _ => FromAuth4(env, frames, k + 1, session, sent)
  }

  /** Step 4. */
  function FromAuth4(env: Env, frames: seq<Frame>, at: nat, session: Keys, before: seq<seq<byte>>): Verdict
    requires env.Valid() && at <= |frames|
  {
    if |env.user| + |env.serial| > 40 then Verdict(InvalidSize, NO_KEYS, before) else
    var c := env.cipher(session);
    var sent := before + [AuthFrame(env, c)];
    if env.ble(3) != Ok then Verdict(env.ble(3), NO_KEYS, sent) else
    var l := FirstAt(Result(c), frames, at);
    if l == |frames| then Verdict(Timeout, NO_KEYS, sent) else
    match Open(c, frames[l].payload)
    case Failed(err) => Verdict(err, NO_KEYS, sent)
    case Carries(p) => Verdict(AuthResult(p), if AuthResult(p) == Ok then session else NO_KEYS, sent)
    case Undecodable => Verdict(Timeout, NO_KEYS, sent) // does not end the wait
  }

  // ---------- When the handshake succeeds ----------

  /** Frame m is the first of its wait, which started at `from`. */
  predicate IsFirst(w: Wanted, frames: seq<Frame>, from: nat, m: nat) {
    from <= m < |frames| && Ends(w, frames[m]) && forall i :: from <= i < m ==> !Ends(w, frames[i])
  }

  lemma FirstUnique(w: Wanted, frames: seq<Frame>, from: nat, m: nat)
    requires from <= |frames|
    ensures IsFirst(w, frames, from, m) <==> m < |frames| && FirstAt(w, frames, from) == m
  {
    hide Ends, FirstAt;
    var r := FirstAt(w, frames, from);
    if IsFirst(w, frames, from, m) {
      assert !(r < m) && !(m < r);
    }
  }

  /** Frame l lets the handshake in: the first data frame from position at that can be read carries a packet that is not
      an 0x86 reply of the auth board, or is one with the single byte zero. */
  ghost predicate LetsIn(env: Env, frames: seq<Frame>, at: nat, l: nat, session: Keys)
    requires env.Valid()
  {
    var c := env.cipher(session);
    && at <= l < |frames| && frames[l].kind == 1 && Open(c, frames[l].payload).Carries?
    && (var p := Open(c, frames[l].payload).packet;
        !(p.src == 0x35 && p.cmdSet == 0x35 && p.cmdId == 0x86) || p.payload == [0])
    && (forall i :: at <= i < l ==> frames[i].kind == 1 ==> Open(c, frames[i].payload).Undecodable?)
  }

  /** Frame k acknowledges the wake-up: the first data frame from position at that carries a packet of the auth board,
      the ones before it carrying others or nothing that can be read. */
  ghost predicate Acknowledges(env: Env, frames: seq<Frame>, at: nat, k: nat, session: Keys)
    requires env.Valid()
  {
    var c := env.cipher(session);
    && at <= k < |frames| && frames[k].kind == 1 && FromBoard(Open(c, frames[k].payload))
    && (forall i :: at <= i < k ==> frames[i].kind == 1 ==>
          var o := Open(c, frames[i].payload); o.Undecodable? || (o.Carries? && !FromBoard(o)))
  }

  predicate FromBoard(o: Opening) {
    o.Carries? && o.packet.src == 0x35 && o.packet.cmdSet == 0x35
  }

  /** Frame j, the first command frame from position at, brings the session keys: encrypted random bytes and a seed,
      which chooses sixteen bytes of the lookup table. */
  ghost predicate BringsSession(env: Env, frames: seq<Frame>, at: nat, j: nat, interim: Keys, session: Keys)
    requires env.Valid()
  {
    && at <= j < |frames| && frames[j].kind == 0 && (forall i :: at <= i < j ==> frames[i].kind != 0)
    && |frames[j].payload| >= 2 && frames[j].payload[0] == 0x02
    && (var (err, plain) := Decrypt(env.cipher(interim), frames[j].payload[1..], 64, true);
        && err == Ok && |plain| >= 18
        && (var from := SeedOffset(plain[16], plain[17]);
            && from + 16 <= 65280
            && session == Keys(env.md5(env.lookup[from..from + 16] + plain[..16]), interim.iv)))
  }

  /** Where a seed points in the lookup table, by section 3.2 of the protocol: the second byte counts from one, zero
      standing for 256. */
  function SeedOffset(seed0: byte, seed1: byte): nat {
    16 * seed0 as int + 256 * (if seed1 == 0 then 255 else seed1 as int - 1)
  }

  /** Frame i, the first command frame, brings the device's public key, of 40 bytes, and with it the interim keys. */
  ghost predicate BringsPublicKey(env: Env, frames: seq<Frame>, i: nat, interim: Keys)
    requires env.Valid()
  {
    && i < |frames| && frames[i].kind == 0 && (forall m :: 0 <= m < i ==> frames[m].kind != 0)
    && (var reply := frames[i].payload;
        && |reply| >= 43 && reply[0] == 0x01 && reply[2] !in {1, 2, 3, 4}
        && (var (err, secret) := env.shared(reply[3..43]);
            err == Ok && interim == Keys(secret[..16], env.md5(secret))))
  }

  // ---------- The milestones are where the waits end ----------

  lemma LetsInFirst(env: Env, frames: seq<Frame>, at: nat, l: nat, session: Keys)
    requires env.Valid()
    ensures LetsIn(env, frames, at, l, session) <==>
              && IsFirst(Result(env.cipher(session)), frames, at, l)
              && Open(env.cipher(session), frames[l].payload).Carries?
              && AuthResult(Open(env.cipher(session), frames[l].payload).packet) == Ok
  {
    hide env.Valid, Open;
  }

  lemma AcknowledgesFirst(env: Env, frames: seq<Frame>, at: nat, k: nat, session: Keys)
    requires env.Valid()
    ensures Acknowledges(env, frames, at, k, session) <==>
              && IsFirst(Status(env.cipher(session)), frames, at, k)
              && Open(env.cipher(session), frames[k].payload).Carries?
  {
    hide env.Valid, Open;
  }

  lemma BringsSessionFirst(env: Env, frames: seq<Frame>, at: nat, j: nat, interim: Keys, session: Keys)
    requires env.Valid()
    ensures BringsSession(env, frames, at, j, interim, session) <==>
              IsFirst(Command, frames, at, j) && SessionKeyReply(env, interim, frames[j].payload) == (Ok, session)
  {
    hide env.Valid, SessionKeyReply, SeedOffset, Decrypt;
    if IsFirst(Command, frames, at, j) {
      SessionKeyExactly(env, interim, frames[j].payload, session);
    }
  }

  lemma SessionKeyExactly(env: Env, interim: Keys, reply: seq<byte>, session: Keys)
    requires env.Valid()
    ensures SessionKeyReply(env, interim, reply) == (Ok, session) <==>
              && |reply| >= 2 && reply[0] == 0x02
              && (var (err, plain) := Decrypt(env.cipher(interim), reply[1..], 64, true);
                  && err == Ok && |plain| >= 18
                  && (var from := SeedOffset(plain[16], plain[17]);
                      && from + 16 <= 65280
                      && session == Keys(env.md5(env.lookup[from..from + 16] + plain[..16]), interim.iv)))
  {
    hide env.Valid, Decrypt, DeriveKey, SeedOffset;
    if |reply| >= 2 {
      var (err, plain) := Decrypt(env.cipher(interim), reply[1..], 64, true);
      if err == Ok && |plain| >= 18 {
        DerivedExactly(env, plain[16], plain[17], plain[..16]);
      }
    }
  }

  lemma DerivedExactly(env: Env, seed0: byte, seed1: byte, srand: seq<byte>)
    requires env.Valid()
    ensures var from, derived := SeedOffset(seed0, seed1), DeriveKey(env, seed0, seed1, srand);
            && |env.lookup| == 65280
            && if from + 16 <= 65280 then derived == (Ok, env.md5(env.lookup[from..from + 16] + srand))
               else derived.0 == InvalidState
  {}

  lemma BringsPublicKeyFirst(env: Env, frames: seq<Frame>, i: nat, interim: Keys)
    requires env.Valid()
    ensures BringsPublicKey(env, frames, i, interim) <==>
              IsFirst(Command, frames, 0, i) && PublicKeyReply(env, frames[i].payload) == (Ok, interim)
  {}

  /** An 0x01 reply, an 0x02 reply, an auth-board packet, and a first decodable packet after it that is not an
      0x86 reply or carries the one-byte code zero, at increasing positions. */
  ghost predicate Milestones(env: Env, frames: seq<Frame>, i: nat, j: nat, k: nat, l: nat, interim: Keys, session: Keys)
    requires env.Valid()
  {
    && i < j < k < l < |frames|
    && BringsPublicKey(env, frames, i, interim) && BringsSession(env, frames, i + 1, j, interim, session)
    && Acknowledges(env, frames, j + 1, k, session) && LetsIn(env, frames, k + 1, l, session)
  }

  /** Nothing outside the byte stream goes wrong. */
  predicate Undisturbed(env: Env) {
    && env.keygen == Ok && env.ble(0) == Ok && env.ble(1) == Ok && env.ble(2) == Ok && env.ble(3) == Ok
    && |env.user| + |env.serial| <= 40
  }

  lemma EndsOpened(c: Cipher, f: Frame)
    ensures Ends(Status(c), f) || Ends(Result(c), f) ==> !Open(c, f.payload).Undecodable?
  {
    hide Open;
  }

  lemma Step4Passes(env: Env, frames: seq<Frame>, at: nat, session: Keys, before: seq<seq<byte>>)
    requires env.Valid() && at <= |frames|
    ensures var v, l := FromAuth4(env, frames, at, session, before), FirstAt(Result(env.cipher(session)), frames, at);
            v.err == Ok <==> && l < |frames| && LetsIn(env, frames, at, l, session)
                             && env.ble(3) == Ok && |env.user| + |env.serial| <= 40
    ensures var v := FromAuth4(env, frames, at, session, before); v.err == Ok ==> v.keys == session
  {
    hide env.Valid, Ends, Open, AuthResult, AuthFrame, IsFirst, FirstAt, Decrypt, LetsIn;
    var c := env.cipher(session);
    var l := FirstAt(Result(c), frames, at);
    FirstUnique(Result(c), frames, at, l);
    if l < |frames| {
      EndsOpened(c, frames[l]);
      OpenFailed(c, frames[l].payload);
      LetsInFirst(env, frames, at, l, session);
    }
  }

  lemma Step3Passes(env: Env, frames: seq<Frame>, at: nat, session: Keys, before: seq<seq<byte>>)
    requires env.Valid() && at <= |frames|
    ensures var c := env.cipher(session);
            var v, k := FromWakeUp(env, frames, at, session, before), FirstAt(Status(c), frames, at);
            && (v.err == Ok <==> && k < |frames| && Acknowledges(env, frames, at, k, session) && env.ble(2) == Ok
                                 && FromAuth4(env, frames, k + 1, session, before + [WakeUpFrame(c)]).err == Ok)
            && (v.err == Ok ==> v == FromAuth4(env, frames, k + 1, session, before + [WakeUpFrame(c)]))
  {
    hide env.Valid, Ends, Open, FromAuth4, WakeUpFrame, IsFirst, FirstAt, Decrypt, Acknowledges;
    var c := env.cipher(session);
    var k := FirstAt(Status(c), frames, at);
    FirstUnique(Status(c), frames, at, k);
    if k < |frames| {
      EndsOpened(c, frames[k]);
      OpenFailed(c, frames[k].payload);
      AcknowledgesFirst(env, frames, at, k, session);
    }
  }

  lemma OpenFailed(c: Cipher, s: seq<byte>)
    ensures Open(c, s).Failed? ==> Open(c, s).err != Ok
  {
    hide Decrypt, ParseInner;
  }

  lemma Step2Passes(env: Env, frames: seq<Frame>, at: nat, interim: Keys, before: seq<seq<byte>>)
    requires env.Valid() && at <= |frames|
    ensures var v, j := FromSessionKey(env, frames, at, interim, before), FirstAt(Command, frames, at);
            v.err == Ok <==> && j < |frames| && env.ble(1) == Ok
                             && BringsSession(env, frames, at, j, interim,
                                              SessionKeyReply(env, interim, frames[j].payload).1)
                             && FromWakeUp(env, frames, j + 1, SessionKeyReply(env, interim, frames[j].payload).1,
                                           before + [SessionKeyFrame()]).err == Ok
    ensures var v, j := FromSessionKey(env, frames, at, interim, before), FirstAt(Command, frames, at);
            v.err == Ok ==> v == FromWakeUp(env, frames, j + 1, SessionKeyReply(env, interim, frames[j].payload).1,
                                            before + [SessionKeyFrame()])
  {
    hide env.Valid, Ends, SessionKeyReply, FromWakeUp, SessionKeyFrame, IsFirst, FirstAt, BringsSession;
    var j := FirstAt(Command, frames, at);
    FirstUnique(Command, frames, at, j);
    if j < |frames| {
      BringsSessionFirst(env, frames, at, j, interim, SessionKeyReply(env, interim, frames[j].payload).1);
    }
  }

  lemma Step1Passes(env: Env, frames: seq<Frame>)
    requires env.Valid()
    ensures var v, i := AuthVerdict(env, frames), FirstAt(Command, frames, 0);
            v.err == Ok <==> && i < |frames| && env.keygen == Ok && env.ble(0) == Ok
                             && BringsPublicKey(env, frames, i, PublicKeyReply(env, frames[i].payload).1)
                             && FromSessionKey(env, frames, i + 1, PublicKeyReply(env, frames[i].payload).1,
                                               [PublicKeyFrame(env)]).err == Ok
    ensures var v, i := AuthVerdict(env, frames), FirstAt(Command, frames, 0);
            v.err == Ok ==>
              v == FromSessionKey(env, frames, i + 1, PublicKeyReply(env, frames[i].payload).1, [PublicKeyFrame(env)])
  {
    hide env.Valid, Ends, PublicKeyReply, FromSessionKey, PublicKeyFrame, IsFirst, FirstAt, BringsPublicKey;
    var i := FirstAt(Command, frames, 0);
    FirstUnique(Command, frames, 0, i);
    if i < |frames| {
      BringsPublicKeyFirst(env, frames, i, PublicKeyReply(env, frames[i].payload).1);
    }
  }

  lemma DataPasses(env: Env, frames: seq<Frame>, at: nat, session: Keys, before: seq<seq<byte>>)
    returns (k: nat, l: nat)
    requires env.Valid() && at <= |frames| && FromWakeUp(env, frames, at, session, before).err == Ok
    ensures at <= k < l < |frames| && Acknowledges(env, frames, at, k, session)
            && LetsIn(env, frames, k + 1, l, session)
    ensures env.ble(2) == Ok && env.ble(3) == Ok && |env.user| + |env.serial| <= 40
    ensures FromWakeUp(env, frames, at, session, before).keys == session
  {
    hide env.Valid, FirstAt, FromWakeUp, FromAuth4, WakeUpFrame, Acknowledges, LetsIn;
    var c := env.cipher(session);
    Step3Passes(env, frames, at, session, before);
    k := FirstAt(Status(c), frames, at);
    Step4Passes(env, frames, k + 1, session, before + [WakeUpFrame(c)]);
    l := FirstAt(Result(c), frames, k + 1);
  }

  /** A successful handshake passed its four milestones, in order. */
  lemma SuccessPasses(env: Env, frames: seq<Frame>) returns (i: nat, j: nat, k: nat, l: nat, interim: Keys)
    requires env.Valid() && AuthVerdict(env, frames).err == Ok
    ensures Undisturbed(env)
    ensures Milestones(env, frames, i, j, k, l, interim, AuthVerdict(env, frames).keys)
  {
    hide env.Valid, FirstAt, PublicKeyReply, SessionKeyReply, AuthVerdict, FromSessionKey, FromWakeUp, PublicKeyFrame,
         SessionKeyFrame, BringsPublicKey, BringsSession, Acknowledges, LetsIn;
    Step1Passes(env, frames);
    i := FirstAt(Command, frames, 0);
    interim := PublicKeyReply(env, frames[i].payload).1;
    var sent := [PublicKeyFrame(env)];
    Step2Passes(env, frames, i + 1, interim, sent);
    j := FirstAt(Command, frames, i + 1);
    var session := SessionKeyReply(env, interim, frames[j].payload).1;
    k, l := DataPasses(env, frames, j + 1, session, sent + [SessionKeyFrame()]);
  }

  /** The milestones are where the waits end. */
  lemma MilestonePositions(env: Env, frames: seq<Frame>, i: nat, j: nat, k: nat, l: nat, interim: Keys, session: Keys)
    requires env.Valid() && Milestones(env, frames, i, j, k, l, interim, session)
    ensures var c := env.cipher(session);
            && FirstAt(Command, frames, 0) == i && FirstAt(Command, frames, i + 1) == j
            && FirstAt(Status(c), frames, j + 1) == k && FirstAt(Result(c), frames, k + 1) == l
    ensures PublicKeyReply(env, frames[i].payload).1 == interim
    ensures SessionKeyReply(env, interim, frames[j].payload).1 == session
  {
    hide env.Valid, FirstAt, PublicKeyReply, SessionKeyReply, IsFirst, Open, AuthResult, BringsPublicKey, BringsSession,
         Acknowledges, LetsIn;
    var c := env.cipher(session);
    BringsPublicKeyFirst(env, frames, i, interim);
    BringsSessionFirst(env, frames, i + 1, j, interim, session);
    AcknowledgesFirst(env, frames, j + 1, k, session);
    LetsInFirst(env, frames, k + 1, l, session);
    FirstUnique(Command, frames, 0, i);
    FirstUnique(Command, frames, i + 1, j);
    FirstUnique(Status(c), frames, j + 1, k);
    FirstUnique(Result(c), frames, k + 1, l);
  }

  lemma DataSteps(env: Env, frames: seq<Frame>, at: nat, k: nat, l: nat, session: Keys, before: seq<seq<byte>>)
    requires env.Valid() && Undisturbed(env) && at <= k < l < |frames|
    requires Acknowledges(env, frames, at, k, session) && LetsIn(env, frames, k + 1, l, session)
    requires FirstAt(Status(env.cipher(session)), frames, at) == k
    requires FirstAt(Result(env.cipher(session)), frames, k + 1) == l
    ensures var v := FromWakeUp(env, frames, at, session, before); v.err == Ok && v.keys == session
  {
    hide env.Valid, FirstAt, FromWakeUp, FromAuth4, WakeUpFrame, Acknowledges, LetsIn;
    Step4Passes(env, frames, k + 1, session, before + [WakeUpFrame(env.cipher(session))]);
    Step3Passes(env, frames, at, session, before);
  }

  /** The milestones, nothing else going wrong, are enough. */
  lemma MilestonesSuffice(env: Env, frames: seq<Frame>, i: nat, j: nat, k: nat, l: nat, interim: Keys, session: Keys)
    requires env.Valid() && Undisturbed(env) && Milestones(env, frames, i, j, k, l, interim, session)
    ensures AuthVerdict(env, frames).err == Ok && AuthVerdict(env, frames).keys == session
  {
    hide env.Valid, FirstAt, PublicKeyReply, SessionKeyReply, AuthVerdict, FromSessionKey, FromWakeUp, PublicKeyFrame,
         SessionKeyFrame, BringsPublicKey, BringsSession, Acknowledges, LetsIn;
    MilestonePositions(env, frames, i, j, k, l, interim, session);
    var first := [PublicKeyFrame(env)];
    DataSteps(env, frames, j + 1, k, l, session, first + [SessionKeyFrame()]);
    Step2Passes(env, frames, i + 1, interim, first);
    Step1Passes(env, frames);
  }

  // ---------- An honest device ----------

  /** What the device chooses: bytes the client ignores, its public key, the random bytes and seed of the session key,
      the packet with which it acknowledges the wake-up, and the one it sends after the authentication. */
  datatype Device = Device(ignored: byte, curveType: byte, publicKey: seq<byte>, srand: seq<byte>, seed0: byte,
                           seed1: byte, status: Inner, answer: Inner)

  function TableOffset(d: Device): nat {
    SeedOffset(d.seed0, d.seed1)
  }

  ghost predicate Honest(env: Env, d: Device) {
    && d.curveType !in {1, 2, 3, 4} && |d.publicKey| == 40 && env.shared(d.publicKey).0 == Ok
    && |d.srand| == 16 && TableOffset(d) + 16 <= LUT_SIZE
    && d.status.src == 0x35 && d.status.cmdSet == 0x35 && |d.status.payload| <= 237
    && |d.answer.payload| <= 237
  }

  /** The device's answer accepts the client: code zero, or any packet but the 0x86 reply of the auth board. */
  predicate Accepting(answer: Inner) {
    !(answer.src == 0x35 && answer.cmdSet == 0x35 && answer.cmdId == 0x86) || answer.payload == [0]
  }

  function InterimKeys(env: Env, d: Device): Keys
    requires env.Valid() && Honest(env, d)
  {
    var secret := env.shared(d.publicKey).1;
    Keys(secret[..16], env.md5(secret))
  }

  function SessionKeys(env: Env, d: Device): Keys
    requires env.Valid() && Honest(env, d)
  {
    Keys(env.md5(env.lookup[TableOffset(d)..TableOffset(d) + 16] + d.srand), InterimKeys(env, d).iv)
  }

  /** A device's packet under the session keys. */
  function DeviceData(c: Cipher, p: Inner): Frame {
    Frame(FRAME_DATA, c.enc(Pad(InnerBytes(p))))
  }

  function DeviceKeyFrame(d: Device): Frame {
    Frame(FRAME_COMMAND, [0x01, d.ignored, d.curveType] + d.publicKey)
  }

  function DeviceSeedFrame(c: Cipher, d: Device): Frame {
    Frame(FRAME_COMMAND, [0x02] + c.enc(Pad(d.srand + [d.seed0, d.seed1])))
  }

  /** The frames of an honest device: public key, session key, acknowledgement, answer. */
  function DeviceFrames(env: Env, d: Device): seq<Frame>
    requires env.Valid() && Honest(env, d)
  {
    var interim, session := env.cipher(InterimKeys(env, d)), env.cipher(SessionKeys(env, d));
    [ DeviceKeyFrame(d),
      DeviceSeedFrame(interim, d),
      DeviceData(session, d.status),
      DeviceData(session, d.answer) ]
  }

  lemma PublicKeyRead(env: Env, d: Device)
    requires env.Valid() && Honest(env, d)
    ensures PublicKeyReply(env, [0x01, d.ignored, d.curveType] + d.publicKey) == (Ok, InterimKeys(env, d))
  {
    hide env.Valid;
    var reply := [0x01, d.ignored, d.curveType] + d.publicKey;
    assert reply[3..43] == d.publicKey;
  }

  lemma KeyDerived(env: Env, d: Device)
    requires env.Valid() && Honest(env, d)
    ensures DeriveKey(env, d.seed0, d.seed1, d.srand) == (Ok, SessionKeys(env, d).key)
  {
    hide env.Valid;
  }

  lemma SessionKeyRead(env: Env, d: Device)
    requires env.Valid() && Honest(env, d)
    ensures var reply := [0x02] + env.cipher(InterimKeys(env, d)).enc(Pad(d.srand + [d.seed0, d.seed1]));
            SessionKeyReply(env, InterimKeys(env, d), reply) == (Ok, SessionKeys(env, d))
  {
    hide env.Valid, Pad, Decrypt, DeriveKey, InterimKeys;
    var interim, plain := InterimKeys(env, d), d.srand + [d.seed0, d.seed1];
    var c := env.cipher(interim);
    CipherValid(env, interim);
    var sealed := c.enc(Pad(plain));
    assert ([0x02] + sealed)[1..] == sealed;
    DecryptSealed(c, plain, 64);
    SealedLength(c, plain);
    KeyDerived(env, d);
    assert plain[..16] == d.srand && plain[16] == d.seed0 && plain[17] == d.seed1;
  }

  lemma SealedLength(c: Cipher, m: seq<byte>)
    requires c.Valid()
    ensures |c.enc(Pad(m))| == |m| + 16 - |m| % 16
  {
    EncryptedBlocks(c, Pad(m));
  }

  lemma DataRead(c: Cipher, p: Inner)
    requires c.Valid() && |p.payload| <= 237
    ensures Open(c, DeviceData(c, p).payload) == Carries(p)
  {
    hide c.Valid, Decrypt, ParseInner, Pad, InnerBytes;
    OpenedIff(c, p);
  }

  /** The milestones that an honest device's frames are, but for its answer. */
  lemma DeviceMilestones(env: Env, d: Device)
    requires env.Valid() && Honest(env, d)
    ensures var fs, interim, session := DeviceFrames(env, d), InterimKeys(env, d), SessionKeys(env, d);
            && BringsPublicKey(env, fs, 0, interim) && BringsSession(env, fs, 1, 1, interim, session)
            && Acknowledges(env, fs, 2, 2, session) && |fs| == 4
            && fs[3].kind == 1 && Open(env.cipher(session), fs[3].payload) == Carries(d.answer)
  {
    hide env.Valid, Decrypt, ParseInner, Pad, InnerBytes, PublicKeyReply, SessionKeyReply, InterimKeys, SessionKeys,
         Open, DeviceData, Honest, BringsPublicKey, BringsSession;
    var fs, interim, session := DeviceFrames(env, d), InterimKeys(env, d), SessionKeys(env, d);
    var c := env.cipher(session);
    StatusOf(env, d);
    CipherValid(env, session);
    PublicKeyRead(env, d);
    SessionKeyRead(env, d);
    BringsPublicKeyFirst(env, fs, 0, interim);
    BringsSessionFirst(env, fs, 1, 1, interim, session);
    DataRead(c, d.status);
    DataRead(c, d.answer);
    DataKind(c, d.status);
    DataKind(c, d.answer);
  }

  /** An honest device is understood, and both sides hold the same session keys: the handshake succeeds exactly when the
      device's answer accepts the client, and reports an invalid state otherwise. */
  lemma HonestDeviceAccepted(env: Env, d: Device)
    requires env.Valid() && Honest(env, d) && Undisturbed(env)
    ensures var v := AuthVerdict(env, DeviceFrames(env, d));
            if Accepting(d.answer) then v.err == Ok && v.keys == SessionKeys(env, d) else v.err == InvalidState
  {
    hide env.Valid, InterimKeys, SessionKeys, Open, DeviceFrames, Honest, AuthVerdict, BringsPublicKey, BringsSession,
         Acknowledges;
    var fs, interim, session := DeviceFrames(env, d), InterimKeys(env, d), SessionKeys(env, d);
    DeviceMilestones(env, d);
    if Accepting(d.answer) {
      MilestonesSuffice(env, fs, 0, 1, 2, 3, interim, session);
    } else {
      RefusalReported(env, fs, 0, 1, 2, 3, interim, session);
    }
  }

  /** An 0x86 reply of the auth board with anything but the single byte zero ends the handshake with an invalid
      state. */
  lemma RefusalReported(env: Env, frames: seq<Frame>, i: nat, j: nat, k: nat, l: nat, interim: Keys, session: Keys)
    requires env.Valid() && Undisturbed(env) && i < j < k < l < |frames|
    requires BringsPublicKey(env, frames, i, interim) && BringsSession(env, frames, i + 1, j, interim, session)
    requires Acknowledges(env, frames, j + 1, k, session)
    requires Refuses(env, frames, k + 1, l, session)
    ensures AuthVerdict(env, frames).err == InvalidState
  {
    hide env.Valid, FirstAt, PublicKeyReply, SessionKeyReply, PublicKeyFrame, SessionKeyFrame, WakeUpFrame, AuthFrame,
         Open, BringsPublicKey, BringsSession, Acknowledges, Refuses, IsFirst, FromAuth4;
    BringsPublicKeyFirst(env, frames, i, interim);
    BringsSessionFirst(env, frames, i + 1, j, interim, session);
    AcknowledgesFirst(env, frames, j + 1, k, session);
    FirstUnique(Command, frames, 0, i);
    FirstUnique(Command, frames, i + 1, j);
    FirstUnique(Status(env.cipher(session)), frames, j + 1, k);
    var sent := [PublicKeyFrame(env)] + [SessionKeyFrame()] + [WakeUpFrame(env.cipher(session))];
    RefusedLast(env, frames, k + 1, l, session, sent);
  }

  /** The first data frame from position at that can be read carries an 0x86 reply with another payload. */
  ghost predicate Refuses(env: Env, frames: seq<Frame>, at: nat, l: nat, session: Keys)
    requires env.Valid()
  {
    var c := env.cipher(session);
    && at <= l < |frames| && frames[l].kind == 1 && Open(c, frames[l].payload).Carries?
    && (var p := Open(c, frames[l].payload).packet;
        p.src == 0x35 && p.cmdSet == 0x35 && p.cmdId == 0x86 && p.payload != [0])
    && (forall i :: at <= i < l ==> frames[i].kind == 1 ==> Open(c, frames[i].payload).Undecodable?)
  }

  lemma RefusedLast(env: Env, frames: seq<Frame>, at: nat, l: nat, session: Keys, before: seq<seq<byte>>)
    requires env.Valid() && Undisturbed(env) && at <= |frames| && Refuses(env, frames, at, l, session)
    ensures FromAuth4(env, frames, at, session, before).err == InvalidState
  {
    hide env.Valid, FirstAt, AuthFrame, Open;
    FirstUnique(Result(env.cipher(session)), frames, at, l);
  }

  lemma StatusOf(env: Env, d: Device)
    requires Honest(env, d)
    ensures d.status.src == 0x35 && d.status.cmdSet == 0x35 && |d.status.payload| <= 237 && |d.answer.payload| <= 237
  {}

  lemma DataKind(c: Cipher, p: Inner)
    ensures DeviceData(c, p).kind == FRAME_DATA
  {}

  lemma CipherValid(env: Env, k: Keys)
    requires env.Valid()
    ensures env.cipher(k).Valid()
  {}

  /** The same over the wire: quiet gaps between the frames, and anything after them. */
  lemma HonestStreamAccepted(env: Env, d: Device, gaps: seq<seq<byte>>, more: seq<byte>)
    requires env.Valid() && Honest(env, d) && Undisturbed(env) && Accepting(d.answer)
    requires |gaps| == 5 && forall i :: 0 <= i < 5 ==> Quiet(gaps[i])
    ensures var v := AuthVerdict(env, Scan(Wire(gaps, DeviceFrames(env, d)) + more).0);
            v.err == Ok && v.keys == SessionKeys(env, d)
  {
    hide env.Valid, AuthVerdict, DeviceFrames, SessionKeys, Scan, Wire, Quiet, Honest, Undisturbed, Sendable;
    FramesSendable(env, d);
    WireRoundTrip(gaps, DeviceFrames(env, d));
    HonestDeviceAccepted(env, d);
    StreamVerdictStable(env, Wire(gaps, DeviceFrames(env, d)), more);
  }

  lemma FramesSendable(env: Env, d: Device)
    requires env.Valid() && Honest(env, d)
    ensures |DeviceFrames(env, d)| == 4 && forall i :: 0 <= i < 4 ==> Sendable(DeviceFrames(env, d)[i])
  {
    hide env.Valid, DeviceData, DeviceKeyFrame, DeviceSeedFrame, InterimKeys, SessionKeys, Sendable, Honest;
    var interim, session := env.cipher(InterimKeys(env, d)), env.cipher(SessionKeys(env, d));
    CipherValid(env, InterimKeys(env, d));
    CipherValid(env, SessionKeys(env, d));
    StatusOf(env, d);
    CommandsSendable(env, interim, d);
    DataSendable(session, d.status);
    DataSendable(session, d.answer);
    assert DeviceFrames(env, d)
           == [DeviceKeyFrame(d), DeviceSeedFrame(interim, d), DeviceData(session, d.status),
               DeviceData(session, d.answer)];
  }

  lemma CommandsSendable(env: Env, c: Cipher, d: Device)
    requires c.Valid() && Honest(env, d)
    ensures Sendable(DeviceKeyFrame(d)) && Sendable(DeviceSeedFrame(c, d))
  {
    hide c.Valid, Pad;
    SealedLength(c, d.srand + [d.seed0, d.seed1]);
  }

  lemma DataSendable(c: Cipher, p: Inner)
    requires c.Valid() && |p.payload| <= 237
    ensures Sendable(DeviceData(c, p))
  {
    hide c.Valid, InnerBytes, Pad;
    SealedLength(c, InnerBytes(p));
  }

  // ---------- Which error is reported ----------

  /** A reply to the public key that brings none: too short or of another type, of another curve, cut short, or with a
      key that is refused. */
  lemma PublicKeyErrors(env: Env, reply: seq<byte>)
    requires env.Valid()
    ensures var err := PublicKeyReply(env, reply).0;
            && (|reply| < 3 || reply[0] != 1 ==> err == InvalidResponse)
            && (|reply| >= 3 && reply[0] == 1 && reply[2] in {1, 2, 3, 4} ==> err == NotSupported)
            && (3 <= |reply| < 43 && reply[0] == 1 && reply[2] !in {1, 2, 3, 4} ==> err == InvalidSize)
            && (|reply| >= 43 && reply[0] == 1 && reply[2] !in {1, 2, 3, 4} ==> err == env.shared(reply[3..43]).0)
  {}

  /** A reply to the session-key request that brings none: too short or of another type, more than 64 bytes in whole
      blocks, fewer than 18 bytes once decrypted, or with a seed that points past the table. */
  lemma SessionKeyErrors(env: Env, interim: Keys, reply: seq<byte>)
    requires env.Valid()
    ensures var (err, plain) := Decrypt(env.cipher(interim), if |reply| == 0 then [] else reply[1..], 64, true);
            var got := SessionKeyReply(env, interim, reply).0;
            && (|reply| < 2 || reply[0] != 2 ==> got == InvalidResponse)
            && (|reply| >= 2 && reply[0] == 2 ==>
                  && (|reply| >= 81 ==> got == InvalidSize)
                  && (|reply| < 81 && |plain| < 18 ==> got == InvalidSize)
                  && (|reply| < 81 && |plain| >= 18 && SeedOffset(plain[16], plain[17]) + 16 > 65280 ==>
                        got == InvalidState))
  {
    hide env.Valid, Unpad, DeriveKey, SeedOffset;
    if |reply| >= 2 {
      BlockBound(|reply| - 1);
      var (err, plain) := Decrypt(env.cipher(interim), reply[1..], 64, true);
      if err == Ok && |plain| >= 18 {
        DerivedExactly(env, plain[16], plain[17], plain[..16]);
      }
    }
  }

  lemma BlockBound(n: nat)
    ensures Aligned(n) > 64 <==> n >= 80
  {}

  /** Outside failures and silence, step by step: the error is the one that came from outside, or a timeout, and the
      frames of earlier steps have been sent. */
  lemma OutsideErrors(env: Env, frames: seq<Frame>, at: nat, keys: Keys, before: seq<seq<byte>>)
    requires env.Valid() && at <= |frames|
    ensures env.keygen != Ok ==> AuthVerdict(env, frames).err == env.keygen && AuthVerdict(env, frames).sent == []
    ensures env.keygen == Ok && env.ble(0) != Ok ==> AuthVerdict(env, frames).err == env.ble(0)
    ensures env.ble(1) != Ok ==> FromSessionKey(env, frames, at, keys, before).err == env.ble(1)
    ensures env.ble(2) != Ok ==> FromWakeUp(env, frames, at, keys, before).err == env.ble(2)
    ensures |env.user| + |env.serial| <= 40 && env.ble(3) != Ok ==>
              FromAuth4(env, frames, at, keys, before).err == env.ble(3)
    ensures |env.user| + |env.serial| > 40 ==>
              FromAuth4(env, frames, at, keys, before).err == InvalidSize
              && FromAuth4(env, frames, at, keys, before).sent == before
  {
    hide env.Valid, FirstAt, PublicKeyReply, SessionKeyReply, Open;
  }

  /** Without a command frame the first two steps, and without a data frame the last two, end in a timeout. */
  lemma SilenceErrors(env: Env, frames: seq<Frame>, at: nat, keys: Keys, before: seq<seq<byte>>)
    requires env.Valid() && at <= |frames| && Undisturbed(env)
    ensures (forall i :: 0 <= i < |frames| ==> frames[i].kind != 0) ==> AuthVerdict(env, frames).err == Timeout
    ensures (forall i :: at <= i < |frames| ==> frames[i].kind != 0) ==>
              FromSessionKey(env, frames, at, keys, before).err == Timeout
    ensures (forall i :: at <= i < |frames| ==> frames[i].kind != 1) ==>
              FromWakeUp(env, frames, at, keys, before).err == Timeout
              && FromAuth4(env, frames, at, keys, before).err == Timeout
  {
    hide env.Valid, PublicKeyReply, SessionKeyReply, Open, AuthFrame, WakeUpFrame;
  }

  /** A data frame too long to decrypt ends either of the last two steps with its error. */
  lemma LongFrameErrors(env: Env, frames: seq<Frame>, at: nat, keys: Keys, before: seq<seq<byte>>)
    requires env.Valid() && at < |frames| && Undisturbed(env)
    requires frames[at].kind == 1 && |frames[at].payload| >= 272
    ensures FromWakeUp(env, frames, at, keys, before).err == InvalidSize
    ensures FromAuth4(env, frames, at, keys, before).err == InvalidSize
  {
    hide env.Valid, Open, AuthFrame, WakeUpFrame;
    TooLong(env.cipher(keys), frames[at].payload);
  }

  lemma TooLong(c: Cipher, s: seq<byte>)
    requires |s| >= 272
    ensures Open(c, s) == Failed(InvalidSize)
  {}

  // ---------- What the device reads ----------

  /** The frames a successful client sent are the four of the protocol, and the device, under the session keys, reads in
      them the client's public key, the session-key request, the wake-up, and the digits of the digest of the user id
      followed by the serial number. */
  lemma ClientFrames(env: Env, frames: seq<Frame>)
    requires env.Valid() && AuthVerdict(env, frames).err == Ok
    ensures var v := AuthVerdict(env, frames);
            var c := env.cipher(v.keys);
            && |v.sent| == 4
            && Scan(v.sent[0]).0 == [Frame(0, [0x01, 0x00] + env.publicKey)]
            && Scan(v.sent[1]).0 == [Frame(0, [0x02])]
            && Delivers(c, v.sent[2], Inner(0x21, 0x35, 0x35, 0x89, []))
            && Delivers(c, v.sent[3], Inner(0x21, 0x35, 0x35, 0x86, Hex(env.md5(env.user + env.serial))))
  {
    hide env.Valid, PublicKeyFrame, SessionKeyFrame, WakeUpFrame, AuthFrame, Open, Scan, Hex, Delivers, AuthVerdict;
    SentFrames(env, frames);
    CommandsArrive(env);
    CipherValid(env, AuthVerdict(env, frames).keys);
    DataArrives(env, env.cipher(AuthVerdict(env, frames).keys));
  }

  lemma CommandsArrive(env: Env)
    requires env.Valid()
    ensures Scan(PublicKeyFrame(env)).0 == [Frame(0, [0x01, 0x00] + env.publicKey)]
    ensures Scan(SessionKeyFrame()).0 == [Frame(0, [0x02])]
  {
    hide Scan, OuterBytes;
    FrameRoundTrip(Frame(0, [0x01, 0x00] + env.publicKey));
    FrameRoundTrip(Frame(0, [0x02]));
  }

  lemma DataArrives(env: Env, c: Cipher)
    requires env.Valid() && c.Valid()
    ensures Delivers(c, WakeUpFrame(c), Inner(0x21, 0x35, 0x35, 0x89, []))
    ensures Delivers(c, AuthFrame(env, c), Inner(0x21, 0x35, 0x35, 0x86, Hex(env.md5(env.user + env.serial))))
  {
    hide c.Valid, Delivers, Sealed;
    SealedDelivers(c, Inner(0x21, 0x35, 0x35, 0x89, []));
    SealedDelivers(c, Inner(0x21, 0x35, 0x35, 0x86, Hex(env.md5(env.user + env.serial))));
  }

  /** The bytes are one data frame, which opens to the packet. */
  ghost predicate Delivers(c: Cipher, bytes: seq<byte>, p: Inner) {
    exists payload :: Scan(bytes).0 == [Frame(1, payload)] && Open(c, payload) == Carries(p)
  }

  lemma SealedDelivers(c: Cipher, p: Inner)
    requires c.Valid() && |p.payload| <= 237
    ensures Delivers(c, Sealed(c, p), p)
  {
    hide c.Valid, Open, Scan, Pad, InnerBytes, Sealed;
    EndToEnd(c, p);
    DataRead(c, p);
    assert DeviceData(c, p).payload == c.enc(Pad(InnerBytes(p)));
  }

  lemma SentFrames(env: Env, frames: seq<Frame>)
    requires env.Valid() && AuthVerdict(env, frames).err == Ok
    ensures var v := AuthVerdict(env, frames);
            var c := env.cipher(v.keys);
            v.sent == [PublicKeyFrame(env), SessionKeyFrame(), WakeUpFrame(c), AuthFrame(env, c)]
  {
    hide env.Valid, FirstAt, PublicKeyReply, SessionKeyReply, AuthVerdict, FromSessionKey, FromWakeUp, PublicKeyFrame,
         SessionKeyFrame, WakeUpFrame, AuthFrame, BringsPublicKey, BringsSession, Acknowledges, LetsIn, FromAuth4;
    Step1Passes(env, frames);
    var i := FirstAt(Command, frames, 0);
    var interim, first := PublicKeyReply(env, frames[i].payload).1, [PublicKeyFrame(env)];
    Step2Passes(env, frames, i + 1, interim, first);
    var j := FirstAt(Command, frames, i + 1);
    var session, second := SessionKeyReply(env, interim, frames[j].payload).1, first + [SessionKeyFrame()];
    Step3Passes(env, frames, j + 1, session, second);
    var c := env.cipher(session);
    var k := FirstAt(Status(c), frames, j + 1);
    Step4Passes(env, frames, k + 1, session, second + [WakeUpFrame(c)]);
    LastSent(env, frames, k + 1, session, second + [WakeUpFrame(c)]);
  }

  lemma LastSent(env: Env, frames: seq<Frame>, at: nat, session: Keys, before: seq<seq<byte>>)
    requires env.Valid() && at <= |frames| && FromAuth4(env, frames, at, session, before).err == Ok
    ensures FromAuth4(env, frames, at, session, before).sent == before + [AuthFrame(env, env.cipher(session))]
  {
    hide env.Valid, FirstAt, Open, AuthFrame, AuthResult;
  }

  /** The digits are those of the usual table, high half first. */
  lemma HexDigits(s: seq<byte>, i: nat)
    requires i < |s|
    ensures Hex(s)[2 * i] == "0123456789ABCDEF"[s[i] / 16] as int
    ensures Hex(s)[2 * i + 1] == "0123456789ABCDEF"[s[i] % 16] as int
  {
    DigitOf(s[i] / 16);
    DigitOf(s[i] % 16);
  }

  lemma DigitOf(n: nat)
    requires n < 16
    ensures HexDigit(n) == "0123456789ABCDEF"[n] as int
  {}

  // ---------- More bytes never change a verdict ----------

  lemma {:induction false} FirstStable(w: Wanted, frames: seq<Frame>, more: seq<Frame>, from: nat)
    requires from <= |frames| && FirstAt(w, frames, from) < |frames|
    ensures FirstAt(w, frames + more, from) == FirstAt(w, frames, from)
    decreases |frames| - from
  {
    hide Ends;
    if !Ends(w, frames[from]) {
      FirstStable(w, frames, more, from + 1);
    }
  }

  lemma Step4Stable(env: Env, frames: seq<Frame>, more: seq<Frame>, at: nat, session: Keys, before: seq<seq<byte>>)
    requires env.Valid() && at <= |frames| && FromAuth4(env, frames, at, session, before).err != Timeout
    ensures FromAuth4(env, frames + more, at, session, before) == FromAuth4(env, frames, at, session, before)
  {
    hide env.Valid, Open, AuthResult, AuthFrame, FirstAt, Ends;
    var w := Result(env.cipher(session));
    if FirstAt(w, frames, at) < |frames| { FirstStable(w, frames, more, at); }
  }

  lemma Step3Stable(env: Env, frames: seq<Frame>, more: seq<Frame>, at: nat, session: Keys, before: seq<seq<byte>>)
    requires env.Valid() && at <= |frames| && FromWakeUp(env, frames, at, session, before).err != Timeout
    ensures FromWakeUp(env, frames + more, at, session, before) == FromWakeUp(env, frames, at, session, before)
  {
    hide env.Valid, Open, WakeUpFrame, FirstAt, Ends, FromAuth4;
    var w, c := Status(env.cipher(session)), env.cipher(session);
    var k := FirstAt(w, frames, at);
    if k < |frames| {
      FirstStable(w, frames, more, at);
      if FromAuth4(env, frames, k + 1, session, before + [WakeUpFrame(c)]).err != Timeout {
        Step4Stable(env, frames, more, k + 1, session, before + [WakeUpFrame(c)]);
      }
    }
  }

  lemma Step2Stable(env: Env, frames: seq<Frame>, more: seq<Frame>, at: nat, interim: Keys, before: seq<seq<byte>>)
    requires env.Valid() && at <= |frames| && FromSessionKey(env, frames, at, interim, before).err != Timeout
    ensures FromSessionKey(env, frames + more, at, interim, before) == FromSessionKey(env, frames, at, interim, before)
  {
    hide env.Valid, SessionKeyReply, SessionKeyFrame, FirstAt, Ends, FromWakeUp;
    var j := FirstAt(Command, frames, at);
    if j < |frames| {
      FirstStable(Command, frames, more, at);
      var session, sent := SessionKeyReply(env, interim, frames[j].payload).1, before + [SessionKeyFrame()];
      if FromWakeUp(env, frames, j + 1, session, sent).err != Timeout {
        Step3Stable(env, frames, more, j + 1, session, sent);
      }
    }
  }

  /** Frames that arrive after the verdict do not change it. */
  lemma VerdictStable(env: Env, frames: seq<Frame>, more: seq<Frame>)
    requires env.Valid() && AuthVerdict(env, frames).err != Timeout
    ensures AuthVerdict(env, frames + more) == AuthVerdict(env, frames)
  {
    hide env.Valid, PublicKeyReply, PublicKeyFrame, FirstAt, Ends, FromSessionKey;
    var i := FirstAt(Command, frames, 0);
    if i < |frames| {
      FirstStable(Command, frames, more, 0);
      var interim, sent := PublicKeyReply(env, frames[i].payload).1, [PublicKeyFrame(env)];
      if FromSessionKey(env, frames, i + 1, interim, sent).err != Timeout {
        Step2Stable(env, frames, more, i + 1, interim, sent);
      }
    }
  }

  /** Bytes that arrive after the verdict do not change it. */
  lemma StreamVerdictStable(env: Env, s: seq<byte>, t: seq<byte>)
    requires env.Valid() && AuthVerdict(env, Scan(s).0).err != Timeout
    ensures AuthVerdict(env, Scan(s + t).0) == AuthVerdict(env, Scan(s).0)
  {
    hide env.Valid, AuthVerdict, Scan;
    ScanConcat(s, t);
    VerdictStable(env, Scan(s).0, Scan(Scan(s).1 + t).0);
  }
}
