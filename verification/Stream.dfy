/** The outer framing as a parse of a byte stream. */
module Stream {
  import opened Bytes
  import opened Crc
  import opened Packet

  datatype Frame = Frame(kind: byte, payload: seq<byte>)

  /** What the bytes from a 5A5A prefix on amount to. */
  datatype Look = NeedMore | Spurious | Whole(frame: Frame)

  /** Bytes of a frame with this payload. */
  function Size(f: Frame): nat {
    OUTER_OVERHEAD + |f.payload|
  }

  predicate PairAt(s: seq<byte>, i: nat) {
    i + 1 < |s| && s[i] == 0x5A && s[i + 1] == 0x5A
  }

  /** The decision river2_framebuf_extract takes at a prefix: too short, bad length or CRC, or a frame. */
  function LookAt(s: seq<byte>): (r: Look)
    ensures r.Whole? ==> Size(r.frame) <= |s| && |r.frame.payload| <= 4094 && r.frame.kind <= 15
    ensures r.NeedMore? ==> |s| <= 4101
  {
    if |s| < 6 then NeedMore else
    var field := U16(s[4], s[5]);
    if field < 2 || field > 4096 then Spurious else
    var end := 6 + field;
    if end > |s| then NeedMore
    else if U16(s[end - 2], s[end - 1]) != Crc16(s[..end - 2]) then Spurious
    else Whole(Frame(s[2] / 16, s[6..end - 2]))
  }

  /** The frames of a stream read left to right, and the bytes left over. */
  function Scan(s: seq<byte>): (r: (seq<Frame>, seq<byte>))
    decreases |s|
  {
    if |s| < 2 then ([], s)
    else if !PairAt(s, 0) then Scan(s[1..])
    else match LookAt(s)
      case NeedMore => ([], s)
      case Spurious => Scan(s[2..])
      case Whole(f) => var rest := Scan(s[Size(f)..]); ([f] + rest.0, rest.1)
  }

  // ---------- One call of extract, on the buffered bytes ----------

  function FirstPair(s: seq<byte>): (r: Option<nat>)
    ensures r.Some? ==> PairAt(s, r.value)
    decreases |s|
  {
    if |s| < 2 then None
    else if PairAt(s, 0) then Some(0)
    else match FirstPair(s[1..])
      case None => None
      case Some(k) => Some(k + 1)
  }

  /** Wait: no complete frame, rest stays buffered. Got: a frame, at the head of the bytes held. */
  datatype Extraction = Wait(rest: seq<byte>) | Got(frame: Frame, held: seq<byte>)

  /** The retry loop of river2_framebuf_extract. */
  function Extract(s: seq<byte>): (r: Extraction)
    decreases |s|
  {
    if |s| < 2 then Wait(s) else
    match FirstPair(s)
    case None => Wait(s[|s| - 1..])
    case Some(start) =>
      var d := s[start..];
      match LookAt(d)
      case NeedMore => Wait(d)
      case Spurious => Extract(d[2..])
      case Whole(f) => Got(f, d)
  }

  /** Bytes before the first prefix do not matter. */
  lemma {:induction false} ScanSkips(s: seq<byte>)
    requires |s| >= 2
    ensures FirstPair(s).None? ==> Scan(s) == ([], s[|s| - 1..])
    ensures FirstPair(s).Some? ==> Scan(s) == Scan(s[FirstPair(s).value..])
    decreases |s|
  {
    hide LookAt;
    if PairAt(s, 0) {
      assert s[0..] == s;
    } else {
      if |s| > 2 {
        ScanSkips(s[1..]);
        if FirstPair(s[1..]).Some? {
          assert s[1..][FirstPair(s[1..]).value..] == s[FirstPair(s).value..];
        } else {
          assert s[1..][|s| - 2..] == s[|s| - 1..];
        }
      }
    }
  }

  /** A call of extract takes the first frame of the scan, or leaves exactly its leftover. */
  lemma {:induction false} ExtractIsScan(s: seq<byte>)
    ensures match Extract(s)
            case Wait(rest) => Scan(s) == ([], rest) && |rest| <= 4101
            case Got(f, held) =>
              && PairAt(held, 0) && LookAt(held) == Whole(f) && Size(f) <= |held| <= |s|
              && Extract(held) == Got(f, held) && Scan(held) == Scan(s)
              && Scan(s) == ([f] + Scan(held[Size(f)..]).0, Scan(held[Size(f)..]).1)
    decreases |s|
  {
    hide LookAt, Size;
    if |s| >= 2 {
      ScanSkips(s);
      if FirstPair(s).Some? {
        var d := s[FirstPair(s).value..];
        assert PairAt(d, 0);
        match LookAt(d)
        case NeedMore =>
        case Spurious => ExtractIsScan(d[2..]);
        case Whole(f) => HeldAgain(d, f);
      }
    }
  }

  lemma HeldAgain(d: seq<byte>, f: Frame)
    requires PairAt(d, 0) && LookAt(d) == Whole(f)
    ensures Extract(d) == Got(f, d)
  {
    hide LookAt;
    assert d[0..] == d;
  }

  // ---------- Splitting the stream ----------

  /** More bytes do not change a decision already taken. */
  lemma LookStable(s: seq<byte>, t: seq<byte>)
    requires !LookAt(s).NeedMore?
    ensures LookAt(s + t) == LookAt(s)
  {
    hide Crc16;
    var field := U16(s[4], s[5]);
    if 2 <= field <= 4096 {
      var end := 6 + field;
      assert (s + t)[..end - 2] == s[..end - 2];
      assert (s + t)[6..end - 2] == s[6..end - 2];
    }
  }

  /** Scanning in two parts, the leftover of the first put before the second, is scanning the whole. */
  lemma {:induction false} ScanConcat(s: seq<byte>, t: seq<byte>)
    ensures var first := Scan(s); var second := Scan(first.1 + t);
            Scan(s + t) == (first.0 + second.0, second.1)
    decreases |s|
  {
    hide LookAt, Size;
    if |s| < 2 {
    } else if !PairAt(s, 0) {
      assert (s + t)[1..] == s[1..] + t;
      ScanConcat(s[1..], t);
    } else {
      match LookAt(s)
      case NeedMore =>
        assert [] + Scan(s + t).0 == Scan(s + t).0;
      case Spurious =>
        LookStable(s, t);
        assert (s + t)[2..] == s[2..] + t;
        ScanConcat(s[2..], t);
      case Whole(f) =>
        LookStable(s, t);
        WholeFits(s);
        assert (s + t)[Size(f)..] == s[Size(f)..] + t;
        ScanConcat(s[Size(f)..], t);
        var first := Scan(s[Size(f)..]);
        assert [f] + (first.0 + Scan(first.1 + t).0) == ([f] + first.0) + Scan(first.1 + t).0;
    }
  }

  lemma WholeFits(s: seq<byte>)
    ensures LookAt(s).Whole? ==> 0 < Size(LookAt(s).frame) <= |s|
  {}

  // ---------- What a prefix leads to, in bytes ----------

  /** The bytes after a prefix rule a frame out: a bad length, or a CRC that differs from that of the bytes before. */
  predicate Rejected(s: seq<byte>) {
    && 6 <= |s| && s[0] == 0x5A && s[1] == 0x5A
    && (var field := s[4] as int + 256 * s[5] as int;
        || field < 2 || field > 4096
        || (6 + field <= |s|
            && Crc16(s[..4 + field]) != s[4 + field] as int + 256 * s[5 + field] as int))
  }

  /** A plausible frame that is not complete yet. */
  predicate Incomplete(s: seq<byte>) {
    && 2 <= |s| && s[0] == 0x5A && s[1] == 0x5A
    && (6 <= |s| ==> var field := s[4] as int + 256 * s[5] as int; 2 <= field <= 4096 && |s| < 6 + field)
  }

  /** A rejected prefix costs two bytes, whatever follows and however much is buffered. */
  lemma Resynchronises(s: seq<byte>)
    requires Rejected(s)
    ensures Scan(s) == Scan(s[2..])
  {
    hide Crc16;
    assert PairAt(s, 0);
  }

  /** A complete frame with a good CRC is delivered, and the scan goes on after it. */
  lemma Accepts(s: seq<byte>, n: nat)
    requires n <= 4094 && n + 8 <= |s| && s[0] == 0x5A && s[1] == 0x5A
    requires s[4] as int + 256 * s[5] as int == n + 2
    requires Crc16(s[..n + 6]) == s[n + 6] as int + 256 * s[n + 7] as int
    ensures Scan(s) == ([Frame(s[2] / 16, s[6..n + 6])] + Scan(s[n + 8..]).0, Scan(s[n + 8..]).1)
  {
    hide Crc16, LookAt;
    assert PairAt(s, 0);
    FittingParts(s, n);
  }

  /** Bytes are only kept for the start of a prefix or an incomplete frame; anything else has been passed. */
  lemma {:induction false} LeftoverShape(s: seq<byte>)
    ensures |Scan(s).1| < 2 || Incomplete(Scan(s).1)
    ensures |s| >= 2 && Incomplete(s) ==> Scan(s) == ([], s)
    ensures |s| >= 2 && !(s[0] == 0x5A && s[1] == 0x5A) ==> Scan(s) == Scan(s[1..])
    decreases |s|
  {
    hide Crc16;
    if |s| >= 2 {
      if !PairAt(s, 0) {
        LeftoverShape(s[1..]);
      } else {
        match LookAt(s)
        case NeedMore =>
        case Spurious => LeftoverShape(s[2..]);
        case Whole(f) => LeftoverShape(s[Size(f)..]);
      }
    }
  }

  // ---------- Frames that were built ----------

  lemma BuiltParts(kind: byte, payload: seq<byte>, t: seq<byte>)
    ensures var s, n := OuterBytes(kind, payload) + t, |payload|;
            && |s| == n + 8 + |t| && s[0] == 0x5A && s[1] == 0x5A && s[2] == TypeByte(kind)
            && s[4] == LowByte(n + 2) && s[5] == HighByte(n + 2)
            && s[6..n + 6] == payload && s[n + 8..] == t
            && s[n + 6] == LowByte(Crc16(s[..n + 6])) && s[n + 7] == HighByte(Crc16(s[..n + 6]))
  {
    hide Crc16, LowByte, HighByte, TypeByte;
    var n := |payload|;
    var body := OuterHeader(kind, n) + payload;
    var s := OuterBytes(kind, payload) + t;
    assert s[..n + 6] == body;
    assert s[n + 6] == CrcBytes(Crc16(body))[0] && s[n + 7] == CrcBytes(Crc16(body))[1];
  }

  /** A length field and a CRC that fit make a whole frame. */
  lemma FittingParts(s: seq<byte>, n: nat)
    requires n + 8 <= |s| && n <= 4094
    requires U16(s[4], s[5]) == n + 2 && U16(s[n + 6], s[n + 7]) == Crc16(s[..n + 6])
    ensures LookAt(s) == Whole(Frame(s[2] / 16, s[6..n + 6]))
  {
    hide Crc16, U16;
  }

  lemma TypeBack(kind: byte)
    requires kind <= 15
    ensures TypeByte(kind) / 16 == kind
  {}

  /** A built frame with a four-bit type and at most 4094 payload bytes is recognised, whatever follows. */
  lemma BuiltFrame(kind: byte, payload: seq<byte>, t: seq<byte>)
    requires kind <= 15 && |payload| <= 4094
    ensures var s := OuterBytes(kind, payload) + t;
            PairAt(s, 0) && LookAt(s) == Whole(Frame(kind, payload)) && s[Size(Frame(kind, payload))..] == t
  {
    hide Crc16, U16, LowByte, HighByte, OuterBytes, TypeByte, LookAt;
    var s, n := OuterBytes(kind, payload) + t, |payload|;
    BuiltParts(kind, payload, t);
    FieldOfNumber(n + 2);
    FieldOfNumber(Crc16(s[..n + 6]));
    FittingParts(s, n);
    TypeBack(kind);
  }

  /** A gap that cannot be mistaken for the start of a frame, whatever follows it. */
  predicate Quiet(g: seq<byte>) {
    (forall i :: 0 <= i < |g| ==> !PairAt(g, i)) && (|g| > 0 ==> g[|g| - 1] != 0x5A)
  }

  /** Quiet bytes are passed over. */
  lemma {:induction false} ScanQuiet(g: seq<byte>, t: seq<byte>)
    requires Quiet(g) && |t| >= 2
    ensures Scan(g + t) == Scan(t)
    decreases |g|
  {
    hide LookAt;
    if |g| == 0 {
      assert g + t == t;
    } else {
      var s := g + t;
      assert !PairAt(s, 0) by { assert !PairAt(g, 0); }
      assert s[1..] == g[1..] + t;
      forall i | 0 <= i < |g[1..]|
        ensures !PairAt(g[1..], i)
      {
        assert !PairAt(g, i + 1);
      }
      ScanQuiet(g[1..], t);
    }
  }

  lemma {:induction false} ScanOnlyQuiet(g: seq<byte>)
    requires Quiet(g)
    ensures Scan(g).0 == []
    decreases |g|
  {
    hide LookAt;
    if |g| >= 2 {
      assert !PairAt(g, 0);
      forall i | 0 <= i < |g[1..]|
        ensures !PairAt(g[1..], i)
      {
        assert !PairAt(g, i + 1);
      }
      ScanOnlyQuiet(g[1..]);
    }
  }

  predicate Sendable(f: Frame) {
    f.kind <= 15 && |f.payload| <= 4094
  }

  /** Frames on the wire, a gap before each and one at the end. */
  function Wire(gaps: seq<seq<byte>>, frames: seq<Frame>): seq<byte>
    requires |gaps| == |frames| + 1
    decreases |frames|
  {
    if |frames| == 0 then gaps[0]
    else gaps[0] + (OuterBytes(frames[0].kind, frames[0].payload) + Wire(gaps[1..], frames[1..]))
  }

  /** Sent frames come back in order, nothing lost, repeated or invented. */
  lemma {:induction false} WireRoundTrip(gaps: seq<seq<byte>>, frames: seq<Frame>)
    requires |gaps| == |frames| + 1
    requires forall i :: 0 <= i < |gaps| ==> Quiet(gaps[i])
    requires forall i :: 0 <= i < |frames| ==> Sendable(frames[i])
    ensures Scan(Wire(gaps, frames)).0 == frames
    decreases |frames|
  {
    hide LookAt, Quiet, OuterBytes;
    if |frames| == 0 {
      ScanOnlyQuiet(gaps[0]);
    } else {
      var f, later := frames[0], Wire(gaps[1..], frames[1..]);
      var t := OuterBytes(f.kind, f.payload) + later;
      ScanQuiet(gaps[0], t);
      BuiltFrame(f.kind, f.payload, later);
      WireRoundTrip(gaps[1..], frames[1..]);
      assert frames == [f] + frames[1..];
    }
  }

  // ---------- Frames that were damaged ----------

  /** The bytes of a built frame, changed within two adjacent payload bytes from position j on, with no prefix of a
      frame among them but their own. */
  predicate Damaged(f: Frame, j: nat, bytes: seq<byte>) {
    && Sendable(f) && 6 <= j < |bytes| - 2 && bytes != OuterBytes(f.kind, f.payload)
    && Near(OuterBytes(f.kind, f.payload), bytes, j)
    && bytes[|bytes| - 2..] == OuterBytes(f.kind, f.payload)[|bytes| - 2..]
    && Quiet(bytes[2..])
  }

  /** What is on the wire: a gap without frames, a frame, or a frame that arrived damaged. */
  datatype Piece = Gap(bytes: seq<byte>) | Intact(frame: Frame) | Broken(was: Frame, at: nat, got: seq<byte>) {
    function Bytes(): seq<byte> {
      match this
      case Gap(bytes) => bytes
      case Intact(f) => OuterBytes(f.kind, f.payload)
      case Broken(_, _, got) => got
    }

    predicate Valid() {
      match this
      case Gap(bytes) => Quiet(bytes)
      case Intact(f) => Sendable(f)
      case Broken(was, at, got) => Damaged(was, at, got)
    }
  }

  function Noisy(pieces: seq<Piece>): seq<byte>
    decreases |pieces|
  {
    if |pieces| == 0 then [] else pieces[0].Bytes() + Noisy(pieces[1..])
  }

  /** The frames that arrived as they were sent. */
  function Undamaged(pieces: seq<Piece>): seq<Frame>
    decreases |pieces|
  {
    if |pieces| == 0 then [] else
    (if pieces[0].Intact? then [pieces[0].frame] else []) + Undamaged(pieces[1..])
  }

  /** The CRC tells a damaged frame, so that only its first two bytes are taken for a prefix. */
  lemma DamagedRejected(f: Frame, j: nat, bytes: seq<byte>, t: seq<byte>)
    requires Damaged(f, j, bytes)
    ensures Rejected(bytes + t)
  {
    hide Crc16, OuterBytes, Quiet;
    var s, n := OuterBytes(f.kind, f.payload), |f.payload|;
    OuterLayout(f.kind, f.payload);
    SameEnd(s, bytes, n);
    DamageInside(s, bytes, j, n);
    AdjacentBytesDetected(s[..n + 6], bytes[..n + 6], j);
    RejectedWith(bytes, t, n);
  }

  lemma SameEnd(s: seq<byte>, bytes: seq<byte>, n: nat)
    requires |s| == |bytes| == n + 8 && bytes[n + 6..] == s[n + 6..]
    ensures s[n + 6] == bytes[n + 6] && s[n + 7] == bytes[n + 7]
  {
    assert bytes[n + 6] == bytes[n + 6..][0] && bytes[n + 7] == bytes[n + 6..][1];
    assert s[n + 6] == s[n + 6..][0] && s[n + 7] == s[n + 6..][1];
  }

  lemma RejectedWith(bytes: seq<byte>, t: seq<byte>, n: nat)
    requires |bytes| == n + 8 && n <= 4094 && bytes[0] == 0x5A && bytes[1] == 0x5A
    requires bytes[4] as int + 256 * bytes[5] as int == n + 2
    requires Crc16(bytes[..n + 6]) != bytes[n + 6] as int + 256 * bytes[n + 7] as int
    ensures Rejected(bytes + t)
  {
    hide Crc16;
    assert (bytes + t)[..n + 6] == bytes[..n + 6];
  }

  lemma DamageInside(s: seq<byte>, bytes: seq<byte>, j: nat, n: nat)
    requires |s| == n + 8 && Near(s, bytes, j) && s != bytes && s[n + 6] == bytes[n + 6] && s[n + 7] == bytes[n + 7]
    ensures Near(s[..n + 6], bytes[..n + 6], j) && s[..n + 6] != bytes[..n + 6]
  {
    var i :| 0 <= i < |s| && s[i] != bytes[i];
    assert i < n + 6 && s[..n + 6][i] != bytes[..n + 6][i];
  }

  lemma DamagedPassed(f: Frame, j: nat, bytes: seq<byte>, t: seq<byte>)
    requires Damaged(f, j, bytes)
    ensures Scan(bytes + t) == Scan(bytes[2..] + t)
  {
    hide Crc16, OuterBytes, Quiet, Scan;
    DamagedRejected(f, j, bytes, t);
    Resynchronises(bytes + t);
    assert (bytes + t)[2..] == bytes[2..] + t;
  }

  /** A damaged frame loses only itself: every frame that arrived intact is delivered, in order, and nothing else. */
  lemma {:induction false} NoisyRoundTrip(pieces: seq<Piece>)
    requires forall i :: 0 <= i < |pieces| ==> pieces[i].Valid()
    ensures Scan(Noisy(pieces)).0 == Undamaged(pieces)
    decreases |pieces|
  {
    hide LookAt, Quiet, OuterBytes, Damaged;
    if |pieces| > 0 {
      var later := Noisy(pieces[1..]);
      NoisyRoundTrip(pieces[1..]);
      match pieces[0]
      case Gap(bytes) => GapPassed(bytes, later);
      case Intact(f) => BuiltFrame(f.kind, f.payload, later);
      case Broken(was, at, got) =>
        DamagedPassed(was, at, got, later);
        assert Quiet(got[2..]) by { DamagedQuiet(was, at, got); }
        GapPassed(got[2..], later);
    }
  }

  lemma DamagedQuiet(f: Frame, j: nat, bytes: seq<byte>)
    requires Damaged(f, j, bytes)
    ensures |bytes| >= 2 && Quiet(bytes[2..])
  {}

  /** Quiet bytes change no frames, whatever follows. */
  lemma GapPassed(g: seq<byte>, t: seq<byte>)
    requires Quiet(g)
    ensures Scan(g + t).0 == Scan(t).0
  {
    hide LookAt;
    if |t| >= 2 {
      ScanQuiet(g, t);
    } else {
      QuietWith(g, t);
    }
  }

  lemma {:induction false} QuietWith(g: seq<byte>, t: seq<byte>)
    requires Quiet(g) && |t| < 2
    ensures Scan(g + t).0 == []
    decreases |g|
  {
    hide LookAt;
    var s := g + t;
    if |g| > 0 && |s| >= 2 {
      assert !PairAt(s, 0) by { assert !PairAt(g, 0); }
      assert s[1..] == g[1..] + t;
      forall i | 0 <= i < |g[1..]|
        ensures !PairAt(g[1..], i)
      {
        assert !PairAt(g, i + 1);
      }
      QuietWith(g[1..], t);
    }
  }

  /** One frame alone comes back exactly when its type has four bits and its payload at most 4094 bytes. */
  lemma FrameRoundTrip(f: Frame)
    ensures Scan(OuterBytes(f.kind, f.payload)).0 == [f] <==> Sendable(f)
  {
    hide LookAt, OuterBytes;
    var s := OuterBytes(f.kind, f.payload);
    if Sendable(f) {
      assert s + [] == s;
      BuiltFrame(f.kind, f.payload, []);
      assert Scan([]) == ([], []);
    }
    ScannedSendable(s);
    if Scan(s).0 == [f] {
      assert Scan(s).0[0] == f;
    }
  }

  lemma {:induction false} ScannedSendable(s: seq<byte>)
    ensures forall i :: 0 <= i < |Scan(s).0| ==> Sendable(Scan(s).0[i])
    decreases |s|
  {
    if |s| < 2 {
    } else if !PairAt(s, 0) {
      ScannedSendable(s[1..]);
    } else {
      match LookAt(s)
      case NeedMore =>
      case Spurious => ScannedSendable(s[2..]);
      case Whole(f) => ScannedSendable(s[Size(f)..]);
    }
  }

  // ---------- Where the frames of any stream lie ----------

  /** A prefix, four header bytes, the payload, and the CRC of all that. */
  predicate Segment(s: seq<byte>, f: Frame) {
    && |s| == Size(f) && PairAt(s, 0) && s[2] / 16 == f.kind
    && U16(s[4], s[5]) == |f.payload| + 2 && s[6..|s| - 2] == f.payload && Crc16(s) == 0
  }

  /** Where each scanned frame starts, counting from base. */
  function Starts(s: seq<byte>, base: nat): seq<nat>
    decreases |s|
  {
    if |s| < 2 then []
    else if !PairAt(s, 0) then Starts(s[1..], base + 1)
    else match LookAt(s)
      case NeedMore => []
      case Spurious => Starts(s[2..], base + 2)
      case Whole(f) => [base] + Starts(s[Size(f)..], base + Size(f))
  }

  lemma WholeIsSegment(s: seq<byte>)
    requires PairAt(s, 0) && LookAt(s).Whole?
    ensures var f := LookAt(s).frame; Size(f) <= |s| && Segment(s[..Size(f)], f)
  {
    hide Crc16;
    var f := LookAt(s).frame;
    var n := Size(f);
    var t := s[..n];
    assert t[..n - 2] == s[..n - 2];
    ResidueZero(s[..n - 2], s[n - 2], s[n - 1]);
    assert t == s[..n - 2] + [s[n - 2], s[n - 1]];
    assert t[6..n - 2] == s[6..n - 2];
  }

  /** f lies in the stream from position p. */
  predicate Lies(stream: seq<byte>, p: nat, f: Frame) {
    p + Size(f) <= |stream| && Segment(stream[p..p + Size(f)], f)
  }

  /** From base on, each frame lies in the stream after the end of the one before it. */
  predicate InOrder(stream: seq<byte>, base: nat, ps: seq<nat>, fs: seq<Frame>)
    decreases |fs|
  {
    && |ps| == |fs|
    && (|fs| > 0 ==>
          && base <= ps[0] && Lies(stream, ps[0], fs[0])
          && InOrder(stream, ps[0] + Size(fs[0]), ps[1..], fs[1..]))
  }

  /** The scanned frames are CRC-valid segments of the stream, in order and disjoint. */
  lemma {:induction false} FramesAreSegments(stream: seq<byte>, base: nat)
    requires base <= |stream|
    ensures InOrder(stream, base, Starts(stream[base..], base), Scan(stream[base..]).0)
    decreases |stream| - base
  {
    hide LookAt, Size, Lies;
    var s := stream[base..];
    if |s| < 2 {
    } else if !PairAt(s, 0) {
      assert s[1..] == stream[base + 1..];
      FramesAreSegments(stream, base + 1);
    } else {
      match LookAt(s)
      case NeedMore =>
      case Spurious =>
        assert s[2..] == stream[base + 2..];
        FramesAreSegments(stream, base + 2);
      case Whole(f) =>
        WholeFits(s);
        WholeLies(stream, base);
        assert s[Size(f)..] == stream[base + Size(f)..];
        FramesAreSegments(stream, base + Size(f));
        assert ([base] + Starts(s[Size(f)..], base + Size(f)))[1..] == Starts(s[Size(f)..], base + Size(f));
        assert ([f] + Scan(s[Size(f)..]).0)[1..] == Scan(s[Size(f)..]).0;
    }
  }

  lemma WholeLies(stream: seq<byte>, base: nat)
    requires base <= |stream| && PairAt(stream[base..], 0) && LookAt(stream[base..]).Whole?
    ensures Lies(stream, base, LookAt(stream[base..]).frame)
  {
    hide LookAt, Segment;
    var s := stream[base..];
    WholeIsSegment(s);
    WholeFits(s);
    var n := Size(LookAt(s).frame);
    assert s[..n] == stream[base..base + n];
  }
}
