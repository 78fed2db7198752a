/** The telemetry task: heartbeats decoded from the stream, state published, the owner notified. */
module Telemetry {
  import opened Bytes
  import opened Crc
  import opened Packet
  import opened Stream
  import opened FrameBuf
  import opened Session
  import opened Handshake
  import opened HandshakeRun

  const ADDR_PD: byte := 0x02
  const ADDR_MPPT: byte := 0x05
  const CMDSET_HEARTBEAT: byte := 0x20
  const CMDID_HEARTBEAT: byte := 0x02
  const PD_SOC_OFFSET: nat := 14
  const MPPT_CAR_STATE_OFFSET: nat := 56
  const MPPT_CFG_AC_ENABLED_OFFSET: nat := 66

  /** The notification bits of app_events.h that the owner's loop looks at. */
  datatype Event = BatteryLevel | DcState | AcState | ToggleAc | ToggleDc

  /** (int8_t) of a byte. */
  function Int8(b: byte): int {
    if b < 128 then b else b - 256
  }

  // ---------- What telemetry makes of a packet ----------

  /** The published state, the time of the next battery notification, and how often the clock has been read. */
  datatype State = State(battery: int, dc: int, ac: int, nextNotify: int, ticks: nat)

  const INITIAL := State(-1, -1, -1, 0, 0)

  /** Where time comes from and how far apart battery notifications are. */
  datatype Timing = Timing(clock: nat -> int, intervalMs: nat)

  function OnPd(t: State, payload: seq<byte>, timing: Timing): (State, set<Event>) {
    if |payload| <= PD_SOC_OFFSET then (t, {}) else
    var now := timing.clock(t.ticks);
    var due := now >= t.nextNotify;
    var next := if due then now + timing.intervalMs * 1000 else t.nextNotify;
    (State(Int8(payload[PD_SOC_OFFSET]), t.dc, t.ac, next, t.ticks + 1),
     if due then {BatteryLevel} else {})
  }

  function OnMppt(t: State, payload: seq<byte>): (State, set<Event>) {
    var ac := if |payload| > MPPT_CFG_AC_ENABLED_OFFSET then Int8(payload[MPPT_CFG_AC_ENABLED_OFFSET]) else t.ac;
    var dc := if |payload| > MPPT_CAR_STATE_OFFSET then Int8(payload[MPPT_CAR_STATE_OFFSET]) else t.dc;
    (t.(ac := ac, dc := dc), (if ac != t.ac then {AcState} else {}) + (if dc != t.dc then {DcState} else {}))
  }

  /** One decoded packet: the new state and the bits to notify. */
  function OnPacket(t: State, p: Inner, timing: Timing): (State, set<Event>) {
    if p.cmdId != CMDID_HEARTBEAT then (t, {})
    else if p.src == ADDR_PD && p.cmdSet == CMDSET_HEARTBEAT then OnPd(t, p.payload, timing)
    else if p.src == ADDR_MPPT then OnMppt(t, p.payload)
    else (t, {})
  }

  // ---------- What a heartbeat says, byte by byte ----------

  /** v is the byte read as a signed number. */
  predicate Signed(v: int, b: byte) {
    -128 <= v < 128 && (v - b as int) % 256 == 0
  }

  /** A heartbeat of the device at an address: id 2, and from the battery also set 0x20. */
  predicate Heartbeat(p: Inner, src: byte) {
    p.cmdId == 2 && p.src == src && (src == 2 ==> p.cmdSet == 0x20)
  }

  /** A battery heartbeat publishes byte 14 as the level, and notifies it when its time has come. */
  predicate ReportsBattery(t: State, t': State, bits: set<Event>, p: Inner, timing: Timing)
    requires |p.payload| > 14
  {
    var now := timing.clock(t.ticks);
    && Signed(t'.battery, p.payload[14])
    && t' == State(t'.battery, t.dc, t.ac, if now >= t.nextNotify then now + 1000 * timing.intervalMs else t.nextNotify,
                   t.ticks + 1)
    && bits == if now >= t.nextNotify then {BatteryLevel} else {}
  }

  /** An MPPT heartbeat publishes byte 66 as the AC value and byte 56 as the DC value, as far as it has them, and
      notifies those that changed. */
  predicate ReportsPorts(t: State, t': State, bits: set<Event>, p: Inner) {
    && t' == State(t.battery, t'.dc, t'.ac, t.nextNotify, t.ticks)
    && (if |p.payload| > 66 then Signed(t'.ac, p.payload[66]) else t'.ac == t.ac)
    && (if |p.payload| > 56 then Signed(t'.dc, p.payload[56]) else t'.dc == t.dc)
    && (forall e :: e in bits <==> (e == AcState && t'.ac != t.ac) || (e == DcState && t'.dc != t.dc))
  }

  /** What any packet does; all but heartbeats do nothing. */
  predicate Reports(t: State, t': State, bits: set<Event>, p: Inner, timing: Timing) {
    if Heartbeat(p, 2) && |p.payload| > 14 then ReportsBattery(t, t', bits, p, timing)
    else if Heartbeat(p, 5) then ReportsPorts(t, t', bits, p)
    else t' == t && bits == {}
  }

  lemma PacketReports(t: State, p: Inner, timing: Timing)
    ensures Reports(t, OnPacket(t, p, timing).0, OnPacket(t, p, timing).1, p, timing)
  {}

  /** The byte at a position of the payload in the last heartbeat from an address that has one. */
  function LastByte(c: Cipher, fs: seq<Frame>, src: byte, at: nat): Option<byte>
    decreases |fs|
  {
    if |fs| == 0 then None else
    var f := fs[|fs| - 1];
    var o := Open(c, f.payload);
    if f.kind == 1 && o.Carries? && Heartbeat(o.packet, src) && |o.packet.payload| > at
    then Some(o.packet.payload[at])
    else LastByte(c, fs[..|fs| - 1], src, at)
  }

  predicate Shows(v: int, latest: Option<byte>) {
    if latest.None? then v == -1 else Signed(v, latest.value)
  }

  lemma FrameShows(t: State, c: Cipher, fs: seq<Frame>, f: Frame, timing: Timing)
    requires Shows(t.battery, LastByte(c, fs, 2, 14))
    requires Shows(t.ac, LastByte(c, fs, 5, 66)) && Shows(t.dc, LastByte(c, fs, 5, 56))
    ensures var (next, _) := OnFrame(t, c, f, timing);
            && Shows(next.battery, LastByte(c, fs + [f], 2, 14))
            && Shows(next.ac, LastByte(c, fs + [f], 5, 66)) && Shows(next.dc, LastByte(c, fs + [f], 5, 56))
  {
    hide Open, OnPacket;
    assert (fs + [f])[..|fs|] == fs;
    var o := Open(c, f.payload);
    if f.kind == 1 && o.Carries? {
      PacketReports(t, o.packet, timing);
    }
  }

  /** What is published is what the last heartbeats said: byte 14 of the battery's, bytes 66 and 56 of the MPPT's. */
  lemma {:induction false} PublishedLast(c: Cipher, fs: seq<Frame>, timing: Timing)
    ensures var t := OnFrames(INITIAL, c, fs, timing).0;
            && Shows(t.battery, LastByte(c, fs, 2, 14))
            && Shows(t.ac, LastByte(c, fs, 5, 66)) && Shows(t.dc, LastByte(c, fs, 5, 56))
    decreases |fs|
  {
    hide OnFrame, LastByte, Shows;
    if |fs| == 0 {
      assert Shows(-1, LastByte(c, fs, 2, 14)) && Shows(-1, LastByte(c, fs, 5, 66)) && Shows(-1, LastByte(c, fs, 5, 56))
      by { NoneYet(c, fs); }
    } else {
      var before, f := fs[..|fs| - 1], fs[|fs| - 1];
      PublishedLast(c, before, timing);
      assert fs == before + [f];
      OnFramesConcat(INITIAL, c, before, [f], timing);
      var t := OnFrames(INITIAL, c, before, timing).0;
      OneFrame(t, c, f, timing);
      FrameShows(t, c, before, f, timing);
    }
  }

  lemma NoneYet(c: Cipher, fs: seq<Frame>)
    requires fs == []
    ensures Shows(-1, LastByte(c, fs, 2, 14)) && Shows(-1, LastByte(c, fs, 5, 66)) && Shows(-1, LastByte(c, fs, 5, 56))
  {}

  // ---------- Frames ----------

  /** A notification with no bits is not sent. */
  function Sent(bits: set<Event>): seq<set<Event>> {
    if bits == {} then [] else [bits]
  }

  function OnFrame(t: State, c: Cipher, f: Frame, timing: Timing): (State, set<Event>) {
    if f.kind != FRAME_DATA then (t, {}) else
    match Open(c, f.payload)
    case Carries(p) => OnPacket(t, p, timing)
    case _ => (t, {})
  }

  /** A list of frames: the final state and the notifications, in order. */
  function OnFrames(t: State, c: Cipher, fs: seq<Frame>, timing: Timing): (State, seq<set<Event>>)
    decreases |fs|
  {
    if |fs| == 0 then (t, []) else
    var (next, bits) := OnFrame(t, c, fs[0], timing);
    var (last, later) := OnFrames(next, c, fs[1..], timing);
    (last, Sent(bits) + later)
  }

  lemma {:induction false} OnFramesConcat(t: State, c: Cipher, fs: seq<Frame>, gs: seq<Frame>, timing: Timing)
    ensures var (mid, first) := OnFrames(t, c, fs, timing);
            var (last, second) := OnFrames(mid, c, gs, timing);
            OnFrames(t, c, fs + gs, timing) == (last, first + second)
    decreases |fs|
  {
    hide OnFrame;
    if |fs| == 0 {
      assert fs + gs == gs;
      assert [] + OnFrames(t, c, gs, timing).1 == OnFrames(t, c, gs, timing).1;
    } else {
      assert (fs + gs)[1..] == fs[1..] + gs;
      var (next, bits) := OnFrame(t, c, fs[0], timing);
      OnFramesConcat(next, c, fs[1..], gs, timing);
      var (mid, first) := OnFrames(next, c, fs[1..], timing);
      var second := OnFrames(mid, c, gs, timing).1;
      assert (Sent(bits) + first) + second == Sent(bits) + (first + second);
    }
  }

  /** The clock values at which the battery level was notified. */
  function BatteryTimes(t: State, c: Cipher, fs: seq<Frame>, timing: Timing): seq<int>
    decreases |fs|
  {
    if |fs| == 0 then [] else
    var (next, bits) := OnFrame(t, c, fs[0], timing);
    (if BatteryLevel in bits then [timing.clock(t.ticks)] else []) + BatteryTimes(next, c, fs[1..], timing)
  }

  lemma FrameThrottled(t: State, c: Cipher, f: Frame, timing: Timing)
    ensures var (next, bits) := OnFrame(t, c, f, timing);
            if BatteryLevel in bits
            then
              && timing.clock(t.ticks) >= t.nextNotify
              && next.nextNotify == timing.clock(t.ticks) + timing.intervalMs * 1000
            else next.nextNotify == t.nextNotify
  {
    hide Open;
  }

  /** Battery notifications are at least the interval apart. */
  lemma {:induction false} BatteryThrottled(t: State, c: Cipher, fs: seq<Frame>, timing: Timing)
    ensures var ts := BatteryTimes(t, c, fs, timing);
            && (|ts| > 0 ==> ts[0] >= t.nextNotify)
            && forall i :: 0 < i < |ts| ==> ts[i] >= ts[i - 1] + timing.intervalMs * 1000
    decreases |fs|
  {
    hide OnFrame;
    if |fs| > 0 {
      FrameThrottled(t, c, fs[0], timing);
      BatteryThrottled(OnFrame(t, c, fs[0], timing).0, c, fs[1..], timing);
    }
  }

  // ---------- Rounds ----------

  /** One notification of the BLE link after another: the state, the notifications, and the bytes left over. */
  function Rounds(t: State, rest: seq<byte>, chunks: seq<seq<byte>>, c: Cipher, timing: Timing)
    : (State, seq<set<Event>>, seq<byte>)
    decreases |chunks|
  {
    if |chunks| == 0 then (t, [], rest) else
    var (fs, left) := Scan(rest + chunks[0]);
    var (next, bits) := OnFrames(t, c, fs, timing);
    var (last, later, end) := Rounds(next, left, chunks[1..], c, timing);
    (last, bits + later, end)
  }

  /** What telemetry publishes and notifies depends only on the bytes that arrive, not on the chunks. */
  lemma {:induction false} RoundsAreStream(t: State, rest: seq<byte>, chunks: seq<seq<byte>>, c: Cipher, timing: Timing)
    requires Scan(rest) == ([], rest)
    ensures var (fs, left) := Scan(rest + Flatten(chunks));
            Rounds(t, rest, chunks, c, timing)
            == (OnFrames(t, c, fs, timing).0, OnFrames(t, c, fs, timing).1, left)
    decreases |chunks|
  {
    hide Scan, OnFrame;
    if |chunks| == 0 {
      assert rest + [] == rest;
    } else {
      var (fs, left) := Scan(rest + chunks[0]);
      ScanAgain(rest + chunks[0]);
      var next := OnFrames(t, c, fs, timing).0;
      RoundsAreStream(next, left, chunks[1..], c, timing);
      assert rest + Flatten(chunks) == (rest + chunks[0]) + Flatten(chunks[1..]);
      ScanConcat(rest + chunks[0], Flatten(chunks[1..]));
      OnFramesConcat(t, c, fs, Scan(left + Flatten(chunks[1..])).0, timing);
    }
  }

  lemma ScanAgain(s: seq<byte>)
    ensures Scan(Scan(s).1) == ([], Scan(s).1)
  {
    hide Scan;
    ScanConcat(s, []);
    var r := Scan(s);
    assert s + [] == s && r.1 + [] == r.1;
    assert |r.0 + Scan(r.1).0| == |r.0| + |Scan(r.1).0|;
  }

  // ---------- The code ----------

  /** The static variables of river2_telemetry.c, next_notify_us, and the notifications sent to the owner. */
  class Task {
    var batteryPercent: int
    var dcOutState: int
    var acEnabled: int
    var nextNotifyUs: int
    var ticks: nat
    ghost var notified: seq<set<Event>>

    ghost function Value(): State
      reads this
    {
      State(batteryPercent, dcOutState, acEnabled, nextNotifyUs, ticks)
    }

    constructor ()
      ensures Value() == INITIAL && notified == []
    {
      batteryPercent, dcOutState, acEnabled, nextNotifyUs := -1, -1, -1, 0;
      ticks, notified := 0, [];
    }

    /** A decoded packet: publish first, notify afterwards. */
    method HandlePacket(p: Inner, timing: Timing)
      modifies this
      ensures var (t, bits) := OnPacket(old(Value()), p, timing);
              Value() == t && notified == old(notified) + Sent(bits)
      ensures var bits := OnPacket(old(Value()), p, timing).1;
              && Reports(old(Value()), Value(), bits, p, timing)
              && notified == if bits == {} then old(notified) else old(notified) + [bits]
    {
      PacketReports(Value(), p, timing);
      hide Reports;
      assert notified + [] == notified;
      if p.cmdId != CMDID_HEARTBEAT {
        return;
      }
      var notifyBits: set<Event> := {};
      if p.src == ADDR_PD && p.cmdSet == CMDSET_HEARTBEAT {
        if |p.payload| > PD_SOC_OFFSET {
          batteryPercent := Int8(p.payload[PD_SOC_OFFSET]);
          var now := timing.clock(ticks);
          ticks := ticks + 1;
          if now >= nextNotifyUs {
            notifyBits := notifyBits + {BatteryLevel};
            nextNotifyUs := now + timing.intervalMs * 1000;
          }
        }
      } else if p.src == ADDR_MPPT {
        if |p.payload| > MPPT_CFG_AC_ENABLED_OFFSET {
          var ac := Int8(p.payload[MPPT_CFG_AC_ENABLED_OFFSET]);
          if ac != acEnabled {
            acEnabled := ac;
            notifyBits := notifyBits + {AcState};
          }
        }
        if |p.payload| > MPPT_CAR_STATE_OFFSET {
          var dc := Int8(p.payload[MPPT_CAR_STATE_OFFSET]);
          if dc != dcOutState {
            dcOutState := dc;
            notifyBits := notifyBits + {DcState};
          }
        }
      }
      assert notifyBits == OnPacket(old(Value()), p, timing).1;
      if notifyBits != {} {
        notified := notified + [notifyBits];
      }
    }

    /** One extracted frame; when PSA fails it counts as undecryptable. */
    method HandleFrame(tables: Tables, platform: Platform, c: Cipher, kind: byte, payload: seq<byte>, timing: Timing)
      returns (ghost heard: bool)
      requires tables.Valid() && c.Valid()
      modifies this, tables.Repr(), platform`failures
      ensures tables.Valid() && old(platform.failures) <= platform.failures && (heard || platform.failures != {})
      ensures heard ==> var (t, bits) := OnFrame(old(Value()), c, Frame(kind, payload), timing);
                        Value() == t && notified == old(notified) + Sent(bits)
      ensures !heard ==> Value() == old(Value()) && notified == old(notified)
    {
      hide c.Valid, tables.Valid, Open, OnPacket;
      assert notified + [] == notified;
      heard := true;
      if kind != FRAME_DATA {
        return;
      }
      var o := OpenFrame(tables, platform, c, payload);
      heard := o == Open(c, payload);
      match o {
        case Carries(p) => HandlePacket(p, timing);
        case _ =>
      }
    }

    /** One turn of the drain loop; granted tells whether memory was. */
    method DrainStep(tables: Tables, fb: FrameBuf, platform: Platform, c: Cipher, timing: Timing)
      returns (found: bool, ghost heard: bool, ghost granted: bool)
      requires Ready(tables, fb) && c.Valid()
      modifies this, fb, fb.data, fb.scratch, tables.Repr(), platform`failures
      ensures old(platform.failures) <= platform.failures
      ensures Ready(tables, fb) && Kept(fb) && ((heard && granted) || platform.failures != {})
      ensures found ==>
                var (fs, left) := Scan(old(fb.Value().contents));
                |fs| > 0 && Scan(fb.Value().contents) == (fs[1..], left) && fb.len < old(fb.len)
      ensures found && heard ==>
                var (t, bits) := OnFrame(old(Value()), c, Scan(old(fb.Value().contents)).0[0], timing);
                Value() == t && notified == old(notified) + Sent(bits)
      ensures !found || !heard ==> Value() == old(Value()) && notified == old(notified)
      ensures !found ==> Scan(old(fb.Value().contents)) == Scan(fb.Value().contents)
      ensures !found && granted ==> Scan(fb.Value().contents) == ([], fb.Value().contents)
    {
      hide c.Valid, tables.Valid, Scan, OnFrame, AfterExtract;
      ghost var before := fb.Value();
      ghost var fs := Scan(before.contents).0;
      heard := true;
      var kind, payloadLen;
      var alloc := platform.Works(NoMem);
      granted := alloc;
      found, kind, payloadLen := fb.Extract(tables, alloc);
      ExtractExactly(before, alloc);
      if found {
        var payload := fb.scratch[..payloadLen];
        assert fs[0] == Frame(kind, payload) && fs[1..] == Scan(fb.Value().contents).0;
        heard := HandleFrame(tables, platform, c, kind, payload, timing);
      }
    }

    /** The body of the telemetry loop: wait for a notification, append it, drain. heard tells for each extracted frame
        whether PSA worked on it, drained whether the last extract was granted its memory. */
    method Round(tables: Tables, fb: FrameBuf, platform: Platform, c: Cipher, timing: Timing)
      returns (ghost taken: bool, ghost heard: seq<bool>, ghost drained: bool)
      requires Ready(tables, fb) && c.Valid()
      modifies this, fb, fb.data, fb.scratch, tables.Repr(), platform
      ensures Ready(tables, fb) && Kept(fb) && old(platform.failures) <= platform.failures
      ensures !taken ==> && Value() == old(Value()) && notified == old(notified) && fb.Value() == old(fb.Value())
                         && (platform.failures != {} || old(|platform.waiting|) == 0)
      ensures !taken ==> platform.waiting == old(platform.waiting)
                         || (old(|platform.waiting|) > 0 && platform.waiting == old(platform.waiting)[1..])
      ensures taken ==> old(|platform.waiting|) > 0 && platform.waiting == old(platform.waiting)[1..]
      ensures taken ==>
                var (fs, left) := Scan(old(fb.Value().contents) + old(platform.waiting)[0]);
                && |heard| <= |fs| && Scan(fb.Value().contents) == (fs[|heard|..], left)
                && Value() == OnFrames(old(Value()), c, Picked(fs, heard), timing).0
                && notified == old(notified) + OnFrames(old(Value()), c, Picked(fs, heard), timing).1
                && (drained ==> fb.Value().contents == left && |heard| == |fs|)
      ensures taken && platform.failures == {} ==>
                drained && AllTrue(heard)
                && Picked(Scan(old(fb.Value().contents) + old(platform.waiting)[0]).0, heard)
                   == Scan(old(fb.Value().contents) + old(platform.waiting)[0]).0
    {
      hide c.Valid, tables.Valid, Scan, OnFrame, AfterAppend;
      taken, heard, drained := false, [], false;
      var err, chunk := platform.Wait();
      if err != Ok {
        return;
      }
      ghost var b := fb.Value();
      var buf := ArrayOf(chunk);
      assert buf[..|chunk|] == chunk;
      var alloc := platform.Works(NoMem);
      var ok := fb.Append(buf, |chunk|, alloc);
      AppendExactly(b, chunk, alloc);
      if !ok {
        return;
      }
      taken := true;
      ghost var fs, left := Scan(fb.Value().contents).0, Scan(fb.Value().contents).1;
      heard, drained := Drain(tables, fb, platform, c, timing, fs, left);
    }

    /** The drain loop on the frames fs of the buffer. */
    method Drain(tables: Tables, fb: FrameBuf, platform: Platform, c: Cipher, timing: Timing,
                 ghost fs: seq<Frame>, ghost left: seq<byte>)
      returns (ghost heard: seq<bool>, ghost drained: bool)
      requires Ready(tables, fb) && c.Valid() && Scan(fb.Value().contents) == (fs, left)
      modifies this, fb, fb.data, fb.scratch, tables.Repr(), platform`failures
      ensures Ready(tables, fb) && Kept(fb) && old(platform.failures) <= platform.failures
      ensures |heard| <= |fs| && Scan(fb.Value().contents) == (fs[|heard|..], left)
      ensures Value() == OnFrames(old(Value()), c, Picked(fs, heard), timing).0
      ensures notified == old(notified) + OnFrames(old(Value()), c, Picked(fs, heard), timing).1
      ensures drained ==> fb.Value().contents == left && |heard| == |fs|
      ensures platform.failures == {} ==> drained && AllTrue(heard) && Picked(fs, heard) == fs
    {
      hide c.Valid, tables.Valid, Scan, OnFrame, Picked, OnFrames;
      heard, drained := [], false;
      ghost var start, sent := Value(), notified;
      NothingHeard(start, c, fs, timing);
      var found := true;
      while found
        invariant Ready(tables, fb) && Kept(fb) && old(platform.failures) <= platform.failures
        invariant |heard| <= |fs| && Scan(fb.Value().contents) == (fs[|heard|..], left)
        invariant Value() == OnFrames(start, c, Picked(fs, heard), timing).0
        invariant notified == sent + OnFrames(start, c, Picked(fs, heard), timing).1
        invariant platform.failures == {} ==> AllTrue(heard)
        invariant !found && drained ==> fs[|heard|..] == [] && fb.Value().contents == left
        invariant !found ==> drained || platform.failures != {}
        decreases found, fb.len
      {
        ghost var one: bool;
        found, one, drained := DrainStep(tables, fb, platform, c, timing);
        if found {
          HeardOne(start, c, fs, heard, one, timing);
          heard := heard + [one];
        }
      }
      if AllTrue(heard) {
        PickedAll(fs, heard);
      }
    }

    /** The first turns of telemetry_task's endless loop. took tells of each chunk that came whether it was appended,
        heard of each frame extracted whether PSA worked on it. The frames extracted are the first of the frames in the
        bytes appended, all of them if the last extract was granted its memory; those heard are handled, in order. */
    method Serve(tables: Tables, platform: Platform, c: Cipher, timing: Timing, turns: nat)
      returns (ghost took: seq<bool>, ghost heard: seq<bool>, ghost drained: bool)
      requires tables.Valid() && c.Valid()
      modifies this, tables.Repr(), platform
      ensures tables.Valid() && old(platform.failures) <= platform.failures
      ensures |took| <= old(|platform.waiting|) && platform.waiting == old(platform.waiting)[|took|..]
      ensures var frames := FramesIn(old(platform.waiting), took);
              && |heard| <= |frames| && (drained ==> |heard| == |frames|)
              && Value() == OnFrames(old(Value()), c, Picked(frames, heard), timing).0
              && notified == old(notified) + OnFrames(old(Value()), c, Picked(frames, heard), timing).1
      ensures platform.failures == {} ==>
                var frames := Scan(Flatten(old(platform.waiting)[..|took|])).0;
                && Value() == OnFrames(old(Value()), c, frames, timing).0
                && notified == old(notified) + OnFrames(old(Value()), c, frames, timing).1
    {
      hide c.Valid, tables.Valid, Scan, OnFrame, OnFrames, Picked;
      var fb := new FrameBuf();
      took, heard, drained := [], [], true;
      ghost var start, sent, all := Value(), notified, platform.waiting;
      NothingServed(all, fb.Value().contents, start, c, timing);
      for turn := 0 to turns
        invariant Ready(tables, fb) && fresh(fb) && fresh(fb.data) && fresh(fb.scratch)
        invariant old(platform.failures) <= platform.failures
        invariant |took| <= |all| && platform.waiting == all[|took|..]
        invariant Follows(all, took, fb.Value().contents, heard, drained)
        invariant Value() == OnFrames(start, c, Picked(FramesIn(all, took), heard), timing).0
        invariant notified == sent + OnFrames(start, c, Picked(FramesIn(all, took), heard), timing).1
        invariant platform.failures == {} ==> drained && AllTrue(took) && AllTrue(heard)
      {
        ghost var before := fb.Value().contents;
        ghost var left := |platform.waiting|;
        ghost var taken, more, clean;
        taken, more, clean := Round(tables, fb, platform, c, timing);
        if taken {
          TurnTaken(all, took, before, fb.Value().contents, heard, drained, more, clean, start, c, timing);
          took, heard, drained := took + [true], heard + more, clean;
        } else if |platform.waiting| < left {
          TurnLost(all, took);
          took := took + [false];
        }
      }
      if platform.failures == {} {
        AllServed(all, took, heard);
      }
    }
  }

  // ---------- Which chunks were taken and which frames heard ----------

  /** Of the first elements of s those that were chosen. */
  function Picked<T>(s: seq<T>, chosen: seq<bool>): seq<T>
    requires |chosen| <= |s|
    decreases |chosen|
  {
    if |chosen| == 0 then [] else
    var n := |chosen| - 1;
    Picked(s, chosen[..n]) + (if chosen[n] then [s[n]] else [])
  }

  lemma NothingHeard(t: State, c: Cipher, fs: seq<Frame>, timing: Timing)
    ensures Picked(fs, []) == [] && OnFrames(t, c, [], timing) == (t, [])
  {}

  predicate AllTrue(s: seq<bool>) {
    forall i :: 0 <= i < |s| ==> s[i]
  }

  lemma {:induction false} PickedAll<T>(s: seq<T>, chosen: seq<bool>)
    requires |chosen| <= |s| && AllTrue(chosen)
    ensures Picked(s, chosen) == s[..|chosen|]
    decreases |chosen|
  {
    if |chosen| > 0 {
      PickedAll(s, chosen[..|chosen| - 1]);
    }
  }

  lemma {:induction false} PickedTwice<T>(s: seq<T>, a: seq<bool>, b: seq<bool>)
    requires |a| + |b| <= |s|
    ensures Picked(s, a + b) == Picked(s, a) + Picked(s[|a|..], b)
    decreases |b|
  {
    if |b| == 0 {
      assert a + b == a;
    } else {
      var n := |b| - 1;
      PickedTwice(s, a, b[..n]);
      assert (a + b)[..|a| + n] == a + b[..n];
    }
  }

  lemma {:induction false} PickedBefore<T>(s: seq<T>, later: seq<T>, chosen: seq<bool>)
    requires |chosen| <= |s|
    ensures Picked(s + later, chosen) == Picked(s, chosen)
    decreases |chosen|
  {
    if |chosen| > 0 {
      PickedBefore(s, later, chosen[..|chosen| - 1]);
    }
  }

  lemma {:induction false} FlattenSnoc(chunks: seq<seq<byte>>, last: seq<byte>)
    ensures Flatten(chunks + [last]) == Flatten(chunks) + last
    decreases |chunks|
  {
    if |chunks| == 0 {
      assert Flatten([last]) == last + Flatten([]);
    } else {
      assert (chunks + [last])[1..] == chunks[1..] + [last];
      FlattenSnoc(chunks[1..], last);
    }
  }

  /** The frames in the bytes of the chunks taken. */
  function FramesIn(chunks: seq<seq<byte>>, took: seq<bool>): seq<Frame>
    requires |took| <= |chunks|
  {
    Scan(Flatten(Picked(chunks, took))).0
  }

  /** As many frames as heard has entries are out of the buffer; those to come are the rest of the frames in the bytes
      of the chunks taken. */
  ghost predicate Follows(chunks: seq<seq<byte>>, took: seq<bool>, contents: seq<byte>, heard: seq<bool>, drained: bool)
    requires |took| <= |chunks|
  {
    var (frames, left) := Scan(Flatten(Picked(chunks, took)));
    && |heard| <= |frames| && Scan(contents) == (frames[|heard|..], left)
    && (drained ==> |heard| == |frames|)
  }

  lemma NothingServed(chunks: seq<seq<byte>>, contents: seq<byte>, t: State, c: Cipher, timing: Timing)
    requires contents == []
    ensures Follows(chunks, [], contents, [], true)
    ensures OnFrames(t, c, Picked(FramesIn(chunks, []), []), timing) == (t, [])
  {
    assert Scan([]) == ([], []);
  }

  lemma AllServed(chunks: seq<seq<byte>>, took: seq<bool>, heard: seq<bool>)
    requires |took| <= |chunks| && AllTrue(took) && AllTrue(heard) && |heard| == |FramesIn(chunks, took)|
    ensures Picked(FramesIn(chunks, took), heard) == Scan(Flatten(chunks[..|took|])).0
  {
    hide Scan;
    PickedAll(chunks, took);
    PickedAll(FramesIn(chunks, took), heard);
  }

  lemma TurnLost(chunks: seq<seq<byte>>, took: seq<bool>)
    requires |took| < |chunks|
    ensures Picked(chunks, took + [false]) == Picked(chunks, took)
  {
    assert (took + [false])[..|took|] == took;
  }

  /** One chunk more, and the frames extracted after it. */
  lemma TurnTaken(chunks: seq<seq<byte>>, took: seq<bool>, before: seq<byte>, after: seq<byte>, heard: seq<bool>,
                  drained: bool, more: seq<bool>, clean: bool, t: State, c: Cipher, timing: Timing)
    requires |took| < |chunks| && Follows(chunks, took, before, heard, drained)
    requires var (fs, left) := Scan(before + chunks[|took|]);
             |more| <= |fs| && Scan(after) == (fs[|more|..], left) && (clean ==> |more| == |fs|)
    ensures Follows(chunks, took + [true], after, heard + more, clean)
    ensures var (mid, first) := OnFrames(t, c, Picked(FramesIn(chunks, took), heard), timing);
            var (last, second) := OnFrames(mid, c, Picked(Scan(before + chunks[|took|]).0, more), timing);
            OnFrames(t, c, Picked(FramesIn(chunks, took + [true]), heard + more), timing) == (last, first + second)
  {
    hide Scan, OnFrames, OnFrame;
    var chunk, accepted := chunks[|took|], Flatten(Picked(chunks, took));
    assert (took + [true])[..|took|] == took;
    FlattenSnoc(Picked(chunks, took), chunk);
    ScanConcat(accepted, chunk);
    ScanConcat(before, chunk);
    var (frames, left) := Scan(accepted);
    var (fs, _) := Scan(before + chunk);
    var (later, end) := Scan(left + chunk);
    assert fs == frames[|heard|..] + later;
    assert (frames + later)[|heard|..] == fs;
    assert (frames + later)[|heard| + |more|..] == fs[|more|..];
    PickedTwice(frames + later, heard, more);
    PickedBefore(frames, later, heard);
    OnFramesConcat(t, c, Picked(frames, heard), Picked(fs, more), timing);
  }

  /** One frame more. */
  lemma HeardOne(t: State, c: Cipher, fs: seq<Frame>, heard: seq<bool>, one: bool, timing: Timing)
    requires |heard| < |fs|
    ensures var f, (mid, first) := fs[|heard|], OnFrames(t, c, Picked(fs, heard), timing);
            var (next, bits) := OnFrame(mid, c, f, timing);
            OnFrames(t, c, Picked(fs, heard + [one]), timing)
            == if one then (next, first + Sent(bits)) else (mid, first)
  {
    hide OnFrame;
    var f, before := fs[|heard|], Picked(fs, heard);
    assert (heard + [one])[..|heard|] == heard;
    if one {
      OnFramesConcat(t, c, before, [f], timing);
      OneFrame(OnFrames(t, c, before, timing).0, c, f, timing);
    } else {
      assert before + [] == before;
    }
  }

  lemma OneFrame(t: State, c: Cipher, f: Frame, timing: Timing)
    ensures var (next, bits) := OnFrame(t, c, f, timing); OnFrames(t, c, [f], timing) == (next, Sent(bits))
  {
    hide OnFrame;
    assert [f][1..] == [];
    var (next, bits) := OnFrame(t, c, f, timing);
    assert OnFrames(next, c, [], timing) == (next, []);
    assert Sent(bits) + [] == Sent(bits);
  }
}
