/** The telemetry task and the owner's notification loop, interleaved step by step. */
module Owner {
  import opened Bytes
  import opened Packet
  import opened Stream
  import opened Session
  import opened Handshake
  import opened Telemetry

  // ---------- State ----------

  /** Where the telemetry task is: between packets, about to store AC, about to store DC, or about to notify. */
  datatype TaskPc =
    | Idle
    | StoreAc(acRead: Option<int>, dcRead: Option<int>)
    | StoreDc(dcNext: Option<int>, sofar: set<Event>)
    | StoreBattery(level: int, due: bool)
    | Notify(bits: set<Event>)

  /** Where the owner is: in xTaskNotifyWait, or handling the bits it took, at one of the five tests in turn. */
  datatype OwnerPc = Waiting | Handling(stage: nat, taken: set<Event>)

  /** The owner's variables, the values it last read, and whether it toggled the port since. */
  datatype Owner = Owner(acOn: bool, dcOn: bool, acKnown: bool, dcKnown: bool, lastAc: int, lastDc: int,
                         acToggled: bool, dcToggled: bool)

  /** The published state, the owner's pending notification bits, both tasks. */
  datatype Sys = Sys(ac: int, dc: int, battery: int, pending: set<Event>, task: TaskPc, at: OwnerPc, owner: Owner)

  const BOOT := Sys(-1, -1, -1, {}, Idle, Waiting, Owner(false, false, false, false, -1, -1, false, false))

  // ---------- Steps ----------

  /** What can happen next: a heartbeat arrives, telemetry or the owner takes a step, or a button is pushed. */
  datatype Action =
    | MpptPacket(ac: Option<int>, dc: Option<int>)
    | PdPacket(level: int, due: bool)
    | TaskStep
    | Button(e: Event)
    | OwnerWake
    | OwnerStep(commandOk: bool)

  predicate Enabled(s: Sys, a: Action) {
    match a
    case MpptPacket(_, _) => s.task.Idle?
    case PdPacket(_, _) => s.task.Idle?
    case TaskStep => !s.task.Idle?
    case Button(e) => e == ToggleAc || e == ToggleDc
    case OwnerWake => s.at.Waiting? && s.pending != {}
    case OwnerStep(_) => s.at.Handling?
  }

  /** One assignment or notification of the telemetry task. */
  function StepTask(s: Sys): Sys {
    match s.task
    case Idle => s
    case StoreAc(ac, dc) =>
      if ac.Some? && ac.value != s.ac then s.(ac := ac.value, task := StoreDc(dc, {AcState}))
      else s.(task := StoreDc(dc, {}))
    case StoreDc(dc, bits) =>
      if dc.Some? && dc.value != s.dc then s.(dc := dc.value, task := Notify(bits + {DcState}))
      else s.(task := Notify(bits))
    case StoreBattery(level, due) => s.(battery := level, task := Notify(if due then {BatteryLevel} else {}))
    case Notify(bits) => s.(pending := s.pending + bits, task := Idle)
  }

  /** One test of the owner's loop, with what it does when its bit is set. */
  function StepOwner(s: Sys, commandOk: bool): Sys
    requires s.at.Handling?
  {
    var o, bits := s.owner, s.at.taken;
    var next := if s.at.stage >= 4 then Waiting else Handling(s.at.stage + 1, bits);
    var o' :=
      if s.at.stage == 0 && AcState in bits then
        o.(acOn := s.ac != 0, acKnown := true, lastAc := s.ac, acToggled := false)
      else if s.at.stage == 1 && DcState in bits then
        o.(dcOn := s.dc != 0, dcKnown := true, lastDc := s.dc, dcToggled := false)
      else if s.at.stage == 3 && ToggleAc in bits && o.acKnown && commandOk then o.(acOn := !o.acOn, acToggled := true)
      else if s.at.stage == 4 && ToggleDc in bits && o.dcKnown && commandOk then o.(dcOn := !o.dcOn, dcToggled := true)
      else o;
    s.(at := next, owner := o')
  }

  function Next(s: Sys, a: Action): Sys
    requires Enabled(s, a)
  {
    match a
    case MpptPacket(ac, dc) => s.(task := StoreAc(ac, dc))
    case PdPacket(level, due) => s.(task := StoreBattery(level, due))
    case TaskStep => StepTask(s)
    case Button(e) => s.(pending := s.pending + {e})
    case OwnerWake => s.(pending := {}, at := Handling(0, s.pending))
    case OwnerStep(commandOk) => StepOwner(s, commandOk)
  }

  /** s leads to t by the actions, each of them possible when its turn comes. */
  ghost predicate Run(s: Sys, actions: seq<Action>, t: Sys)
    decreases |actions|
  {
    if |actions| == 0 then s == t else Enabled(s, actions[0]) && Run(Next(s, actions[0]), actions[1..], t)
  }

  // ---------- The invariant ----------

  /** The bits telemetry has gathered but not yet sent. */
  function Gathered(p: TaskPc): set<Event> {
    match p
    case StoreDc(_, bits) => bits
    case Notify(bits) => bits
    case _ => {}
  }

  /** The bits the owner has taken and not yet passed. */
  predicate StillToSee(p: OwnerPc, e: Event) {
    p.Handling? && e in p.taken && p.stage <= if e == AcState then 0 else 1
  }

  /** A published value the owner has not read is announced somewhere. */
  ghost predicate Announced(s: Sys) {
    && (s.owner.lastAc == s.ac || AcState in s.pending || AcState in Gathered(s.task) || StillToSee(s.at, AcState))
    && (s.owner.lastDc == s.dc || DcState in s.pending || DcState in Gathered(s.task) || StillToSee(s.at, DcState))
  }

  /** The owner's booleans agree with what it last read, until it toggles the port itself. */
  ghost predicate Consistent(o: Owner) {
    && (if o.acKnown then o.acToggled || o.acOn == (o.lastAc != 0) else o.lastAc == -1 && !o.acOn && !o.acToggled)
    && (if o.dcKnown then o.dcToggled || o.dcOn == (o.lastDc != 0) else o.lastDc == -1 && !o.dcOn && !o.dcToggled)
  }

  /** The telemetry task's steps leave the owner alone and announce what they change. */
  lemma TaskKeeps(s: Sys)
    requires Announced(s)
    ensures Announced(StepTask(s)) && StepTask(s).owner == s.owner
  {}

  /** The owner passes a bit only after reading its value. */
  lemma OwnerKeeps(s: Sys, commandOk: bool)
    requires s.at.Handling? && Announced(s)
    ensures Announced(StepOwner(s, commandOk))
  {}

  lemma OwnerConsistent(s: Sys, commandOk: bool)
    requires s.at.Handling? && Consistent(s.owner)
    ensures Consistent(StepOwner(s, commandOk).owner)
  {}

  lemma StepKeeps(s: Sys, a: Action)
    requires Enabled(s, a) && Announced(s) && Consistent(s.owner)
    ensures Announced(Next(s, a)) && Consistent(Next(s, a).owner)
  {
    hide StepTask, StepOwner, Consistent;
    match a
    case TaskStep => TaskKeeps(s);
    case OwnerStep(commandOk) =>
      OwnerKeeps(s, commandOk);
      OwnerConsistent(s, commandOk);
    case _ =>
  }

  lemma {:induction false} RunKeeps(s: Sys, actions: seq<Action>, t: Sys)
    requires Run(s, actions, t) && Announced(s) && Consistent(s.owner)
    ensures Announced(t) && Consistent(t.owner)
    decreases |actions|
  {
    hide Announced, Consistent, Next, Enabled;
    if |actions| > 0 {
      StepKeeps(s, actions[0]);
      RunKeeps(Next(s, actions[0]), actions[1..], t);
    }
  }

  /** No bit is pending and neither task is in the middle of a step. */
  predicate Quiescent(s: Sys) {
    s.pending == {} && s.task.Idle? && s.at.Waiting?
  }

  /** In every reachable quiescent state the owner has read the published AC and DC values. */
  lemma OwnerUpToDate(actions: seq<Action>, s: Sys)
    requires Run(BOOT, actions, s) && Quiescent(s)
    ensures s.owner.lastAc == s.ac && s.owner.lastDc == s.dc
    ensures if s.owner.acKnown then s.owner.acToggled || s.owner.acOn == (s.ac != 0) else s.ac == -1 && !s.owner.acOn
    ensures if s.owner.dcKnown then s.owner.dcToggled || s.owner.dcOn == (s.dc != 0) else s.dc == -1 && !s.owner.dcOn
  {
    hide Run, Next;
    RunKeeps(BOOT, actions, s);
  }

  // ---------- Quiescence is reached ----------

  /** Steps the two tasks still have to take before they rest, if nothing new happens. */
  function Rank(s: Sys): nat {
    var task := match s.task {
      case Idle => 0
      case StoreAc(_, _) => 3
      case StoreDc(_, _) => 2
      case StoreBattery(_, _) => 2
      case Notify(_) => 1
    };
    var owner := if s.at.Handling? && s.at.stage <= 4 then 5 - s.at.stage else if s.at.Handling? then 1 else 0;
    20 * task + (if s.pending == {} then 0 else 10) + owner
  }

  predicate Internal(a: Action) {
    a.TaskStep? || a.OwnerWake? || a.OwnerStep?
  }

  /** Every step of the two tasks brings rest nearer, and until then one is always possible. */
  lemma RestApproaches(s: Sys)
    ensures forall a :: Internal(a) && Enabled(s, a) ==> Rank(Next(s, a)) < Rank(s)
    ensures !Quiescent(s) ==> exists a :: Internal(a) && Enabled(s, a)
    ensures Rank(s) == 0 <==> Quiescent(s)
  {
    if !Quiescent(s) {
      var a := if !s.task.Idle? then TaskStep else if s.at.Handling? then OwnerStep(true) else OwnerWake;
      assert Internal(a) && Enabled(s, a);
    }
  }

  /** Any run of the two tasks alone has at most Rank steps; one that cannot go on has reached rest. */
  lemma {:induction false} RestReached(s: Sys, actions: seq<Action>, t: Sys)
    requires Run(s, actions, t) && forall i :: 0 <= i < |actions| ==> Internal(actions[i])
    ensures |actions| + Rank(t) <= Rank(s)
    ensures (forall a :: Internal(a) ==> !Enabled(t, a)) ==> Quiescent(t)
    decreases |actions|
  {
    hide Rank, Next, Enabled, Quiescent;
    if |actions| == 0 {
      RestApproaches(t);
    } else {
      RestApproaches(s);
      RestReached(Next(s, actions[0]), actions[1..], t);
    }
  }

  // ---------- Telemetry steps are the packet handler ----------

  function FieldAt(payload: seq<byte>, i: nat): Option<int> {
    if |payload| > i then Some(Int8(payload[i])) else None
  }

  /** What a decoded packet starts, if anything: the battery is notified when its time has come. */
  function Starts(t: State, p: Inner, timing: Timing): Option<Action> {
    if p.cmdId != CMDID_HEARTBEAT then None
    else if p.src == ADDR_PD && p.cmdSet == CMDSET_HEARTBEAT then
      if |p.payload| > PD_SOC_OFFSET
      then Some(PdPacket(Int8(p.payload[PD_SOC_OFFSET]), timing.clock(t.ticks) >= t.nextNotify))
      else None
    else if p.src == ADDR_MPPT then
      Some(MpptPacket(FieldAt(p.payload, MPPT_CFG_AC_ENABLED_OFFSET), FieldAt(p.payload, MPPT_CAR_STATE_OFFSET)))
    else None
  }

  /** The telemetry task's steps until it is idle again: three at most. */
  function Finish(s: Sys): Sys {
    StepTask(StepTask(StepTask(s)))
  }

  ghost predicate Publishes(s: Sys, t: State) {
    s.ac == t.ac && s.dc == t.dc && s.battery == t.battery
  }

  /** The steps taken for any packet publish and announce what the packet handler computes. */
  lemma StepsAreHandler(s: Sys, t: State, p: Inner, timing: Timing)
    requires s.task.Idle? && Publishes(s, t)
    ensures var (t', bits) := OnPacket(t, p, timing);
            match Starts(t, p, timing)
            case None => t' == t && bits == {}
            case Some(a) =>
              Enabled(s, a)
              && Finish(Next(s, a)) == s.(ac := t'.ac, dc := t'.dc, battery := t'.battery, pending := s.pending + bits)
  {}

  /** What a frame starts, if it opens. */
  function StartsFrame(t: State, c: Cipher, f: Frame, timing: Timing): Option<Action> {
    if f.kind != FRAME_DATA then None else
    match Open(c, f.payload)
    case Carries(p) => Starts(t, p, timing)
    case _ => None
  }

  /** The heartbeats in a list of frames. */
  function Heartbeats(t: State, c: Cipher, fs: seq<Frame>, timing: Timing): seq<Action>
    decreases |fs|
  {
    if |fs| == 0 then [] else
    var start := StartsFrame(t, c, fs[0], timing);
    (if start.Some? then [start.value] else []) + Heartbeats(OnFrame(t, c, fs[0], timing).0, c, fs[1..], timing)
  }

  /** The heartbeats among the actions of a run. */
  function Begun(actions: seq<Action>): seq<Action>
    decreases |actions|
  {
    if |actions| == 0 then [] else
    (if actions[0].MpptPacket? || actions[0].PdPacket? then [actions[0]] else []) + Begun(actions[1..])
  }

  lemma FrameSteps(s: Sys, t: State, c: Cipher, f: Frame, timing: Timing)
    requires s.task.Idle? && Publishes(s, t)
    ensures var start := StartsFrame(t, c, f, timing);
            var (next, bits) := OnFrame(t, c, f, timing);
            if start.Some? then Enabled(s, start.value) && Publishes(Finish(Next(s, start.value)), next) else next == t
  {
    hide Open, Starts, OnPacket, Enabled, Finish, Next;
    if f.kind == FRAME_DATA {
      match Open(c, f.payload)
      case Carries(p) => StepsAreHandler(s, t, p, timing);
      case _ =>
    }
  }

  /** Every step but a heartbeat leaves alone what the task in its course will publish; a heartbeat needs it idle. */
  lemma OthersKeep(s: Sys, a: Action, t: State)
    requires Enabled(s, a) && Publishes(Finish(s), t)
    ensures if a.MpptPacket? || a.PdPacket? then Finish(s) == s else Publishes(Finish(Next(s, a)), t)
  {}

  /** Whatever the interleaving, what is published follows the frames. */
  lemma {:induction false} RunFollows(s: Sys, actions: seq<Action>, u: Sys, t: State, c: Cipher, fs: seq<Frame>,
                                      timing: Timing)
    requires Run(s, actions, u) && Begun(actions) == Heartbeats(t, c, fs, timing) && Publishes(Finish(s), t)
    ensures Publishes(Finish(u), OnFrames(t, c, fs, timing).0)
    decreases |actions| + |fs|
  {
    hide Enabled, Next, Publishes, Finish, StartsFrame, OnFrame;
    if |fs| > 0 && StartsFrame(t, c, fs[0], timing).None? {
      NothingStarts(t, c, fs[0], timing);
      RunFollows(s, actions, u, t, c, fs[1..], timing);
    } else if |actions| > 0 {
      OthersKeep(s, actions[0], t);
      if actions[0].MpptPacket? || actions[0].PdPacket? {
        assert |fs| > 0 && Begun(actions)[0] == actions[0] && Begun(actions)[1..] == Begun(actions[1..]);
        var next := OnFrame(t, c, fs[0], timing).0;
        assert Heartbeats(t, c, fs, timing)[1..] == Heartbeats(next, c, fs[1..], timing);
        IdleWhen(s, actions[0]);
        FrameSteps(s, t, c, fs[0], timing);
        RunFollows(Next(s, actions[0]), actions[1..], u, next, c, fs[1..], timing);
      } else {
        RunFollows(Next(s, actions[0]), actions[1..], u, t, c, fs, timing);
      }
    }
  }

  lemma NothingStarts(t: State, c: Cipher, f: Frame, timing: Timing)
    requires StartsFrame(t, c, f, timing).None?
    ensures OnFrame(t, c, f, timing).0 == t
  {
    hide Open;
  }

  lemma IdleWhen(s: Sys, a: Action)
    requires Enabled(s, a) && (a.MpptPacket? || a.PdPacket?)
    ensures s.task.Idle?
  {}

  /** In every interleaving that takes the heartbeats of the frames in order, an idle telemetry task has published what
      the frames say, and at rest the owner has read it. */
  lemma OwnerFollowsFrames(actions: seq<Action>, s: Sys, c: Cipher, fs: seq<Frame>, timing: Timing)
    requires Run(BOOT, actions, s) && Begun(actions) == Heartbeats(INITIAL, c, fs, timing)
    ensures var t := OnFrames(INITIAL, c, fs, timing).0;
            && (s.task.Idle? ==> Publishes(s, t))
            && (Quiescent(s) ==> s.owner.lastAc == t.ac && s.owner.lastDc == t.dc)
    ensures s.task.Idle? ==> Shows(s.battery, LastByte(c, fs, 2, 14))
    ensures Quiescent(s) ==> Shows(s.owner.lastAc, LastByte(c, fs, 5, 66))
    ensures Quiescent(s) ==> Shows(s.owner.lastDc, LastByte(c, fs, 5, 56))
  {
    hide Run, Begun, Heartbeats, OnFrames, Shows, LastByte;
    PublishedLast(c, fs, timing);
    RunFollows(BOOT, actions, s, INITIAL, c, fs, timing);
    if Quiescent(s) {
      OwnerUpToDate(actions, s);
    }
  }

  // ---------- The owner's loop ----------

  /** The telemetry bits: the values are read, and the port states known. */
  function OnTelemetry(o: Owner, bits: set<Event>, ac: int, dc: int): Owner {
    var o1 := if AcState in bits then o.(acOn := ac != 0, acKnown := true, lastAc := ac, acToggled := false) else o;
    if DcState in bits then o1.(dcOn := dc != 0, dcKnown := true, lastDc := dc, dcToggled := false) else o1
  }

  /** The button bits: a known port is switched, if the command is accepted. */
  function OnToggles(o: Owner, bits: set<Event>, acOk: bool, dcOk: bool): Owner {
    var o1 := if ToggleAc in bits && o.acKnown && acOk then o.(acOn := !o.acOn, acToggled := true) else o;
    if ToggleDc in bits && o1.dcKnown && dcOk then o1.(dcOn := !o1.dcOn, dcToggled := true) else o1
  }

  /** The loop's body on the bits it took: telemetry first, so a toggle sees the state just read. */
  function OnBits(o: Owner, bits: set<Event>, ac: int, dc: int, acOk: bool, dcOk: bool): Owner {
    OnToggles(OnTelemetry(o, bits, ac, dc), bits, acOk, dcOk)
  }

  /** Undisturbed, the owner's five steps are the loop's body. */
  lemma StepsAreLoop(s: Sys, acOk: bool, dcOk: bool)
    requires s.at.Waiting? && s.pending != {}
    ensures var s0 := Next(s, OwnerWake);
            var s3 := StepOwner(StepOwner(StepOwner(s0, true), true), true);
            StepOwner(StepOwner(s3, acOk), dcOk)
            == s.(pending := {}, owner := OnBits(s.owner, s.pending, s.ac, s.dc, acOk, dcOk))
  {}

  /** app_main's variables. */
  class Loop {
    var acOn: bool
    var dcOn: bool
    var acStateKnown: bool
    var dcStateKnown: bool
    ghost var lastAc: int
    ghost var lastDc: int
    ghost var acToggled: bool
    ghost var dcToggled: bool

    ghost function Value(): Owner
      reads this
    {
      Owner(acOn, dcOn, acStateKnown, dcStateKnown, lastAc, lastDc, acToggled, dcToggled)
    }

    constructor ()
      ensures Value() == BOOT.owner
    {
      acOn, dcOn, acStateKnown, dcStateKnown := false, false, false, false;
      lastAc, lastDc, acToggled, dcToggled := -1, -1, false, false;
    }

    method HandleTelemetry(bits: set<Event>, ac: int, dc: int)
      modifies this
      ensures Value() == OnTelemetry(old(Value()), bits, ac, dc)
    {
      if AcState in bits {
        acOn := ac != 0;
        acStateKnown := true;
        lastAc, acToggled := ac, false;
      }
      if DcState in bits {
        dcOn := dc != 0;
        dcStateKnown := true;
        lastDc, dcToggled := dc, false;
      }
    }

    method HandleToggles(bits: set<Event>, acOk: bool, dcOk: bool)
      returns (acWant: Option<bool>, dcWant: Option<bool>)
      modifies this
      ensures Value() == OnToggles(old(Value()), bits, acOk, dcOk)
      ensures acWant == if ToggleAc in bits && old(acStateKnown) then Some(!old(acOn)) else None
      ensures dcWant == if ToggleDc in bits && old(dcStateKnown) then Some(!old(dcOn)) else None
      ensures acOn == if acWant.Some? && acOk then acWant.value else old(acOn)
      ensures dcOn == if dcWant.Some? && dcOk then dcWant.value else old(dcOn)
      ensures acStateKnown == old(acStateKnown) && dcStateKnown == old(dcStateKnown)
    {
      acWant, dcWant := None, None;
      if ToggleAc in bits && acStateKnown {
        var wantOn := !acOn;
        acWant := Some(wantOn);
        if acOk {
          acOn := wantOn;
          acToggled := true;
        }
      }
      if ToggleDc in bits && dcStateKnown {
        var wantOn := !dcOn;
        dcWant := Some(wantOn);
        if dcOk {
          dcOn := wantOn;
          dcToggled := true;
        }
      }
    }

    /** The body of app_main's loop: ac and dc are what the getters return, acOk and dcOk whether the commands are
        accepted. Returns the port states it commanded. */
    method HandleBits(bits: set<Event>, ac: int, dc: int, acOk: bool, dcOk: bool)
      returns (acWant: Option<bool>, dcWant: Option<bool>)
      modifies this
      ensures Value() == OnBits(old(Value()), bits, ac, dc, acOk, dcOk)
      ensures acWant.Some? <==> ToggleAc in bits && (old(acStateKnown) || AcState in bits)
      ensures acWant.Some? ==> acWant.value == !(if AcState in bits then ac != 0 else old(acOn))
      ensures dcWant.Some? <==> ToggleDc in bits && (old(dcStateKnown) || DcState in bits)
      ensures dcWant.Some? ==> dcWant.value == !(if DcState in bits then dc != 0 else old(dcOn))
      ensures acOn == if acWant.Some? && acOk then acWant.value else if AcState in bits then ac != 0 else old(acOn)
      ensures dcOn == if dcWant.Some? && dcOk then dcWant.value else if DcState in bits then dc != 0 else old(dcOn)
      ensures acStateKnown == (AcState in bits || old(acStateKnown))
      ensures dcStateKnown == (DcState in bits || old(dcStateKnown))
    {
      HandleTelemetry(bits, ac, dc);
      acWant, dcWant := HandleToggles(bits, acOk, dcOk);
    }
  }
}
