/** The streaming reassembler: a growing buffer, appended to and drained frame by frame. */
module FrameBuf {
  import opened Bytes
  import opened Crc
  import opened Packet
  import opened Stream

  // ---------- The buffer as a value ----------

  /** The buffered bytes, the room allocated for them, and the size of the scratch buffer. */
  datatype Buffered = Buffered(contents: seq<byte>, cap: nat, scratchCap: nat)

  const EMPTY := Buffered([], 0, 0)

  /** river2_framebuf_append; alloc tells whether an allocation it asks for succeeds. */
  function AfterAppend(b: Buffered, chunk: seq<byte>, alloc: bool): (Buffered, bool) {
    var n := |b.contents| + |chunk|;
    if |chunk| == 0 then (b, true)
    else if n > b.cap && !alloc then (b, false)
    else (Buffered(b.contents + chunk, if n > b.cap then n else b.cap, b.scratchCap), true)
  }

  /** river2_framebuf_extract; alloc tells whether an allocation it asks for succeeds. */
  function AfterExtract(b: Buffered, alloc: bool): (Buffered, Option<Frame>) {
    match Stream.Extract(b.contents)
    case Wait(rest) => (b.(contents := rest), None)
    case Got(f, held) =>
      ExtractIsScan(b.contents);
      if |f.payload| > b.scratchCap && !alloc then (b.(contents := held), None)
      else (Buffered(held[Size(f)..], b.cap, if |f.payload| > b.scratchCap then |f.payload| else b.scratchCap), Some(f))
  }

  // ---------- The buffer as the code has it ----------

  /** river2_framebuf_t; cap and scratch_cap are the lengths of the two arrays. */
  class FrameBuf {
    var data: array<byte>
    var len: nat
    var scratch: array<byte>

    ghost predicate Valid()
      reads this
    {
      len <= data.Length && data != scratch
    }

    ghost function Value(): Buffered
      requires Valid()
      reads this, data
    {
      Buffered(data[..len], data.Length, scratch.Length)
    }

    /** Neither array is one of the CRC tables. */
    ghost predicate Apart(tables: Tables)
      reads this
    {
      data !in tables.Repr() && scratch !in tables.Repr() && this !in tables.Repr()
    }

    /** river2_framebuf_init. */
    constructor ()
      ensures Valid() && fresh(data) && fresh(scratch) && Value() == EMPTY
    {
      data := new byte[0];
      scratch := new byte[0];
      len := 0;
    }

    /** river2_framebuf_append. */
    method Append(chunk: array<byte>, n: nat, alloc: bool) returns (ok: bool)
      requires Valid() && n <= chunk.Length && chunk != data
      modifies this`data, this`len, data
      ensures Valid() && (data == old(data) || fresh(data))
      ensures (Value(), ok) == AfterAppend(old(Value()), old(chunk[..n]), alloc)
    {
      if n == 0 {
        return true;
      }
      ghost var before, piece := data[..len], chunk[..n];
      if len + n > data.Length {
        if !alloc {
          return false;
        }
        Grow(len + n);
      }
      forall i | 0 <= i < n {
        data[len + i] := chunk[i];
      }
      assert data[..len + n] == before + piece;
      len := len + n;
      ok := true;
    }

    /** A successful realloc of data. */
    method Grow(newCap: nat)
      requires Valid() && newCap > data.Length
      modifies this`data
      ensures Valid() && fresh(data) && data.Length == newCap && data[..len] == old(data[..len])
    {
      var grown := new byte[newCap];
      forall i | 0 <= i < len {
        grown[i] := data[i];
      }
      assert grown[..len] == data[..len];
      data := grown;
    }

    /** framebuf_consume: the bytes after the first n move to the front. */
    method Consume(n: nat)
      requires Valid() && n <= len
      modifies this`len, data
      ensures Valid() && data[..len] == old(data[n..len])
    {
      ghost var rest := data[n..len];
      forall i | 0 <= i < len - n {
        data[i] := data[n + i];
      }
      assert data[..len - n] == rest;
      len := len - n;
    }

    /** The search for the 5A5A prefix. */
    method FindPrefix() returns (start: Option<nat>)
      requires Valid()
      ensures start == FirstPair(data[..len])
      ensures forall j :: 0 <= j && j + 1 < len && (start.Some? ==> j < start.value) ==>
                !(data[j] == 0x5A && data[j + 1] == 0x5A)
    {
      ghost var s := data[..len];
      var i := 0;
      while i + 1 < len
        invariant 0 <= i && (i > 0 ==> i < len)
        invariant forall j :: 0 <= j < i ==> !(data[j] == 0x5A && data[j + 1] == 0x5A)
        invariant FirstPair(s) == match FirstPair(s[i..]) { case None => None case Some(k) => Some(k + i) }
        decreases len - i
      {
        assert s[i..][1..] == s[i + 1..];
        assert s[i..][0] == data[i] && s[i..][1] == data[i + 1];
        if data[i] == 0x5A && data[i + 1] == 0x5A {
          return Some(i);
        }
        i := i + 1;
      }
      return None;
    }

    /** The payload copied to scratch, which grows when it must. */
    method CopyToScratch(n: nat, alloc: bool) returns (ok: bool)
      requires Valid() && 6 + n <= len
      modifies this`scratch, scratch
      ensures Valid() && (scratch == old(scratch) || fresh(scratch))
      ensures ok == (n <= old(scratch.Length) || alloc)
      ensures scratch.Length == if n > old(scratch.Length) && alloc then n else old(scratch.Length)
      ensures ok ==> n <= scratch.Length && scratch[..n] == data[6..6 + n]
    {
      if n > scratch.Length {
        if !alloc {
          return false;
        }
        scratch := new byte[n];
      }
      forall i | 0 <= i < n {
        scratch[i] := data[6 + i];
      }
      ok := true;
    }

    /** What a prefix at the start of the buffer amounts to; the CRC is read only when the frame is complete. */
    method Judge(tables: Tables) returns (look: Look)
      requires Valid() && tables.Valid() && Apart(tables)
      modifies tables.Repr()
      ensures tables.Valid()
      ensures look == LookAt(data[..len])
    {
      hide Crc16, tables.Right;
      ghost var s := data[..len];
      if len < 6 {
        return NeedMore;
      }
      var field := U16(data[4], data[5]);
      if field < 2 || field > 4096 {
        return Spurious;
      }
      var end := 6 + field;
      if end > len {
        return NeedMore;
      }
      assert data[0..0 + (end - 2)] == s[..end - 2];
      var crcExpect := tables.ComputeCrc16(data, 0, end - 2);
      assert data[..len] == s;
      if U16(data[end - 2], data[end - 1]) != crcExpect {
        return Spurious;
      }
      look := Whole(Frame(data[2] / 16, data[6..end - 2]));
      assert data[6..end - 2] == s[6..end - 2];
    }

    /** One round of the retry loop: everything before the first prefix goes. */
    method DropGarbage() returns (found: bool)
      requires Valid() && len >= 2
      modifies this`len, data
      ensures Valid()
      ensures found == FirstPair(old(data[..len])).Some?
      ensures var s := old(data[..len]);
              data[..len] == if found then s[FirstPair(s).value..] else s[|s| - 1..]
    {
      hide FirstPair;
      ghost var s := data[..len];
      var start := FindPrefix();
      match start {
        case None =>
          assert data[len - 1..len] == s[|s| - 1..];
          Consume(len - 1);
          found := false;
        case Some(k) =>
          assert data[k..len] == s[k..];
          if k > 0 {
            Consume(k);
          }
          found := true;
      }
    }

    /** river2_framebuf_extract: the payload is left in scratch. */
    method Extract(tables: Tables, alloc: bool) returns (found: bool, kind: byte, payloadLen: nat)
      requires Valid() && tables.Valid() && Apart(tables)
      modifies this`len, this`scratch, data, scratch, tables.Repr()
      ensures Valid() && tables.Valid() && Apart(tables) && data == old(data)
              && (scratch == old(scratch) || fresh(scratch))
      ensures found ==> payloadLen <= scratch.Length
      ensures (Value(), if found then Some(Frame(kind, scratch[..payloadLen])) else None)
              == AfterExtract(old(Value()), alloc)
    {
      hide FirstPair, LookAt, tables.Right;
      ghost var all := data[..len];
      kind, payloadLen := 0, 0;
      while len >= 2
        invariant Valid() && tables.Valid() && Apart(tables)
        invariant data == old(data) && scratch == old(scratch)
        invariant Stream.Extract(data[..len]) == Stream.Extract(all)
        decreases len
      {
        ghost var s := data[..len];
        found := DropGarbage();
        if !found {
          return;
        }
        ghost var d := data[..len];
        var look := Judge(tables);
        assert data[..len] == d;
        match look {
          case NeedMore =>
            return false, kind, payloadLen;
          case Spurious =>
            assert data[2..len] == d[2..];
            Consume(2);
          case Whole(f) =>
            found, kind, payloadLen := Deliver(f, alloc);
            return;
        }
      }
      found := false;
    }

    /** The end of river2_framebuf_extract, on a buffer that starts with a valid frame. */
    method Deliver(ghost f: Frame, alloc: bool) returns (found: bool, kind: byte, payloadLen: nat)
      requires Valid() && LookAt(data[..len]) == Whole(f)
      modifies this`len, this`scratch, data, scratch
      ensures Valid() && data == old(data) && (scratch == old(scratch) || fresh(scratch))
      ensures found == (|f.payload| <= old(scratch.Length) || alloc)
      ensures scratch.Length == if |f.payload| > old(scratch.Length) && alloc then |f.payload| else old(scratch.Length)
      ensures data[..len] == if found then old(data[..len])[Size(f)..] else old(data[..len])
      ensures found ==> payloadLen <= scratch.Length && Frame(kind, scratch[..payloadLen]) == f
    {
      hide Crc16;
      ghost var d := data[..len];
      var field := U16(data[4], data[5]);
      kind := data[2] / 16;
      payloadLen := field - 2;
      assert d[6..6 + field - 2] == data[6..6 + payloadLen];
      found := CopyToScratch(payloadLen, alloc);
      if found {
        assert data[6 + field..len] == d[Size(f)..];
        Consume(6 + field);
      }
    }
  }

  // ---------- When memory is needed ----------

  /** An append fails exactly when it needs room and is refused it, and then changes nothing; otherwise the bytes are
      added, in exactly the room they need or the room there was. */
  lemma AppendExactly(b: Buffered, chunk: seq<byte>, alloc: bool)
    ensures var (c, ok) := AfterAppend(b, chunk, alloc);
            && (!ok <==> chunk != [] && |b.contents| + |chunk| > b.cap && !alloc)
            && (!ok ==> c == b)
            && (ok ==> c.contents == b.contents + chunk && c.scratchCap == b.scratchCap)
            && (ok ==> c.cap == if chunk == [] || |b.contents| + |chunk| <= b.cap then b.cap
                                else |b.contents| + |chunk|)
  {
    assert b.contents + [] == b.contents;
  }

  /** An extract hands out the first frame of the parse exactly when there is one and scratch has room for its payload,
      or is given it; the frame is gone then, and scratch at least as large as its payload. */
  lemma ExtractExactly(b: Buffered, alloc: bool)
    ensures var (fs, left), (c, got) := Scan(b.contents), AfterExtract(b, alloc);
            && c.cap == b.cap
            && (got.Some? <==> fs != [] && (|fs[0].payload| <= b.scratchCap || alloc))
            && (got.Some? ==> got.value == fs[0] && Scan(c.contents) == (fs[1..], left))
            && (got.Some? ==> |c.contents| < |b.contents|)
            && (got.Some? ==> c.scratchCap == if |fs[0].payload| > b.scratchCap then |fs[0].payload| else b.scratchCap)
            && (got.None? ==> Scan(c.contents) == (fs, left) && c.scratchCap == b.scratchCap)
            && (fs == [] ==> c.contents == left)
  {
    hide Scan, Stream.Extract, LookAt;
    ExtractIsScan(b.contents);
    if Stream.Extract(b.contents).Wait? {
      ScanOfRest(b.contents);
    }
  }

  // ---------- Whole runs ----------

  /** A call on the buffer, with whether memory is granted should it ask. */
  datatype Call = Append(chunk: seq<byte>, alloc: bool) | Extract(alloc: bool)

  /** A run's outcome: the buffer, the bytes it accepted, the frames it handed out, whether a chunk may be appended
      next, and how often extract was refused scratch memory. */
  datatype Run = Run(buf: Buffered, accepted: seq<byte>, frames: seq<Frame>, ready: bool, refusals: nat)

  const START := Run(EMPTY, [], [], true, 0)

  /** Extract asks for scratch memory and is refused. */
  predicate Refused(b: Buffered, alloc: bool) {
    match Stream.Extract(b.contents)
    case Wait(_) => false
    case Got(f, _) => |f.payload| > b.scratchCap && !alloc
  }

  function Step(r: Run, c: Call): Run {
    match c
    case Append(chunk, alloc) =>
      var (b, ok) := AfterAppend(r.buf, chunk, alloc);
      Run(b, if ok then r.accepted + chunk else r.accepted, r.frames, !ok, r.refusals)
    case Extract(alloc) =>
      var (b, got) := AfterExtract(r.buf, alloc);
      Run(b, r.accepted, if got.Some? then r.frames + [got.value] else r.frames, got.None?,
          if Refused(r.buf, alloc) then r.refusals + 1 else r.refusals)
  }

  function Steps(r: Run, calls: seq<Call>): Run
    decreases |calls|
  {
    if |calls| == 0 then r else Steps(Step(r, calls[0]), calls[1..])
  }

  /** Frames handed out, and then those still buffered, are the frames of the accepted bytes. */
  ghost predicate Conserved(r: Run) {
    Scan(r.accepted) == (r.frames + Scan(r.buf.contents).0, Scan(r.buf.contents).1)
  }

  lemma StepConserves(r: Run, c: Call)
    requires Conserved(r)
    ensures Conserved(Step(r, c))
  {
    hide Scan, Stream.Extract, Size;
    match c
    case Append(chunk, alloc) =>
      assert r.accepted + [] == r.accepted && r.buf.contents + [] == r.buf.contents;
      ScanConcat(r.accepted, chunk);
      ScanConcat(r.buf.contents, chunk);
      var a, b := Scan(r.buf.contents), Scan(Scan(r.buf.contents).1 + chunk);
      assert (r.frames + a.0) + b.0 == r.frames + (a.0 + b.0);
    case Extract(alloc) =>
      ExtractIsScan(r.buf.contents);
      match Stream.Extract(r.buf.contents) {
        case Wait(rest) =>
          ScanOfRest(r.buf.contents);
        case Got(f, held) =>
          assert r.frames + ([f] + Scan(held[Size(f)..]).0) == (r.frames + [f]) + Scan(held[Size(f)..]).0;
      }
  }

  /** The leftover of a scan scans to nothing but itself. */
  lemma ScanOfRest(s: seq<byte>)
    requires Stream.Extract(s).Wait?
    ensures var rest := Stream.Extract(s).rest; Scan(s) == ([], rest) && Scan(rest) == ([], rest)
  {
    hide Scan, Stream.Extract;
    ExtractIsScan(s);
    ScanConcat(s, []);
    var rest := Stream.Extract(s).rest;
    assert s + [] == s && rest + [] == rest;
    assert [] + Scan(rest).0 == Scan(rest).0;
  }

  /** Whatever is appended, extracted, granted and refused, no frame is lost, repeated or invented. */
  lemma {:induction false} RunConserves(r: Run, calls: seq<Call>)
    requires Conserved(r)
    ensures Conserved(Steps(r, calls))
    decreases |calls|
  {
    hide Conserved, Step;
    if |calls| > 0 {
      StepConserves(r, calls[0]);
      RunConserves(Step(r, calls[0]), calls[1..]);
    }
  }

  /** The next call of extract would find no frame. */
  predicate Drained(b: Buffered) {
    Stream.Extract(b.contents).Wait?
  }

  lemma ScanNothing()
    ensures Conserved(START)
  {
    assert [] + Scan([]).0 == Scan([]).0;
  }

  /** The frames handed out, and the bytes left, depend only on the bytes accepted, not on how they were split. */
  lemma ChunkingInvariance(calls: seq<Call>)
    requires Drained(Steps(START, calls).buf)
    ensures var r := Steps(START, calls);
            r.frames == Scan(r.accepted).0 && Step(r, Extract(false)).buf.contents == Scan(r.accepted).1
  {
    hide Scan, Stream.Extract, Steps;
    ScanNothing();
    RunConserves(START, calls);
    var r := Steps(START, calls);
    ScanOfRest(r.buf.contents);
    assert r.frames + [] == r.frames;
  }

  /** Frames sent with quiet gaps all arrive, however the stream is split into chunks. */
  lemma DeliveredInOrder(calls: seq<Call>, gaps: seq<seq<byte>>, frames: seq<Frame>)
    requires |gaps| == |frames| + 1
    requires forall i :: 0 <= i < |gaps| ==> Quiet(gaps[i])
    requires forall i :: 0 <= i < |frames| ==> Sendable(frames[i])
    requires var r := Steps(START, calls); Drained(r.buf) && r.accepted == Wire(gaps, frames)
    ensures Steps(START, calls).frames == frames
  {
    hide Scan, Steps, Drained, Quiet, Sendable, Wire;
    ChunkingInvariance(calls);
    WireRoundTrip(gaps, frames);
  }

  /** With frames damaged on the way, all the others arrive, however the stream is split into chunks. */
  lemma UndamagedDelivered(calls: seq<Call>, pieces: seq<Piece>)
    requires forall i :: 0 <= i < |pieces| ==> pieces[i].Valid()
    requires var r := Steps(START, calls); Drained(r.buf) && r.accepted == Noisy(pieces)
    ensures Steps(START, calls).frames == Undamaged(pieces)
  {
    hide Scan, Steps, Drained, Noisy, Undamaged;
    ChunkingInvariance(calls);
    NoisyRoundTrip(pieces);
  }

  // ---------- Memory ----------

  const MAX_CHUNK: nat := 512

  /** The discipline of both callers: chunks of at most 512 bytes, appended only when the last extract found nothing. */
  predicate Allowed(r: Run, c: Call) {
    c.Append? ==> r.ready && |c.chunk| <= MAX_CHUNK
  }

  predicate Disciplined(r: Run, calls: seq<Call>)
    decreases |calls|
  {
    |calls| == 0 || (Allowed(r, calls[0]) && Disciplined(Step(r, calls[0]), calls[1..]))
  }

  /** Bounds that grow by one chunk with every refusal, the tighter one when extract has just found nothing. */
  predicate Bounded(r: Run) {
    && |r.buf.contents| <= r.buf.cap <= 4613 + 512 * r.refusals && r.buf.scratchCap <= 4094
    && (r.ready ==> |r.buf.contents| <= 4101 + 512 * r.refusals)
  }

  lemma StepBounded(r: Run, c: Call)
    requires Bounded(r) && Allowed(r, c)
    ensures Bounded(Step(r, c))
  {
    hide Scan, Stream.Extract;
    ExtractIsScan(r.buf.contents);
    ExtractShrinks(r.buf.contents);
  }

  lemma {:induction false} ExtractShrinks(s: seq<byte>)
    ensures match Stream.Extract(s)
            case Wait(rest) => |rest| <= |s|
            case Got(f, held) => |held| <= |s| && |f.payload| <= 4094
    decreases |s|
  {
    if |s| >= 2 && FirstPair(s).Some? {
      var d := s[FirstPair(s).value..];
      if LookAt(d).Spurious? { ExtractShrinks(d[2..]); }
    }
  }

  lemma {:induction false} StepsBounded(r: Run, calls: seq<Call>)
    requires Bounded(r) && Disciplined(r, calls)
    ensures Bounded(Steps(r, calls))
    decreases |calls|
  {
    hide Bounded, Allowed, Step;
    if |calls| > 0 {
      StepBounded(r, calls[0]);
      StepsBounded(Step(r, calls[0]), calls[1..]);
    }
  }

  /** In every run of either caller, whatever is granted and refused, each refusal of scratch memory costs at most one
      chunk: the buffer stays within 4613 + 512 R bytes for R refusals, and the scratch buffer within 4094. */
  lemma MemoryBound(calls: seq<Call>)
    requires Disciplined(START, calls)
    ensures var r := Steps(START, calls);
            |r.buf.contents| <= r.buf.cap <= 4613 + 512 * r.refusals && r.buf.scratchCap <= 4094
  {
    hide Disciplined, Steps;
    StepsBounded(START, calls);
  }

  /** After an extract that finds nothing the 4101-byte bound can fail only if scratch memory was refused. */
  lemma FoundNothing(b: Buffered, alloc: bool)
    requires AfterExtract(b, alloc).1.None?
    ensures Refused(b, alloc) <==> Stream.Extract(AfterExtract(b, alloc).0.contents).Got?
    ensures !Refused(b, alloc) ==> |AfterExtract(b, alloc).0.contents| <= 4101
  {
    hide Scan, Stream.Extract;
    ExtractIsScan(b.contents);
    if Stream.Extract(b.contents).Wait? {
      WaitAgain(b.contents);
    }
  }

  lemma WaitAgain(s: seq<byte>)
    requires Stream.Extract(s).Wait?
    ensures Stream.Extract(Stream.Extract(s).rest).Wait?
  {
    hide Scan, Stream.Extract;
    ScanOfRest(s);
    ExtractIsScan(Stream.Extract(s).rest);
  }

  // ---------- The bound is reached ----------

  lemma {:induction false} StepsConcat(r: Run, a: seq<Call>, b: seq<Call>)
    ensures Steps(r, a + b) == Steps(Steps(r, a), b)
    ensures Disciplined(r, a) && Disciplined(Steps(r, a), b) ==> Disciplined(r, a + b)
    decreases |a|
  {
    hide Step, Allowed;
    if |a| == 0 {
      assert a + b == b;
    } else {
      assert (a + b)[1..] == a[1..] + b;
      StepsConcat(Step(r, a[0]), a[1..], b);
    }
  }

  /** One notification: a chunk that is granted its memory, then an extract that is granted none. */
  function Round(chunk: seq<byte>): seq<Call> {
    [Append(chunk, true), Extract(false)]
  }

  lemma RoundSteps(r: Run, chunk: seq<byte>)
    ensures Steps(r, Round(chunk)) == Step(Step(r, Append(chunk, true)), Extract(false))
    ensures Disciplined(r, Round(chunk)) <==> r.ready && |chunk| <= MAX_CHUNK
  {
    hide Step;
    var s := Step(r, Append(chunk, true));
    assert Round(chunk)[1..] == [Extract(false)];
    assert Steps(s, [Extract(false)]) == Steps(Step(s, Extract(false)), []);
    assert Disciplined(s, [Extract(false)]) <==> Disciplined(Step(s, Extract(false)), []);
  }

  function Zeros(n: nat): (r: seq<byte>)
    ensures |r| == n
  {
    seq(n, _ => 0)
  }

  /** The largest frame. */
  function Largest(): (r: seq<byte>)
    ensures |r| == 4102
  {
    OuterBytes(1, Zeros(4094))
  }

  lemma LargestHead()
    ensures Largest()[0] == 0x5A && Largest()[1] == 0x5A && U16(Largest()[4], Largest()[5]) == 4096
  {
    hide Crc16, LowByte, HighByte, OuterBytes;
    BuiltParts(1, Zeros(4094), []);
    assert Largest() + [] == Largest();
    FieldOfNumber(4096);
  }

  lemma ShortLook(s: seq<byte>)
    requires 6 <= |s| ==> U16(s[4], s[5]) == 4096 && |s| <= 4101
    ensures LookAt(s) == NeedMore
  {
    hide Crc16, U16;
  }

  /** A proper beginning of the largest frame is waited with. */
  lemma BeginningWaits(n: nat)
    requires n <= 4101
    ensures Stream.Extract(Largest()[..n]) == Wait(Largest()[..n])
  {
    hide Largest, LookAt, U16;
    var s := Largest()[..n];
    LargestHead();
    ShortLook(s);
    if n >= 2 {
      assert PairAt(s, 0);
      assert s[0..] == s;
    }
  }

  /** Chunks that leave the first n bytes of the largest frame buffered. */
  function Filling(n: nat): seq<Call>
    requires n <= 4101
  {
    if n == 0 then []
    else
      var m := if n < MAX_CHUNK then n else MAX_CHUNK;
      Filling(n - m) + Round(Largest()[n - m..n])
  }

  predicate Filled(r: Run, n: nat)
    requires n <= 4101
  {
    r.buf == Buffered(Largest()[..n], n, 0) && r.ready && r.refusals == 0 && r.frames == []
  }

  lemma FillingRound(r: Run, from: nat, n: nat)
    requires from < n <= 4101 && n <= from + MAX_CHUNK && Filled(r, from)
    ensures Filled(Steps(r, Round(Largest()[from..n])), n) && Disciplined(r, Round(Largest()[from..n]))
  {
    hide Stream.Extract, Largest, Disciplined, Steps;
    var chunk := Largest()[from..n];
    RoundSteps(r, chunk);
    assert Largest()[..from] + chunk == Largest()[..n];
    BeginningWaits(n);
  }

  lemma NothingFilled()
    ensures Disciplined(START, []) && Filled(Steps(START, []), 0)
  {
    hide Largest;
    assert Largest()[..0] == [];
  }

  lemma {:induction false} FillingRun(n: nat)
    requires n <= 4101
    ensures Disciplined(START, Filling(n)) && Filled(Steps(START, Filling(n)), n)
    decreases n
  {
    hide Largest, Round, Filled, Disciplined, Steps;
    if n == 0 {
      NothingFilled();
    } else {
      var m := if n < MAX_CHUNK then n else MAX_CHUNK;
      FillingRun(n - m);
      var r := Steps(START, Filling(n - m));
      FillingRound(r, n - m, n);
      StepsConcat(START, Filling(n - m), Round(Largest()[n - m..n]));
    }
  }

  /** The frame completed and 511 bytes more, then a chunk after each refusal but the last. */
  function RefusedCalls(k: nat): seq<Call> {
    if k == 0 then Filling(4101) + [Append(Largest()[4101..] + Zeros(511), true)]
    else RefusedCalls(k - 1) + [Extract(false), Append(Zeros(MAX_CHUNK), true)]
  }

  function RefusedContents(k: nat): (r: seq<byte>)
    ensures |r| == 4613 + 512 * k
  {
    Largest() + Zeros(511 + 512 * k)
  }

  lemma RefusedHolds(k: nat)
    ensures Stream.Extract(RefusedContents(k)) == Got(Frame(1, Zeros(4094)), RefusedContents(k))
  {
    hide OuterBytes, Stream.Extract, LookAt;
    BuiltFrame(1, Zeros(4094), Zeros(511 + 512 * k));
    HeldAgain(RefusedContents(k), Frame(1, Zeros(4094)));
  }

  predicate RefusedState(r: Run, k: nat) {
    r.buf == Buffered(RefusedContents(k), 4613 + 512 * k, 0) && r.refusals == k && r.frames == [] && !r.ready
  }

  /** The frame is found, its scratch memory refused, and a chunk appended. */
  lemma RefusedRound(r: Run, k: nat)
    requires RefusedState(r, k)
    ensures var calls := [Extract(false), Append(Zeros(MAX_CHUNK), true)];
            RefusedState(Steps(r, calls), k + 1) && Disciplined(r, calls)
  {
    hide Stream.Extract, Largest, RefusedContents;
    RefusedHolds(k);
    var s := Step(r, Extract(false));
    var last := Append(Zeros(MAX_CHUNK), true);
    assert [Extract(false), last][1..] == [last];
    assert RefusedContents(k) + Zeros(512) == RefusedContents(k + 1) by { RefusedLonger(k); }
    assert Steps(s, [last]) == Steps(Step(s, last), []);
    assert Disciplined(s, [last]) <==> Allowed(s, last);
  }

  lemma RefusedLonger(k: nat)
    ensures RefusedContents(k) + Zeros(512) == RefusedContents(k + 1)
  {
    hide Largest;
    assert Zeros(511 + 512 * k) + Zeros(512) == Zeros(511 + 512 * (k + 1));
  }

  lemma RefusedStart()
    ensures Disciplined(START, RefusedCalls(0)) && RefusedState(Steps(START, RefusedCalls(0)), 0)
  {
    hide Largest, Filling, Steps, Disciplined, Step, Allowed;
    FillingRun(4101);
    var r, last := Steps(START, Filling(4101)), Append(Largest()[4101..] + Zeros(511), true);
    StepsConcat(START, Filling(4101), [last]);
    assert Largest()[..4101] + (Largest()[4101..] + Zeros(511)) == RefusedContents(0);
    OneCall(r, last);
    LastAppend(r, Largest()[4101..] + Zeros(511));
  }

  lemma OneCall(r: Run, c: Call)
    ensures Steps(r, [c]) == Step(r, c) && (Disciplined(r, [c]) <==> Allowed(r, c))
  {
    hide Step, Allowed;
    assert Steps(r, [c]) == Steps(Step(r, c), []);
    assert Disciplined(r, [c]) <==> Allowed(r, c) && Disciplined(Step(r, c), []);
  }

  lemma LastAppend(r: Run, chunk: seq<byte>)
    requires Filled(r, 4101) && |chunk| == 512 && Largest()[..4101] + chunk == RefusedContents(0)
    ensures RefusedState(Step(r, Append(chunk, true)), 0) && Allowed(r, Append(chunk, true))
  {
    hide Largest, RefusedContents;
  }

  /** The bound is reached for every number of refusals, the frame still undelivered. */
  lemma {:induction false} GrowsWhenRefused(k: nat)
    ensures Disciplined(START, RefusedCalls(k))
    ensures var r := Steps(START, RefusedCalls(k));
            r.refusals == k && |r.buf.contents| == r.buf.cap == 4613 + 512 * k && r.frames == []
    ensures RefusedState(Steps(START, RefusedCalls(k)), k)
    decreases k
  {
    hide Disciplined, Steps, RefusedContents;
    if k == 0 {
      RefusedStart();
    } else {
      GrowsWhenRefused(k - 1);
      RefusedRound(Steps(START, RefusedCalls(k - 1)), k - 1);
      StepsConcat(START, RefusedCalls(k - 1), [Extract(false), Append(Zeros(MAX_CHUNK), true)]);
    }
  }

  /** All runs of either caller with a given number of refusals stay within 4613 bytes exactly when that
      number is zero. */
  lemma BoundExactly(refusals: nat)
    ensures (forall calls :: Disciplined(START, calls) && Steps(START, calls).refusals == refusals
                             ==> Steps(START, calls).buf.cap <= 4613)
            <==> refusals == 0
  {
    hide Disciplined, Steps, RefusedState;
    forall calls | Disciplined(START, calls)
      ensures Steps(START, calls).buf.cap <= 4613 + 512 * Steps(START, calls).refusals
    {
      MemoryBound(calls);
    }
    GrowsWhenRefused(refusals);
  }
}
