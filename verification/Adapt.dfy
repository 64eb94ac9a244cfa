/** Adaptive compression: the walking level, and the double-buffered pipeline that
    cuts the input into one frame per chunk. */
module Adapt {
  import opened Arith
  import opened Bytes

  /** One check per sixth of a second at most, in nanoseconds. */
  const REFRESH_RATE: nat := 1_000_000_000 / 6
  const U64: nat := 0x1_0000_0000_0000_0000
  const MIN_LEVEL: int := 1
  const MAX_LEVEL: int := 22

  // ------------------------------------------------------------------
  // The walking level
  // ------------------------------------------------------------------

  datatype Verdict = OutputBound | InputBound | EncodeBound | Hold

  /** One chunk's phase timings, in nanoseconds. */
  datatype Phases = Phases(read: nat, encode: nat, output: nat)

  function VerdictOf(p: Phases): Verdict {
    if p.output * 8 > p.encode * 9 then OutputBound
    else if p.read >= p.encode then InputBound
    else if p.output * 32 <= p.encode * 33 then EncodeBound
    else Hold
  }

  datatype Outcome = Throttled | Held | Stepped(level: int, verdict: Verdict)

  /** The level, its bounds and the last check. */
  datatype Walk = Walk(level: int, min: int, max: int, lastCheck: nat) {
    predicate Valid() {
      MIN_LEVEL <= min <= level <= max <= MAX_LEVEL
    }
  }

  /** The level a verdict asks for, kept within the bounds. */
  function Asked(w: Walk, v: Verdict): int {
    match v
    case OutputBound => Min(w.level + 1, w.max)
    case InputBound => Min(w.level + 1, w.max)
    case EncodeBound => Max(w.level - 1, w.min)
    case Hold => w.level
  }

  /** One observation: nothing within the refresh interval, otherwise a check. */
  function Observed(w: Walk, p: Phases, now: nat): Walk {
    if now - w.lastCheck < REFRESH_RATE then w
    else w.(lastCheck := now, level := Asked(w, VerdictOf(p)))
  }

  class Policy {
    var level: int
    const min: int
    const max: int
    var lastCheck: nat

    ghost function View(): Walk
      reads this
    {
      Walk(level, min, max, lastCheck)
    }

    ghost predicate Valid()
      reads this
    {
      View().Valid()
    }

    /** Clamp the bounds into the engine's range and the start into the bounds. */
    constructor (start: int, lower: int, upper: int, now: nat)
      requires lower <= upper
      ensures Valid() && lastCheck == now
      ensures min == Clamp(lower, 1, 22) && max == Clamp(upper, 1, 22)
      ensures level == Clamp(start, min, max)
    {
      var least := Clamp(lower, MIN_LEVEL, MAX_LEVEL);
      var most := Clamp(upper, MIN_LEVEL, MAX_LEVEL);
      min, max := least, most;
      level := Clamp(start, least, most);
      lastCheck := now;
    }

    method Observe(p: Phases, now: nat) returns (outcome: Outcome)
      requires Valid()
      modifies this
      ensures Valid() && View() == Observed(old(View()), p, now)
      ensures outcome == Throttled <==> now - old(lastCheck) < 166_666_666
      ensures outcome.Stepped? <==> level != old(level)
      ensures outcome.Stepped? ==> outcome == Stepped(level, VerdictOf(p))
      ensures now - old(lastCheck) < REFRESH_RATE ==> level == old(level) && lastCheck == old(lastCheck)
      ensures now - old(lastCheck) >= REFRESH_RATE ==>
                && lastCheck == now
                && outcome == if 8 * p.output > 9 * p.encode then
                                if old(level) < max then Stepped(old(level) + 1, OutputBound) else Held
                              else if p.read >= p.encode then
                                if old(level) < max then Stepped(old(level) + 1, InputBound) else Held
                              else if 32 * p.output <= 33 * p.encode && old(level) > min then
                                Stepped(old(level) - 1, EncodeBound)
                              else Held
    {
      if now - lastCheck < REFRESH_RATE {
        return Throttled;
      }
      lastCheck := now;
      var verdict := VerdictOf(p);
      var next;
      match verdict {
        case OutputBound | InputBound => next := Min(Min(level + 1, MAX_LEVEL), max);
        case EncodeBound => next := Max(level - 1, min);
        case Hold => return Held;
      }
      if next == level {
        return Held;
      }
      level := next;
      return Stepped(next, verdict);
    }
  }

  /** A check by the timings alone: output waits of more than nine eighths of the encode
      time, or reads that take as long, ask for a higher level; output waits of at most 33
      parts in 32 for a lower one; and a bound stops either. */
  lemma CheckedByTimings(w: Walk, p: Phases, now: nat)
    requires w.Valid() && now - w.lastCheck >= REFRESH_RATE
    ensures var after, slow := Observed(w, p, now), 8 * p.output > 9 * p.encode || p.read >= p.encode;
            && after.lastCheck == now && after.min == w.min && after.max == w.max
            && (after.level == w.level + 1 <==> slow && w.level < w.max)
            && (after.level == w.level - 1 <==> !slow && 32 * p.output <= 33 * p.encode && w.level > w.min)
            && w.level - 1 <= after.level <= w.level + 1
  {
  }

  datatype Observation = Observation(phases: Phases, now: nat)

  function Walked(w: Walk, seen: seq<Observation>): Walk {
    if seen == [] then w
    else
      var last := seen[|seen| - 1];
      Observed(Walked(w, seen[..|seen| - 1]), last.phases, last.now)
  }

  /** When the observation before the last one was made. */
  function Before(start: nat, seen: seq<Observation>): nat {
    if |seen| < 2 then start else seen[|seen| - 2].now
  }

  /** A clock that does not run backwards from `start`. */
  predicate Monotone(start: nat, seen: seq<Observation>) {
    seen != [] ==> Monotone(start, seen[..|seen| - 1]) && seen[|seen| - 1].now >= Before(start, seen)
  }

  /** How far the level has moved in all, up and down. */
  function Moved(w: Walk, seen: seq<Observation>): nat {
    if seen == [] then 0
    else
      var before := Walked(w, seen[..|seen| - 1]);
      Moved(w, seen[..|seen| - 1]) + Abs(Walked(w, seen).level - before.level)
  }

  function Abs(x: int): nat {
    if x < 0 then -x else x
  }

  /** Over any run the level stays within its bounds, and all its steps together are
      no more than the refresh intervals that have passed. */
  lemma {:induction false} WalkIsThrottled(w: Walk, seen: seq<Observation>)
    requires w.Valid() && Monotone(w.lastCheck, seen)
    ensures var after := Walked(w, seen);
            && after.Valid() && after.min == w.min && after.max == w.max
            && w.lastCheck <= after.lastCheck <= (if seen == [] then w.lastCheck else seen[|seen| - 1].now)
            && Abs(after.level - w.level) <= Moved(w, seen)
            && REFRESH_RATE * Moved(w, seen) <= after.lastCheck - w.lastCheck
  {
    if seen != [] {
      var front, last := seen[..|seen| - 1], seen[|seen| - 1];
      WalkIsThrottled(w, front);
      assert front != [] ==> front[|front| - 1].now == Before(w.lastCheck, seen);
      StepIsThrottled(Walked(w, front), last.phases, last.now);
      hide Observed, Before;
      MulDistributes(REFRESH_RATE, Moved(w, front), Abs(Walked(w, seen).level - Walked(w, front).level));
    }
  }

  lemma StepIsThrottled(w: Walk, p: Phases, now: nat)
    requires w.Valid()
    ensures var after := Observed(w, p, now);
            && after.Valid() && after.min == w.min && after.max == w.max
            && (now >= w.lastCheck ==> w.lastCheck <= after.lastCheck <= now)
            && Abs(after.level - w.level) <= 1
            && REFRESH_RATE * Abs(after.level - w.level) <= after.lastCheck - w.lastCheck
  {
  }

  lemma StepsInInterval(w: Walk, seen: seq<Observation>)
    requires w.Valid() && Monotone(w.lastCheck, seen) && seen != []
    ensures Moved(w, seen) <= (seen[|seen| - 1].now - w.lastCheck) / REFRESH_RATE
  {
    WalkIsThrottled(w, seen);
    WholeIntervals(Moved(w, seen), seen[|seen| - 1].now - w.lastCheck);
  }

  lemma WholeIntervals(n: nat, span: nat)
    requires REFRESH_RATE * n <= span
    ensures n <= span / REFRESH_RATE
  {
    var q := span / REFRESH_RATE;
    Euclid(span, REFRESH_RATE);
    MulNext(REFRESH_RATE, q);
    if n > q {
      MulMono(REFRESH_RATE, q + 1, n);
    }
  }

  /** Observations that each come a refresh interval after the one before. */
  predicate Spaced(start: nat, seen: seq<Observation>) {
    seen != [] ==>
      Spaced(start, seen[..|seen| - 1]) && seen[|seen| - 1].now - Before(start, seen) >= REFRESH_RATE
  }

  predicate AllAre(seen: seq<Observation>, up: bool) {
    forall i :: 0 <= i < |seen| ==>
      if up then VerdictOf(seen[i].phases) in {OutputBound, InputBound}
      else VerdictOf(seen[i].phases) == EncodeBound
  }

  /** Under a lasting bottleneck the level walks one step a check to its bound, and
      stays there. */
  lemma {:induction false} WalkReachesBound(w: Walk, seen: seq<Observation>, up: bool)
    requires w.Valid() && Spaced(w.lastCheck, seen) && AllAre(seen, up)
    ensures var after := Walked(w, seen);
            && after.level == (if up then Min(w.level + |seen|, w.max) else Max(w.level - |seen|, w.min))
            && after.lastCheck == (if seen == [] then w.lastCheck else seen[|seen| - 1].now)
            && after.min == w.min && after.max == w.max
  {
    if seen != [] {
      var front := seen[..|seen| - 1];
      assert forall i :: 0 <= i < |front| ==> front[i] == seen[i];
      WalkReachesBound(w, front, up);
      assert front != [] ==> front[|front| - 1].now == Before(w.lastCheck, seen);
      assert VerdictOf(seen[|seen| - 1].phases) != Hold;
    }
  }

  // ------------------------------------------------------------------
  // Reading
  // ------------------------------------------------------------------

  /** What the reader does when asked: give up to `n` bytes, interrupt, or fail. */
  datatype Poll = Give(n: nat, nanos: nat) | Interrupt | Break

  datatype ReadResult = Got(n: nat, nanos: nat) | Interrupted | Broken

  datatype Failure = ReadFailed | EncodeFailed

  class Reader {
    const data: seq<byte>
    var pos: nat
    var script: seq<Poll>

    ghost predicate Valid()
      reads this
    {
      pos <= |data|
    }

    constructor (data: seq<byte>, script: seq<Poll>)
      ensures Valid() && this.data == data && this.script == script && pos == 0
    {
      this.data, this.script, pos := data, script, 0;
    }

    /** One read call: some of what is left, at least a byte of it, and nothing only
        at the end. */
    method Read(buf: array<byte>, at: nat) returns (r: ReadResult)
      requires Valid() && at < buf.Length
      modifies this`pos, this`script, buf
      ensures Valid() && buf[..at] == old(buf[..at])
      ensures script == if old(script) == [] then [] else old(script)[1..]
      ensures r == Broken <==> old(script) != [] && old(script)[0] == Break
      ensures r == Interrupted <==> old(script) != [] && old(script)[0] == Interrupt
      ensures r.Got? ==> r.nanos == if old(script) != [] then old(script)[0].nanos else 0
      ensures r.Got? ==>
                && pos == old(pos) + r.n && r.n <= buf.Length - at
                && buf[at..at + r.n] == data[old(pos)..pos]
                && (r.n == 0 <==> old(pos) == |data|)
      ensures !r.Got? ==> pos == old(pos)
    {
      var poll := if script == [] then Give(buf.Length, 0) else script[0];
      script := if script == [] then [] else script[1..];
      match poll
      case Interrupt => return Interrupted;
      case Break => return Broken;
      case Give(n, nanos) =>
        var take := Min(Min(Max(n, 1), buf.Length - at), |data| - pos);
        forall i | at <= i < at + take {
          buf[i] := data[pos + (i - at)];
        }
        pos := pos + take;
        return Got(take, nanos);
    }
  }

  datatype Filled = Filled(len: nat, read: nat, eof: bool)

  /** The time all of these reads that gave something took. */
  function Timed(polls: seq<Poll>): nat
    decreases |polls|
  {
    if polls == [] then 0
    else
      var last := polls[|polls| - 1];
      Timed(polls[..|polls| - 1]) + if last.Give? then last.nanos else 0
  }

  /** `read` is that time in 64 bits, the read that found the end, if one did, left out. */
  ghost predicate Took(polls: seq<Poll>, read: nat, eof: bool) {
    || read == Timed(polls) % 0x1_0000_0000_0000_0000
    || (eof && polls != [] && read == Timed(polls[..|polls| - 1]) % 0x1_0000_0000_0000_0000)
  }

  /** Fill a buffer: everything the reader has, up to the buffer's size, however it
      slices or interrupts it. */
  method Fill(reader: Reader, buf: array<byte>) returns (r: Result<Filled, Failure>)
    requires reader.Valid()
    modifies reader`pos, reader`script, buf
    ensures reader.Valid()
    ensures |reader.script| <= |old(reader.script)|
    ensures reader.script == old(reader.script)[|old(reader.script)| - |reader.script|..]
    ensures r.Err? ==> r == Err(ReadFailed) && Break in old(reader.script)
    ensures r.Ok? ==> Took(old(reader.script)[..|old(reader.script)| - |reader.script|], r.value.read, r.value.eof)
    ensures r.Ok? ==>
              && r.value.len == Min(buf.Length, |reader.data| - old(reader.pos))
              && reader.pos == old(reader.pos) + r.value.len
              && buf[..r.value.len] == reader.data[old(reader.pos)..reader.pos]
              && (r.value.eof <==> r.value.len < buf.Length)
  {
    var len, nanos, eof := 0, 0, false;
    ghost var k := 0;
    while len < buf.Length
      invariant reader.Valid() && 0 <= len <= buf.Length && !eof
      invariant 0 <= k <= |old(reader.script)| && reader.script == old(reader.script)[k..]
      invariant nanos == Timed(old(reader.script)[..k])
      invariant reader.pos == old(reader.pos) + len
      invariant buf[..len] == reader.data[old(reader.pos)..reader.pos]
      decreases |reader.data| - reader.pos, |reader.script|
    {
      ghost var before, script := reader.pos, reader.script;
      var got := reader.Read(buf, len);
      k := if script == [] then k else k + 1;
      assert script != [] ==> old(reader.script)[..k][..k - 1] == old(reader.script)[..k - 1];
      match got {
        case Got(n, spent) =>
          if n == 0 {
            eof := true;
            break;
          }
          assert reader.data[old(reader.pos)..before] + reader.data[before..reader.pos]
              == reader.data[old(reader.pos)..reader.pos];
          assert buf[..len + n] == buf[..len] + buf[len..len + n];
          len := len + n;
          nanos := nanos + spent;
        case Interrupted =>
        case Broken =>
          return Err(ReadFailed);
      }
    }
    return Ok(Filled(len, nanos % U64, eof));
  }

  // ------------------------------------------------------------------
  // The pipeline
  // ------------------------------------------------------------------

  /** One compressed chunk: the level it was given and the bytes it holds. */
  datatype Chunk = Chunk(level: int, payload: seq<byte>)

  function Payloads(chunks: seq<Chunk>): (p: seq<seq<byte>>)
    ensures |p| == |chunks| && forall i :: 0 <= i < |p| ==> p[i] == chunks[i].payload
  {
    seq(|chunks|, i requires 0 <= i < |chunks| => chunks[i].payload)
  }

  /** The input cut into pieces of `size`. */
  function Cut(data: seq<byte>, size: nat): (pieces: seq<seq<byte>>)
    requires size > 0
  {
    if data == [] then [] else [data[..Min(size, |data|)]] + Cut(data[Min(size, |data|)..], size)
  }

  function Joined(pieces: seq<seq<byte>>): seq<byte> {
    if pieces == [] then [] else pieces[0] + Joined(pieces[1..])
  }

  /** The pieces join up to the input, none is empty, and all but the last are
      full. */
  lemma {:induction false} CutJoins(data: seq<byte>, size: nat)
    requires size > 0
    ensures Joined(Cut(data, size)) == data
    ensures forall i :: 0 <= i < |Cut(data, size)| ==>
              && 0 < |Cut(data, size)[i]| <= size
              && (i + 1 < |Cut(data, size)| ==> |Cut(data, size)[i]| == size)
    decreases |data|
  {
    if data != [] {
      var n := Min(size, |data|);
      var rest := data[n..];
      CutJoins(rest, size);
      assert Cut(data, size)[1..] == Cut(rest, size);
      assert data == data[..n] + rest;
    }
  }

  /** What one chunk costs: its encode time and output wait, and when it ends. */
  datatype Cost = Cost(elapsed: nat, wait: nat, now: nat)

  /** An encoder: a frame for a level and a payload, or an error. Frames are never
      empty. */
  type Encode = (int, seq<byte>) -> Option<seq<byte>>

  ghost predicate Frames(encode: Encode) {
    forall level, payload :: encode(level, payload).Some? ==> encode(level, payload).value != []
  }

  class ChunkOutput {
    var count: nat
    var waitNanos: nat
    ghost var chunks: seq<Chunk>
    var bytes: seq<byte>

    constructor ()
      ensures count == 0 && waitNanos == 0 && chunks == [] && bytes == []
    {
      count, waitNanos, chunks, bytes := 0, 0, [], [];
    }

    method Emit(encode: Encode, level: int, payload: seq<byte>, wait: nat) returns (ok: bool)
      modifies this
      ensures ok == encode(level, payload).Some?
      ensures ok ==>
                && chunks == old(chunks) + [Chunk(level, payload)]
                && bytes == old(bytes) + encode(level, payload).value
                && count == old(count) + |encode(level, payload).value|
                && waitNanos == old(waitNanos) + wait
    {
      var frame := encode(level, payload);
      if frame.None? {
        return false;
      }
      bytes := bytes + frame.value;
      count := count + |frame.value|;
      waitNanos := waitNanos + wait;
      chunks := chunks + [Chunk(level, payload)];
      return true;
    }

    /** The wait so far, in 64 bits. The tally is not reset. */
    function TakeWait(): (wait: nat)
      reads this`waitNanos
      ensures wait < U64
    {
      waitNanos % U64
    }
  }

  function Saturating(a: nat, b: nat): nat {
    if a < b then 0 else a - b
  }

  /** Levels within bounds that move by at most one a chunk. */
  ghost predicate Walks(chunks: seq<Chunk>, lower: int, upper: int) {
    && (forall i :: 0 <= i < |chunks| ==> lower <= chunks[i].level <= upper)
    && (forall i :: 0 <= i < |chunks| - 1 ==> Abs(chunks[i + 1].level - chunks[i].level) <= 1)
  }

  ghost predicate NextLevel(chunks: seq<Chunk>, level: int) {
    chunks != [] ==> Abs(level - chunks[|chunks| - 1].level) <= 1
  }

  /** The bytes written are the frames of the chunks, in order. */
  ghost predicate Encodes(encode: Encode, chunks: seq<Chunk>, bytes: seq<byte>)
    decreases |chunks|
  {
    if chunks == [] then bytes == []
    else
      var last := chunks[|chunks| - 1];
      var frame := encode(last.level, last.payload);
      && frame.Some? && |frame.value| <= |bytes|
      && bytes[|bytes| - |frame.value|..] == frame.value
      && Encodes(encode, chunks[..|chunks| - 1], bytes[..|bytes| - |frame.value|])
  }

  lemma EncodesMore(encode: Encode, chunks: seq<Chunk>, bytes: seq<byte>, c: Chunk)
    requires Encodes(encode, chunks, bytes) && encode(c.level, c.payload).Some?
    ensures Encodes(encode, chunks + [c], bytes + encode(c.level, c.payload).value)
  {
    var frame := encode(c.level, c.payload).value;
    assert (chunks + [c])[..|chunks|] == chunks;
    assert (bytes + frame)[..|bytes|] == bytes && (bytes + frame)[|bytes|..] == frame;
  }

  /** A buffer holds the stretch of input read last, as much as fits. */
  ghost predicate Holds(data: seq<byte>, pos: nat, f: Filled, size: nat, held: seq<byte>) {
    && f.len <= pos <= |data| && f.len == Min(size, |data| - (pos - f.len))
    && held == data[pos - f.len..pos]
    && (f.eof ==> pos == |data|)
  }

  /** The first `done` bytes of the input are out, in full chunks. */
  ghost predicate Written(data: seq<byte>, done: nat, size: nat, chunks: seq<Chunk>)
    requires size > 0
  {
    done <= |data| && Payloads(chunks) + Cut(data[done..], size) == Cut(data, size)
  }

  /** What every chunk leaves true of the output. */
  ghost predicate Sound(encode: Encode, chunks: seq<Chunk>, bytes: seq<byte>, count: nat, lower: int, upper: int) {
    && (count == 0 <==> chunks == [])
    && Encodes(encode, chunks, bytes)
    && Walks(chunks, lower, upper)
  }

  /** The next chunk, unless the input is known to have ended. */
  method FillNext(reader: Reader, buf: array<byte>, eof: bool) returns (r: Result<Filled, Failure>)
    requires reader.Valid() && (eof ==> reader.pos == |reader.data|)
    modifies reader`pos, reader`script, buf
    ensures reader.Valid()
    ensures |reader.script| <= |old(reader.script)|
    ensures reader.script == old(reader.script)[|old(reader.script)| - |reader.script|..]
    ensures r.Err? ==> r == Err(ReadFailed) && Break in old(reader.script)
    ensures r.Ok? ==> Took(old(reader.script)[..|old(reader.script)| - |reader.script|], r.value.read, r.value.eof)
    ensures r.Ok? && eof ==> r.value.read == 0 && reader.script == old(reader.script)
    ensures r.Ok? ==>
              && r.value.len <= buf.Length && reader.pos == old(reader.pos) + r.value.len
              && Holds(reader.data, reader.pos, r.value, buf.Length, buf[..r.value.len])
  {
    if eof {
      assert buf[..0] == reader.data[reader.pos..reader.pos];
      return Ok(Filled(0, 0, true));
    }
    r := Fill(reader, buf);
  }

  /** The reads fell into one stretch for each fill, which took what the fill says. */
  ghost predicate ReadIn(polls: seq<Poll>, fills: seq<nat>)
    decreases |fills|
  {
    if fills == [] then polls == []
    else exists k: nat :: k <= |polls| && ReadIn(polls[..k], fills[..|fills| - 1])
                          && Took(polls[k..], fills[|fills| - 1], true)
  }

  lemma NoneRead()
    ensures ReadIn([], [])
  {
  }

  lemma ReadOn(script: seq<Poll>, done: nat, now: nat, fills: seq<nat>, read: nat, eof: bool)
    requires done <= now <= |script| && ReadIn(script[..done], fills) && Took(script[done..now], read, eof)
    ensures ReadIn(script[..now], fills + [read])
  {
    assert Took(script[done..now], read, true);
    hide Took;
    assert (fills + [read])[..|fills|] == fills;
    assert script[..now][..done] == script[..done] && script[..now][done..] == script[done..now];
    assert done <= |script[..now]| && ReadIn(script[..now][..done], (fills + [read])[..|fills|]);
  }

  // ------------------------------------------------------------------
  // What each chunk is charged
  // ------------------------------------------------------------------

  /** All the output waits of the first `n` chunks. */
  function WaitUpTo(costs: nat -> Cost, n: nat): nat {
    if n == 0 then 0 else WaitUpTo(costs, n - 1) + costs(n - 1).wait
  }

  /** The output time charged to chunk `i`. */
  function Charged(costs: nat -> Cost, i: nat): nat {
    WaitUpTo(costs, i + 1) % U64
  }

  /** A chunk's timings, for an output time: the next chunk's read and that output time
      come off its encode time. */
  function PhasesWith(costs: nat -> Cost, fills: seq<nat>, i: nat, output: nat): Phases
    requires i + 1 < |fills|
  {
    Phases(fills[i], Saturating(Saturating(costs(i).elapsed, fills[i + 1]), output), output)
  }

  /** What the policy has seen after `n` chunks, when `fills[i]` is how long chunk `i`
      took to read. */
  function Seen(costs: nat -> Cost, fills: seq<nat>, n: nat): seq<Observation>
    requires n < |fills|
  {
    if n == 0 then []
    else Seen(costs, fills, n - 1) + [Observation(PhasesWith(costs, fills, n - 1, Charged(costs, n - 1)), costs(n - 1).now)]
  }

  lemma {:induction false} SeenKept(costs: nat -> Cost, fills: seq<nat>, next: nat, n: nat)
    requires n < |fills|
    ensures Seen(costs, fills + [next], n) == Seen(costs, fills, n)
  {
    if n > 0 {
      SeenKept(costs, fills, next, n - 1);
    }
  }

  /** Every chunk is compressed at the level the walk has reached on what was seen of
      the chunks before it. */
  ghost predicate Levels(start: Walk, costs: nat -> Cost, fills: seq<nat>, chunks: seq<Chunk>) {
    && |chunks| <= |fills|
    && forall i :: 0 <= i < |chunks| ==> chunks[i].level == Walked(start, Seen(costs, fills, i)).level
  }

  /** Policy and wait tally after the chunks so far, the next one read. */
  ghost predicate Tracked(start: Walk, costs: nat -> Cost, fills: seq<nat>, chunks: seq<Chunk>, walk: Walk, waited: nat) {
    && |fills| == |chunks| + 1
    && walk == Walked(start, Seen(costs, fills, |chunks|))
    && waited == WaitUpTo(costs, |chunks|)
    && Levels(start, costs, fills, chunks)
  }

  lemma TrackedOn(start: Walk, costs: nat -> Cost, fills: seq<nat>, chunks: seq<Chunk>, walk: Walk, waited: nat,
                  c: Chunk, next: nat)
    requires Tracked(start, costs, fills, chunks, walk, waited) && c.level == walk.level
    ensures var n := |chunks|;
            var phases := PhasesWith(costs, fills + [next], n, (waited + costs(n).wait) % U64);
            Tracked(start, costs, fills + [next], chunks + [c], Observed(walk, phases, costs(n).now), waited + costs(n).wait)
  {
    hide Observed;
    var n := |chunks|;
    SeenKept(costs, fills, next, n);
    var seen := Seen(costs, fills + [next], n + 1);
    assert seen[..n] == Seen(costs, fills, n) by { SeenLength(costs, fills, n); }
    SeenLength(costs, fills + [next], n + 1);
    forall i | 0 <= i < n + 1
      ensures (chunks + [c])[i].level == Walked(start, Seen(costs, fills + [next], i)).level
    {
      SeenKept(costs, fills, next, i);
    }
  }

  lemma {:induction false} SeenLength(costs: nat -> Cost, fills: seq<nat>, n: nat)
    requires n < |fills|
    ensures |Seen(costs, fills, n)| == n
  {
    if n > 0 {
      SeenLength(costs, fills, n - 1);
    }
  }

  /** What the policy sees of a chunk: how long it took to read, its output waits tallied
      in 64 bits, and as encode time what neither the next read nor that tally accounts for. */
  lemma {:induction false} SeenAccounts(costs: nat -> Cost, fills: seq<nat>, n: nat, i: nat)
    requires i < n < |fills|
    ensures |Seen(costs, fills, n)| == n
    ensures var o := Seen(costs, fills, n)[i];
            && o.now == costs(i).now && o.phases.read == fills[i]
            && o.phases.output == WaitUpTo(costs, i + 1) % 0x1_0000_0000_0000_0000
            && o.phases.encode == Max(costs(i).elapsed - fills[i + 1] - o.phases.output, 0)
  {
    SeenLength(costs, fills, n);
    SeenLength(costs, fills, n - 1);
    if i < n - 1 {
      SeenAccounts(costs, fills, n - 1, i);
    }
  }

  /** A chunk is charged with its own output wait exactly when the waits of all chunks
      before it come to nothing in 64 bits. */
  lemma ChargedOwnWaitIff(costs: nat -> Cost, i: nat)
    requires costs(i).wait < U64
    ensures Charged(costs, i) == costs(i).wait <==> WaitUpTo(costs, i) % U64 == 0
  {
    SumModIff(WaitUpTo(costs, i), costs(i).wait, U64);
  }

  lemma SumModIff(before: nat, own: nat, m: nat)
    requires own < m
    ensures (before + own) % m == own <==> before % m == 0
  {
    var q, r := before / m, before % m;
    Euclid(before, m);
    MulNext(m, q);
    if r + own < m {
      ModUnique(before + own, m, q, r + own);
    } else {
      ModUnique(before + own, m, q + 1, r + own - m);
    }
  }

  /** Two chunks, of which only the first waits for its output: the second is held to be
      bound by its output and goes a level up, where its own timings ask for one down. */
  lemma ChargedWaitFlipsVerdict(costs: nat -> Cost, now: nat)
    requires costs(0) == Cost(400, 100, now) && costs(1) == Cost(110, 0, now)
    ensures VerdictOf(PhasesWith(costs, [0, 0, 0], 1, Charged(costs, 1))) == OutputBound
    ensures VerdictOf(PhasesWith(costs, [0, 0, 0], 1, costs(1).wait)) == EncodeBound
  {
    assert WaitUpTo(costs, 1) == 100;
    assert WaitUpTo(costs, 2) == 100;
  }

  /** Output and policy between two chunks. */
  ghost predicate Balanced(out: ChunkOutput, policy: Policy, encode: Encode)
    reads out, policy
  {
    && policy.Valid()
    && Sound(encode, out.chunks, out.bytes, out.count, policy.min, policy.max)
    && NextLevel(out.chunks, policy.level)
  }

  /** The same, with what has been charged and read so far. */
  ghost predicate Steady(out: ChunkOutput, policy: Policy, encode: Encode, start: Walk, costs: nat -> Cost, fills: seq<nat>)
    reads out, policy
  {
    && Balanced(out, policy, encode)
    && Tracked(start, costs, fills, out.chunks, policy.View(), out.waitNanos)
  }

  /** Emit one chunk at the walking level and let its timings move the level. */
  method EmitChunk(out: ChunkOutput, encode: Encode, policy: Policy, payload: seq<byte>, read: nat, nextRead: nat,
                   cost: Cost, ghost start: Walk, ghost costs: nat -> Cost, ghost fills: seq<nat>)
    returns (ok: bool)
    requires Steady(out, policy, encode, start, costs, fills) && Frames(encode)
    requires read == fills[|out.chunks|] && cost == costs(|out.chunks|)
    modifies out, policy
    ensures ok == encode(old(policy.level), payload).Some?
    ensures ok ==> Steady(out, policy, encode, start, costs, fills + [nextRead])
    ensures ok ==> out.chunks == old(out.chunks) + [Chunk(old(policy.level), payload)]
  {
    hide Sound, NextLevel, VerdictOf, Levels;
    var level := policy.level;
    TrackedOn(start, costs, fills, out.chunks, policy.View(), out.waitNanos, Chunk(level, payload), nextRead);
    ghost var chunks, bytes, count := out.chunks, out.bytes, out.count;
    ok := out.Emit(encode, level, payload, cost.wait);
    if !ok {
      return;
    }
    var wait := out.TakeWait();
    var spent := Saturating(Saturating(cost.elapsed, nextRead), wait);
    StepIsThrottled(policy.View(), Phases(read, spent, wait), cost.now);
    var outcome := policy.Observe(Phases(read, spent, wait), cost.now);
    ChunkEmitted(encode, chunks, bytes, count, policy.min, policy.max, Chunk(level, payload), policy.level);
  }

  lemma ChunkEmitted(encode: Encode, chunks: seq<Chunk>, bytes: seq<byte>, count: nat, lower: int, upper: int,
                     c: Chunk, next: int)
    requires Sound(encode, chunks, bytes, count, lower, upper) && NextLevel(chunks, c.level)
    requires Frames(encode) && encode(c.level, c.payload).Some?
    requires lower <= c.level <= upper && Abs(next - c.level) <= 1
    ensures var frame := encode(c.level, c.payload).value;
            Sound(encode, chunks + [c], bytes + frame, count + |frame|, lower, upper)
    ensures NextLevel(chunks + [c], next)
  {
    EncodesMore(encode, chunks, bytes, c);
  }

  /** The chunk loop: each chunk is handed to its encoder while the other buffer is
      filled, and the two change places. */
  method RunChunks(reader: Reader, out: ChunkOutput, encode: Encode, costs: nat -> Cost, policy: Policy, chunk: nat)
    returns (r: Result<(), Failure>, ghost fills: seq<nat>)
    requires out.chunks == [] && out.waitNanos == 0
    requires reader.Valid() && reader.pos == 0 && chunk > 0 && Frames(encode)
    requires Written(reader.data, 0, chunk, out.chunks) && Balanced(out, policy, encode)
    modifies reader`pos, reader`script, out, policy
    ensures r.Ok? ==>
              && Payloads(out.chunks) == Cut(reader.data, chunk)
              && (out.chunks == [] <==> reader.data == [])
              && Steady(out, policy, encode, old(policy.View()), costs, fills)
              && |reader.script| <= |old(reader.script)|
              && ReadIn(old(reader.script)[..|old(reader.script)| - |reader.script|], fills)
    ensures r == Err(ReadFailed) ==> Break in old(reader.script)
    ensures r == Err(EncodeFailed) ==> exists level, payload :: encode(level, payload).None?
  {
    hide Holds, Written, Steady, Payloads, Cut, Frames, Took, ReadIn;
    fills := [];
    var buf, other := new byte[chunk], new byte[chunk];
    var got := FillNext(reader, buf, false);
    if got.Err? {
      return Err(got.error), fills;
    }
    var filled := got.value;
    ghost var start := policy.View();
    fills := [filled.read];
    ghost var done := |old(reader.script)| - |reader.script|;
    assert ReadIn([], []) by { NoneRead(); }
    assert old(reader.script)[..0] == [] && old(reader.script)[0..done] == old(reader.script)[..done];
    ReadOn(old(reader.script), 0, done, [], filled.read, filled.eof);
    assert [] + [filled.read] == fills;
    SteadyStarts(out, policy, encode, costs, filled.read);
    var i := 0;
    while filled.len > 0
      invariant reader.Valid() && Steady(out, policy, encode, start, costs, fills) && fresh(buf) && fresh(other)
      invariant buf != other && buf.Length == other.Length == chunk && filled.len <= chunk
      invariant 0 <= done == |old(reader.script)| - |reader.script| && reader.script == old(reader.script)[done..]
      invariant ReadIn(old(reader.script)[..done], fills)
      invariant i == |out.chunks| && |fills| == i + 1 && fills[i] == filled.read
      invariant filled.len <= reader.pos
      invariant Holds(reader.data, reader.pos, filled, chunk, buf[..filled.len])
      invariant Written(reader.data, reader.pos - filled.len, chunk, out.chunks)
      decreases |reader.data| - reader.pos + filled.len
    {
      var payload := buf[..filled.len];
      ChunkWritten(reader.data, reader.pos, filled, chunk, payload, out.chunks, policy.level);
      got := FillNext(reader, other, filled.eof);
      if got.Err? {
        return Err(got.error), fills;
      }
      var ok := EmitChunk(out, encode, policy, payload, filled.read, got.value.read, costs(i), start, costs, fills);
      if !ok {
        return Err(EncodeFailed), fills;
      }
      ghost var now := |old(reader.script)| - |reader.script|;
      assert old(reader.script)[done..][..now - done] == old(reader.script)[done..now];
      ReadOn(old(reader.script), done, now, fills, got.value.read, got.value.eof);
      done := now;
      fills := fills + [got.value.read];
      buf, other := other, buf;
      filled := got.value;
      i := i + 1;
    }
    AllWritten(reader.data, reader.pos, filled, chunk, buf[..filled.len], out.chunks);
    return Ok(()), fills;
  }

  /** The pipeline: one frame per chunk, at levels that walk within the bounds; an
      empty input still makes one frame. */
  method Pipeline(reader: Reader, out: ChunkOutput, encode: Encode, costs: nat -> Cost,
                  start: int, lower: int, upper: int, chunk: nat, now: nat)
    returns (r: Result<(), Failure>, ghost fills: seq<nat>)
    requires reader.Valid() && reader.pos == 0 && chunk > 0 && lower <= upper && Frames(encode)
    requires out.count == 0 && out.chunks == [] && out.bytes == [] && out.waitNanos == 0
    modifies reader`pos, reader`script, out
    ensures r.Ok? ==>
              && Payloads(out.chunks) == (if reader.data == [] then [[]] else Cut(reader.data, chunk))
              && Encodes(encode, out.chunks, out.bytes)
              && Walks(out.chunks, Clamp(lower, 1, 22), Clamp(upper, 1, 22))
              && Levels(Started(start, lower, upper, now), costs, fills, out.chunks)
              && (exists k: nat :: k <= |old(reader.script)| && ReadIn(old(reader.script)[..k], fills))
    ensures r == Err(ReadFailed) ==> Break in old(reader.script)
    ensures r == Err(EncodeFailed) ==> exists level, payload :: encode(level, payload).None?
  {
    hide Written, Sound, Walks, Encodes, Payloads, Cut, NextLevel, Seen, ReadIn;
    var policy := new Policy(start, lower, upper, now);
    NothingWritten(reader.data, chunk, encode, policy.min, policy.max, policy.level);
    r, fills := RunChunks(reader, out, encode, costs, policy, chunk);
    if r.Err? {
      return;
    }
    SoundMeans(encode, out.chunks, out.bytes, out.count, policy.min, policy.max);
    if out.count == 0 {
      ghost var chunks, bytes, count := out.chunks, out.bytes, out.count;
      var ok := out.Emit(encode, policy.level, [], 0);
      if !ok {
        return Err(EncodeFailed), fills;
      }
      FirstLevel(Started(start, lower, upper, now), costs, fills, policy.level);
      ChunkEmitted(encode, chunks, bytes, count, policy.min, policy.max, Chunk(policy.level, []), policy.level);
      SoundMeans(encode, out.chunks, out.bytes, out.count, policy.min, policy.max);
      OnePayload(out.chunks[0]);
    }
  }

  /** The walk a pipeline starts from. */
  function Started(start: int, lower: int, upper: int, now: nat): Walk
    requires lower <= upper
  {
    var least, most := Clamp(lower, MIN_LEVEL, MAX_LEVEL), Clamp(upper, MIN_LEVEL, MAX_LEVEL);
    Walk(Clamp(start, least, most), least, most, now)
  }

  lemma SteadyStarts(out: ChunkOutput, policy: Policy, encode: Encode, costs: nat -> Cost, read: nat)
    requires Balanced(out, policy, encode) && out.chunks == [] && out.waitNanos == 0
    ensures Steady(out, policy, encode, policy.View(), costs, [read])
  {
  }

  lemma FirstLevel(start: Walk, costs: nat -> Cost, fills: seq<nat>, level: int)
    requires |fills| == 1 && level == Walked(start, Seen(costs, fills, 0)).level
    ensures Levels(start, costs, fills, [Chunk(level, [])])
  {
  }

  lemma NothingWritten(data: seq<byte>, size: nat, encode: Encode, lower: int, upper: int, level: int)
    requires size > 0
    ensures Written(data, 0, size, []) && Sound(encode, [], [], 0, lower, upper) && NextLevel([], level)
  {
    assert data[0..] == data && Payloads([]) == [];
  }

  /** A chunk handed over takes one more piece of the input. */
  lemma ChunkWritten(data: seq<byte>, pos: nat, f: Filled, size: nat, held: seq<byte>, chunks: seq<Chunk>, level: int)
    requires size > 0 && Holds(data, pos, f, size, held) && f.len > 0
    requires Written(data, pos - f.len, size, chunks)
    ensures Written(data, pos, size, chunks + [Chunk(level, held)])
    ensures f.eof ==> pos == |data|
  {
    CutOne(data, pos - f.len, f.len, size, chunks, Chunk(level, held));
  }

  lemma AllWritten(data: seq<byte>, pos: nat, f: Filled, size: nat, held: seq<byte>, chunks: seq<Chunk>)
    requires size > 0 && Holds(data, pos, f, size, held) && f.len == 0 && Written(data, pos, size, chunks)
    ensures Payloads(chunks) == Cut(data, size) && (chunks == [] <==> data == [])
  {
    assert data[pos..] == [] && Payloads(chunks) + [] == Payloads(chunks);
  }

  lemma SoundMeans(encode: Encode, chunks: seq<Chunk>, bytes: seq<byte>, count: nat, lower: int, upper: int)
    requires Sound(encode, chunks, bytes, count, lower, upper)
    ensures (count == 0 <==> chunks == []) && Encodes(encode, chunks, bytes) && Walks(chunks, lower, upper)
  {
  }

  lemma OnePayload(c: Chunk)
    ensures Payloads([c]) == [c.payload]
  {
  }

  /** Handing over one more chunk takes one more piece. */
  lemma CutOne(data: seq<byte>, done: nat, len: nat, chunk: nat, chunks: seq<Chunk>, c: Chunk)
    requires chunk > 0 && done <= |data| && len == Min(chunk, |data| - done) && len > 0
    requires Payloads(chunks) + Cut(data[done..], chunk) == Cut(data, chunk)
    requires c.payload == data[done..done + len]
    ensures Payloads(chunks + [c]) + Cut(data[done + len..], chunk) == Cut(data, chunk)
  {
    assert data[done..][..len] == data[done..done + len] && data[done..][len..] == data[done + len..];
    assert Payloads(chunks + [c]) == Payloads(chunks) + [c.payload];
    assert Cut(data[done..], chunk) == [c.payload] + Cut(data[done + len..], chunk);
  }

  /** An input that is read and encoded without failures is never refused, and its
      chunks join up to it. */
  lemma ChunksJoin(data: seq<byte>, chunk: nat)
    requires chunk > 0
    ensures var pieces := if data == [] then [[]] else Cut(data, chunk);
            && Joined(pieces) == data
            && (forall i :: 0 <= i < |pieces| ==> |pieces[i]| == 0 ==> data == [] && |pieces| == 1)
            && (forall i :: 0 <= i < |pieces| - 1 ==> |pieces[i]| == chunk)
  {
    CutJoins(data, chunk);
  }
}
