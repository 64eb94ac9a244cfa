/** What one call of the streaming decoder may do, as a relation between the
    progress before and after it. */
module StreamSpec {
  import opened Bytes
  import opened FrameHeader
  import opened FrameWalk
  import opened BlockEngine
  import opened FrameContent
  import opened OneShots

  /** Progress through the current frame: the bytes read of it, its output handed
      out and still owed, and whether its last byte was handed back to the caller
      as a hostage until the output is flushed. */
  datatype Progress = Progress(taken: seq<byte>, given: seq<byte>, owed: seq<byte>, hostage: bool)

  const FRESH := Progress([], [], [], false)

  /** One call: the unread input and the free output offered, the net input
      consumed, the output written, and the returned hint. */
  datatype Call = Call(offered: seq<byte>, room: nat, took: nat, gave: seq<byte>, hint: nat)

  /** Output handed out and owed is exactly what the bytes read determine. */
  ghost predicate Consistent(c: Codec, p: Progress) {
    var scan := ScanFrame(c, p.taken);
    && !scan.verdict.Bad?
    && p.given + p.owed == scan.out
    && (scan.verdict.Done? ==> scan.verdict.size == |p.taken|)
    && (p.hostage ==> scan.verdict.Done? && scan.out != [])
  }

  /** Between calls a frame read to its end is either gone or held hostage. */
  ghost predicate Resting(c: Codec, p: Progress) {
    && Consistent(c, p)
    && (ScanFrame(c, p.taken).verdict.Done? ==> p.hostage)
  }

  function Held(p: Progress): nat {
    if p.hostage then 1 else 0
  }

  /** The input: read in order, nothing skipped, nothing read twice; the hostage
      byte is handed back and later consumed unread. */
  ghost predicate Reads(p: Progress, call: Call, q: Progress) {
    && call.took <= |call.offered|
    && |p.taken| <= |q.taken|
    && call.took + Held(q) == |q.taken| - |p.taken| + Held(p)
    && (p.hostage ==> q.taken == p.taken)
    && (!p.hostage ==> call.took + Held(q) <= |call.offered|
                       && q.taken == p.taken + call.offered[..call.took + Held(q)])
  }

  /** The output: appended, within the room offered. */
  ghost predicate Writes(p: Progress, call: Call, q: Progress) {
    && q.given == p.given + call.gave
    && |call.gave| <= call.room
  }

  /** A call stops only for input it does not have or output it cannot place. */
  ghost predicate Eager(c: Codec, p: Progress, call: Call, q: Progress) {
    var flushed := q.owed == [] || |call.gave| == call.room;
    && flushed
    && (ScanFrame(c, q.taken).verdict.More? ==> call.took == |call.offered| || q.owed != [])
    && (q.hostage ==> q.owed != [] || (p.hostage && call.offered == []))
    && (ScanFrame(c, q.taken).verdict.Done? && !q.hostage ==> q.owed == [])
  }

  /** The hint: 0 when the frame is read and flushed, 1 while its output is held
      back, and otherwise what the frame wants next. */
  ghost predicate Hints(c: Codec, q: Progress, hint: nat) {
    match ScanFrame(c, q.taken).verdict
    case More(want) => hint == want
    case Done(_) => hint == Held(q)
    case Bad(_) => false
  }

  ghost predicate Step(c: Codec, p: Progress, call: Call, q: Progress) {
    && Consistent(c, q)
    && Reads(p, call, q)
    && Writes(p, call, q)
    && Eager(c, p, call, q)
    && Hints(c, q, call.hint)
  }

  /** The call ran out of input in front of the end of its frame's header. */
  predicate AwaitsHeader(q: Progress, hint: nat) {
    hint > 0 && ParseFullHeader(q.taken).Ok? && ParseFullHeader(q.taken).value.Wanted?
  }

  /** The progress the next call starts from. */
  function Next(call: Call, q: Progress): Progress {
    if call.hint == 0 then FRESH else q
  }

  /** How many of the offered bytes finish the zstd header the call starts in. */
  ghost predicate CompletesHeader(p: Progress, offered: seq<byte>, have: nat) {
    && ParseFullHeader(p.taken).Ok? && ParseFullHeader(p.taken).value.Wanted?
    && var whole := ParseFullHeader(p.taken + offered);
       && whole.Ok? && whole.value.Complete? && whole.value.header.frameType.ZstdFrame?
       && have <= |offered| && |p.taken| + have == whole.value.header.headerSize
  }

  /** The call completes a header whose declared content fits the room, while what this
      call offers spells, from its own first byte, a whole frame: those bytes are decoded
      in one go. */
  ghost predicate TakesShortcut(p: Progress, offered: seq<byte>, room: nat) {
    exists have: nat :: CompletesHeader(p, offered, have) && ShortcutAt(p, offered, room, have)
  }

  ghost predicate ShortcutAt(p: Progress, offered: seq<byte>, room: nat, have: nat)
    requires CompletesHeader(p, offered, have)
  {
    var header := ParseFullHeader(p.taken + offered).value.header;
    && header.contentSize.Some? && header.contentSize.value <= room
    && var size := ChainedSize(offered[..have], offered[have..]);
       size.Some? && size.value >= have
  }

  /** The header began in an earlier call, so the frame the shortcut finds is another one:
      it is hidden in the frame the call is in. */
  ghost predicate HiddenFrame(p: Progress, offered: seq<byte>, room: nat) {
    p.taken != [] && TakesShortcut(p, offered, room)
  }

  /** What such a call does: one-shot decoding of the bytes the shortcut found, `now`
      being the progress left behind and `q` the frame as the call reports it. */
  ghost predicate ShortcutAnswer(c: Codec, p: Progress, offered: seq<byte>, room: nat, hint: Option<nat>, took: nat,
                                 gave: seq<byte>, q: Progress, now: Progress)
  {
    exists have: nat :: CompletesHeader(p, offered, have) && ShortcutAt(p, offered, room, have) &&
      DecodesWhole(c, p, offered, ChainedSize(offered[..have], offered[have..]).value, room, hint, took, gave, q, now)
  }

  ghost predicate DecodesWhole(c: Codec, p: Progress, offered: seq<byte>, size: nat, room: nat, hint: Option<nat>,
                               took: nat, gave: seq<byte>, q: Progress, now: Progress)
    requires size <= |offered|
  {
    var inner := OneShot(c, offered[..size]);
    && (hint.Some? <==> inner.Some? && |inner.value| <= room)
    && (hint.Some? ==>
          && hint == Some(0) && took == size && gave == inner.value
          && q == Progress(p.taken + offered[..size], gave, [], false) && now == FRESH)
  }

  /** Input a refused call keeps: a start of a frame too short to be a header, whose
      magic is already wrong, is committed; every other refusal commits nothing. */
  predicate CommitsRefusal(p: Progress, offered: seq<byte>) {
    |p.taken + offered| < HEADER_PREFIX && ParseFullHeader(p.taken + offered).Err?
  }

  /** What a call may answer: one-shot decoding when it takes the shortcut, and otherwise
      a step of the frame in progress, or a refusal that the bytes offered so far deserve.
      `now` is the progress left behind. */
  ghost predicate Answered(c: Codec, p: Progress, offered: seq<byte>, room: nat, hint: Option<nat>, took: nat,
                           gave: seq<byte>, q: Progress, now: Progress)
  {
    if TakesShortcut(p, offered, room) then
      ShortcutAnswer(c, p, offered, room, hint, took, gave, q, now)
    else match hint
      case Some(h) => var call := Call(offered, room, took, gave, h);
                      Step(c, p, call, q) && now == Next(call, q)
      case None => Rejected(c, p.taken + offered)
  }

  lemma AnsweredBy(c: Codec, p: Progress, call: Call, q: Progress, now: Progress, direct: bool)
    requires TakesShortcut(p, call.offered, call.room) == direct
    requires if direct then ShortcutAnswer(c, p, call.offered, call.room, Some(call.hint), call.took, call.gave, q, now)
             else Step(c, p, call, q) && now == Next(call, q)
    ensures Answered(c, p, call.offered, call.room, Some(call.hint), call.took, call.gave, q, now)
  {
    hide TakesShortcut, ShortcutAnswer, Step;
  }

  /** The error of a refused call: that of the one-shot decoder on a shortcut, and otherwise
      what is wrong with the bytes. */
  ghost predicate RefusedAs(c: Codec, p: Progress, offered: seq<byte>, room: nat, code: ErrorCode) {
    if TakesShortcut(p, offered, room) then code == DecodeFailed else Refuses(c, p.taken + offered, code)
  }

  lemma RefusedFor(c: Codec, p: Progress, offered: seq<byte>, room: nat, code: ErrorCode, direct: bool, q: Progress,
                   now: Progress)
    requires TakesShortcut(p, offered, room) == direct
    requires if direct then ShortcutAnswer(c, p, offered, room, None, 0, [], p, p) && code == DecodeFailed
             else Refuses(c, p.taken + offered, code)
    ensures RefusedAs(c, p, offered, room, code)
    ensures Answered(c, p, offered, room, None, 0, [], q, now)
  {
    hide ScanFrame, TakesShortcut, ShortcutAnswer;
    if direct {
      RefusalAlone(c, p, offered, room, 0, [], p, p, 0, [], q, now);
    } else {
      RefusesRejects(c, p.taken + offered, code);
    }
  }

  /** Nothing of a refused call but the refusal counts. */
  lemma RefusalAlone(c: Codec, p: Progress, offered: seq<byte>, room: nat, took: nat, gave: seq<byte>, q: Progress,
                     now: Progress, took': nat, gave': seq<byte>, q': Progress, now': Progress)
    requires ShortcutAnswer(c, p, offered, room, None, took, gave, q, now)
    ensures ShortcutAnswer(c, p, offered, room, None, took', gave', q', now')
  {
    hide ParseFullHeader, ChainedSize, OneShot;
  }

  /** Putting a call together: what was read is `x`, of which a newly taken
      hostage is handed back and a released one is consumed again. */
  lemma StepHolds(c: Codec, p: Progress, call: Call, q: Progress, x: seq<byte>)
    requires Consistent(c, q) && Hints(c, q, call.hint)
    requires q.taken == p.taken + x && q.given == p.given + call.gave && |call.gave| <= call.room
    requires x <= call.offered && call.took <= |call.offered|
    requires call.took + Held(q) == |x| + Held(p)
    requires p.hostage ==> x == []
    requires q.owed == [] || |call.gave| == call.room
    requires ScanFrame(c, q.taken).verdict.More? && q.owed == [] ==> call.took == |call.offered|
    requires q.hostage && q.owed == [] ==> p.hostage && call.offered == []
    requires ScanFrame(c, q.taken).verdict.Done? && !q.hostage ==> q.owed == []
    ensures Step(c, p, call, q)
  {
    hide Consistent, Hints, ScanFrame;
    if p.hostage {
      assert q.taken == p.taken;
    } else {
      assert x == call.offered[..|x|];
    }
  }
}
