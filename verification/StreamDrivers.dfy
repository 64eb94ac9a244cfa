/** Callers of the streaming decoder: what the calls of a decoding loop come to when
    every answer, refusals included, is only known to be an answer. */
module StreamDrivers {
  import opened Bytes
  import opened FrameHeader
  import opened FrameWalk
  import opened BlockEngine
  import opened FrameContent
  import opened OneShots
  import opened StreamSpec
  import opened StreamRuns
  import opened ShortcutAgreement

  /** One call of the loop: what it offered, what was answered (no hint is a refusal),
      and the progress behind it. */
  datatype Attempt = Attempt(
    offered: seq<byte>, room: nat, hint: Option<nat>, took: nat, gave: seq<byte>, reached: Progress, left: Progress)

  /** The frame at the head of the stream is valid: it is read to its end, its content
      has the declared size and the checksum its trailer says, and each of its compressed
      blocks has a body and its history. */
  ghost predicate ValidFrame(c: Codec, stream: seq<byte>) {
    && ScanFrame(c, stream).verdict.Done? && SizeAgrees(stream, ScanFrame(c, stream).out)
    && (ZstdStart(stream) ==>
          && NoneHollow(BlocksOf(stream)) && Faithful(c, OpenedAs(stream), [], BlocksOf(stream))
          && ChecksumHolds(c, OpenedAs(stream), [], BlocksOf(stream)))
  }

  /** A valid frame in progress is never refused, whatever is offered of it. */
  lemma ValidNeverRefused(c: Codec, stream: seq<byte>, pos: nat, p: Progress, offered: seq<byte>)
    requires OnTrack(c, stream, pos, p) && ValidFrame(c, stream)
    requires pos + |offered| <= |stream| && offered == stream[pos..pos + |offered|]
    ensures !Rejected(c, p.taken + offered)
  {
    hide ScanFrame, IsSkippable;
    TakenWithin(c, stream, p);
    if p.hostage {
      HeldIsWhole(c, stream, p, offered);
    } else {
      var s := p.taken + offered;
      assert s == stream[..|s|] && stream == s + stream[|s|..];
      ScanGrows(c, s, stream[|s|..]);
      if ScanFrame(c, s).verdict.Done? {
        SizeLatches(c, s, stream[|s|..]);
      }
    }
  }

  /** A frame whose last byte is held back is read whole already. */
  lemma HeldIsWhole(c: Codec, stream: seq<byte>, p: Progress, offered: seq<byte>)
    requires Resting(c, p) && p.hostage && p.taken <= stream && ValidFrame(c, stream)
    ensures !Rejected(c, p.taken + offered)
  {
    hide ScanFrame;
    assert stream == p.taken + stream[|p.taken|..];
    ScanGrows(c, p.taken, stream[|p.taken|..]);
    ScanGrows(c, p.taken, offered);
    SizeLatches(c, p.taken, stream[|p.taken|..]);
    SizeLatches(c, p.taken, offered);
  }

  /** The declared size of a frame that is read is in its own bytes. */
  lemma SizeLatches(c: Codec, s: seq<byte>, t: seq<byte>)
    requires ScanFrame(c, s).verdict.Done?
    ensures ScanFrame(c, s + t) == ScanFrame(c, s)
    ensures SizeAgrees(s + t, ScanFrame(c, s).out) == SizeAgrees(s, ScanFrame(c, s).out)
  {
    ScanGrows(c, s, t);
    HeaderLatched([], s + t, s, t);
    hide ScanFrame, ParseFullHeader;
    assert [] + (s + t) == s + t;
  }

  /** One call of a loop: at least a byte of what follows the cursor and a byte of room
      are offered, and the call is answered. */
  ghost predicate Made(c: Codec, stream: seq<byte>, pos: nat, p: Progress, t: Attempt) {
    && t.offered != [] && t.room > 0
    && pos + |t.offered| <= |stream| && t.offered == stream[pos..pos + |t.offered|]
    && Answered(c, p, t.offered, t.room, t.hint, t.took, t.gave, t.reached, t.left)
  }

  predicate GoesOn(t: Attempt) {
    t.hint.Some? && t.hint.value != 0
  }

  /** The calls of a loop that goes on while the hint is not 0, none of which hides a
      header. */
  ghost predicate Tried(c: Codec, stream: seq<byte>, pos: nat, p: Progress, tries: seq<Attempt>)
    decreases |tries|
  {
    tries == [] ||
    var t := tries[0];
    && Made(c, stream, pos, p, t) && !HiddenFrame(p, t.offered, t.room)
    && (if GoesOn(t) then Tried(c, stream, pos + t.took, t.left, tries[1..]) else |tries| == 1)
  }

  /** The calls of a loop that always offers eighteen bytes, or all there are. */
  ghost predicate TriedLong(c: Codec, stream: seq<byte>, pos: nat, p: Progress, tries: seq<Attempt>)
    decreases |tries|
  {
    tries == [] ||
    var t := tries[0];
    && Made(c, stream, pos, p, t) && (|t.offered| >= 18 || pos + |t.offered| == |stream|)
    && (if GoesOn(t) then TriedLong(c, stream, pos + t.took, t.left, tries[1..]) else |tries| == 1)
  }

  /** The calls as steps. */
  function Legs(tries: seq<Attempt>): seq<Leg> {
    if tries == [] then []
    else
      var t := tries[0];
      [Leg(Call(t.offered, t.room, t.took, t.gave, if t.hint.Some? then t.hint.value else 0), t.reached)]
      + Legs(tries[1..])
  }

  /** One call on a valid frame is a step of it. */
  lemma TryIsStep(c: Codec, stream: seq<byte>, pos: nat, p: Progress, t: Attempt)
    requires OnTrack(c, stream, pos, p) && ValidFrame(c, stream)
    requires Made(c, stream, pos, p, t) && !HiddenFrame(p, t.offered, t.room)
    ensures t.hint.Some?
    ensures var call := Call(t.offered, t.room, t.took, t.gave, t.hint.value);
            Step(c, p, call, t.reached) && t.left == Next(call, t.reached)
  {
    hide ScanFrame, TakesShortcut, ShortcutAnswer, Rejected, Step, ParseFullHeader, IsSkippable;
    if TakesShortcut(p, t.offered, t.room) {
      TakenWithin(c, stream, p);
      ValidShortcut(c, stream, p, t);
    } else {
      ValidNeverRefused(c, stream, pos, p, t.offered);
    }
  }

  /** On a valid frame the shortcut decodes what the block-by-block path would. */
  lemma ValidShortcut(c: Codec, stream: seq<byte>, p: Progress, t: Attempt)
    requires ValidFrame(c, stream) && t.offered <= stream && Resting(c, p) && p.taken == []
    requires TakesShortcut(p, t.offered, t.room)
    requires ShortcutAnswer(c, p, t.offered, t.room, t.hint, t.took, t.gave, t.reached, t.left)
    ensures t.hint == Some(0) && t.left == FRESH
    ensures Step(c, p, Call(t.offered, t.room, t.took, t.gave, 0), t.reached)
  {
    hide ScanFrame, WholeFrame, ParseFullHeader, TakesShortcut, ShortcutAnswer, Step, SizeAgrees, AllCapped, KeepsUp,
      NoneHollow, Faithful, TrailerHeard, ChecksumHolds, LastIsEmpty, Resting;
    var s, rest := t.offered, stream[|t.offered|..];
    assert stream == s + rest && p.taken + s == s;
    CleanShortcut(c, p, s, t.room, t.hint, t.took, t.gave, t.reached, t.left);
    ScanGrows(c, s, rest);
    SizeLatches(c, s, rest);
    StartKeepsBlocks(c, s, rest);
    FrameReadIsWhole(c, s);
    EmptyIsWanted();
    assert [] + s[..t.took] == s[..t.took];
    CompletionIsStepIff(c, p, s, t.room, t.took, t.gave, t.reached);
  }

  lemma StartKeepsBlocks(c: Codec, s: seq<byte>, t: seq<byte>)
    requires ZstdStart(s) && ValidFrame(c, s + t)
    ensures NoneHollow(BlocksOf(s)) && Faithful(c, OpenedAs(s), [], BlocksOf(s))
    ensures TrailerHeard(c, OpenedAs(s), [], BlocksOf(s))
  {
    hide ParseFullHeader, ScanFrame, NoneHollow, Faithful, TrailerHeard, ChecksumHolds;
    FullHeaderLatches(s, t);
    HeaderFits(s);
    assert BlocksOf(s + t) == BlocksOf(s) + t && OpenedAs(s + t) == OpenedAs(s);
    NoneHollowPrefix(BlocksOf(s), t);
    FaithfulPrefix(c, OpenedAs(s), [], BlocksOf(s), t);
    FrameReadIsWhole(c, s + t);
    HeardPrefix(c, OpenedAs(s), [], BlocksOf(s), t);
  }

  /** What a loop over a valid frame has come to: no call was refused; a last hint of 0
      means the whole content was handed out and the frame consumed to its last byte;
      any other leaves a byte of the frame to offer; and there are no more calls than
      bytes of frame and content together, the last of that many answering 0. */
  ghost predicate Finishes(c: Codec, stream: seq<byte>, pos: nat, given: seq<byte>, tries: seq<Attempt>) {
    var scan := ScanFrame(c, stream);
    && scan.verdict.Done? && pos <= scan.verdict.size && |given| <= |scan.out|
    && (forall i :: 0 <= i < |tries| ==> tries[i].hint.Some?)
    && var budget := scan.verdict.size - pos + |scan.out| - |given|;
       && |tries| <= budget + 1
       && (tries != [] ==>
             var last := tries[|tries| - 1].hint;
             var at := pos + Consumed(Legs(tries));
             && (|tries| == budget + 1 ==> last == Some(0))
             && (last == Some(0) ==> given + Output(Legs(tries)) == scan.out && at == scan.verdict.size)
             && (last != Some(0) ==> at < scan.verdict.size))
  }

  lemma {:induction false} DriverFinishes(c: Codec, stream: seq<byte>, pos: nat, p: Progress, tries: seq<Attempt>)
    requires OnTrack(c, stream, pos, p) && ValidFrame(c, stream) && Tried(c, stream, pos, p, tries)
    ensures Finishes(c, stream, pos, p.given, tries)
    decreases |tries|
  {
    hide ScanFrame, IsSkippable, Step, HiddenFrame, Answered, SizeAgrees, ZstdStart, NoneHollow, Faithful, ChecksumHolds;
    TrackedWithin(c, stream, pos, p);
    if tries != [] {
      var t := tries[0];
      TryIsStep(c, stream, pos, p, t);
      var call := Call(t.offered, t.room, t.took, t.gave, t.hint.value);
      StepOnTrack(c, stream, pos, p, call, t.reached);
      StepProgress(c, p, call, t.reached);
      StepGives(c, p, call, t.reached);
      if t.hint == Some(0) {
        assert tries[1..] == [] && Legs(tries) == [Leg(call, t.reached)];
        OneLeg(Legs(tries));
      } else {
        TakenBefore(c, stream, t.reached);
        DriverFinishes(c, stream, pos + t.took, t.left, tries[1..]);
        Prepended(c, stream, pos, p.given, tries);
      }
    }
  }

  lemma TrackedWithin(c: Codec, stream: seq<byte>, pos: nat, p: Progress)
    requires OnTrack(c, stream, pos, p) && ScanFrame(c, stream).verdict.Done?
    ensures pos <= ScanFrame(c, stream).verdict.size && |p.given| <= |ScanFrame(c, stream).out|
  {
    hide ScanFrame;
    TakenWithin(c, stream, p);
  }

  /** A call that moved a cursor in front of a loop that finishes. */
  lemma Prepended(c: Codec, stream: seq<byte>, pos: nat, given: seq<byte>, tries: seq<Attempt>)
    requires tries != [] && tries[0].hint.Some? && tries[0].hint.value != 0
    requires tries[0].took > 0 || tries[0].gave != []
    requires Finishes(c, stream, pos + tries[0].took, given + tries[0].gave, tries[1..])
    requires ScanFrame(c, stream).verdict.Done? && pos + tries[0].took < ScanFrame(c, stream).verdict.size
    ensures Finishes(c, stream, pos, given, tries)
  {
    hide ScanFrame;
    var t := tries[0];
    var call := Call(t.offered, t.room, t.took, t.gave, t.hint.value);
    assert Legs(tries) == [Leg(call, t.reached)] + Legs(tries[1..]);
    assert Legs(tries)[1..] == Legs(tries[1..]);
    assert (given + t.gave) + Output(Legs(tries[1..])) == given + Output(Legs(tries));
    assert forall i :: 1 <= i < |tries| ==> tries[i] == tries[1..][i - 1];
    if |tries| == 1 {
      assert Legs(tries[1..]) == [] && Consumed(Legs(tries[1..])) == 0;
    }
  }

  /** Nothing of the frame has been read, or its whole header. */
  predicate HeaderSettled(p: Progress) {
    p.taken == [] || (ParseFullHeader(p.taken).Ok? && ParseFullHeader(p.taken).value.Complete?)
  }

  lemma SettledHidesNothing(p: Progress, offered: seq<byte>, room: nat)
    requires HeaderSettled(p)
    ensures !HiddenFrame(p, offered, room)
  {
    hide ParseFullHeader, ChainedSize;
  }

  /** The longest header is eighteen bytes. */
  lemma LongHeaderIsComplete(c: Codec, stream: seq<byte>, n: nat)
    requires ScanFrame(c, stream).verdict.Done? && n <= |stream| && (n >= 18 || n == |stream|)
    ensures ParseFullHeader(stream[..n]).Ok? && ParseFullHeader(stream[..n]).value.Complete?
  {
    HeaderSelfDelimiting(stream, n);
    hide ParseFullHeader, ScanBlocks;
  }

  /** A call that offers a frame's first eighteen bytes, or all of it, settles the
      header, and a settled header stays settled. */
  lemma LongOfferSettles(c: Codec, stream: seq<byte>, pos: nat, p: Progress, call: Call, q: Progress)
    requires OnTrack(c, stream, pos, p) && HeaderSettled(p) && ScanFrame(c, stream).verdict.Done?
    requires pos + |call.offered| <= |stream| && call.offered == stream[pos..pos + |call.offered|]
    requires |call.offered| >= 18 || pos + |call.offered| == |stream|
    requires Step(c, p, call, q)
    ensures HeaderSettled(q)
  {
    hide ScanFrame, ParseFullHeader, HiddenFrame;
    if p.taken != [] {
      FullHeaderLatches(p.taken, q.taken[|p.taken|..]);
      assert p.taken + q.taken[|p.taken|..] == q.taken;
    } else {
      StepOnTrack(c, stream, pos, p, call, q);
      assert q.taken == call.offered[..|q.taken|] == stream[..|q.taken|];
      if |q.taken| == |call.offered| {
        LongHeaderIsComplete(c, stream, |q.taken|);
      } else {
        ReadShort(c, stream, q);
      }
    }
  }

  /** A frame stopped short of what was offered has output owed or is read whole, and
      so has its header behind it. */
  lemma ReadShort(c: Codec, stream: seq<byte>, q: Progress)
    requires Consistent(c, q) && q.taken <= stream && ScanFrame(c, stream).verdict.Done?
    requires q.owed != [] || ScanFrame(c, q.taken).verdict.Done?
    ensures ParseFullHeader(q.taken).Ok? && ParseFullHeader(q.taken).value.Complete?
  {
    hide ParseFullHeader, ScanBlocks;
  }

  /** A loop that always offers eighteen bytes, or all there are, hides no header. */
  lemma {:induction false} LongOffersAreTried(c: Codec, stream: seq<byte>, pos: nat, p: Progress, tries: seq<Attempt>)
    requires OnTrack(c, stream, pos, p) && HeaderSettled(p) && ValidFrame(c, stream)
    requires TriedLong(c, stream, pos, p, tries)
    ensures Tried(c, stream, pos, p, tries)
    decreases |tries|
  {
    hide ScanFrame, IsSkippable, Step, HiddenFrame, Answered, HeaderSettled;
    if tries != [] {
      var t := tries[0];
      SettledHidesNothing(p, t.offered, t.room);
      TryIsStep(c, stream, pos, p, t);
      if GoesOn(t) {
        var call := Call(t.offered, t.room, t.took, t.gave, t.hint.value);
        StepOnTrack(c, stream, pos, p, call, t.reached);
        LongOfferSettles(c, stream, pos, p, call, t.reached);
        LongOffersAreTried(c, stream, pos + t.took, t.left, tries[1..]);
      }
    }
  }

  /** So from a frame's first byte such a loop finishes any valid frame. */
  lemma LongOffersFinish(c: Codec, stream: seq<byte>, tries: seq<Attempt>)
    requires ValidFrame(c, stream) && TriedLong(c, stream, 0, FRESH, tries)
    ensures Finishes(c, stream, 0, [], tries)
  {
    FreshOnTrack(c, stream);
    LongOffersAreTried(c, stream, 0, FRESH, tries);
    DriverFinishes(c, stream, 0, FRESH, tries);
  }

  // ------------------------------------------------------------------
  // Series of frames
  // ------------------------------------------------------------------

  /** Nothing but valid frames, one after the other. */
  ghost predicate ValidSeries(c: Codec, stream: seq<byte>)
    decreases |stream|
  {
    stream == [] || (ValidFrame(c, stream) && ValidSeries(c, stream[ScanFrame(c, stream).verdict.size..]))
  }

  /** Their contents, joined. */
  ghost function Joined(c: Codec, stream: seq<byte>): seq<byte>
    requires ValidSeries(c, stream)
    decreases |stream|
  {
    if stream == [] then []
    else ScanFrame(c, stream).out + Joined(c, stream[ScanFrame(c, stream).verdict.size..])
  }

  /** One-shot decoding of such a series gives the same. */
  lemma {:induction false} ValidSeriesDecodes(c: Codec, stream: seq<byte>)
    requires ValidSeries(c, stream)
    ensures OneShot(c, stream) == Some(Joined(c, stream))
    decreases |stream|
  {
    hide ScanFrame, WholeFrame, ValidFrame;
    if stream != [] {
      JoinedSplits(c, stream);
      ValidIsWhole(c, stream);
      ValidSeriesDecodes(c, stream[ScanFrame(c, stream).verdict.size..]);
    }
  }

  lemma ValidIsWhole(c: Codec, stream: seq<byte>)
    requires ValidFrame(c, stream)
    ensures WholeFrame(c, stream) == ScanFrame(c, stream)
  {
    hide ParseFullHeader, NoneHollow, Faithful, ChecksumHolds, SizeAgrees, ScanBlocks, WholeBlocks;
    if ZstdStart(stream) {
      FrameReadIsWhole(c, stream);
    }
  }

  /** The calls of a loop over a series, from `pos` in its first frame: it goes on through
      hints of 0, behind which the next frame starts, and stops at a refusal. */
  ghost predicate TriedSeries(c: Codec, stream: seq<byte>, pos: nat, p: Progress, tries: seq<Attempt>)
    decreases |tries|
  {
    tries == [] ||
    var t := tries[0];
    && Made(c, stream, pos, p, t) && !HiddenFrame(p, t.offered, t.room)
    && if t.hint.None? then |tries| == 1
       else if t.hint == Some(0) then
         pos + t.took <= |stream| && TriedSeries(c, stream[pos + t.took..], 0, t.left, tries[1..])
       else TriedSeries(c, stream, pos + t.took, t.left, tries[1..])
  }

  /** What such a loop has come to: no call was refused, each moved a cursor, what it has
      handed out is a start of the joined contents, and once all input is consumed it is
      all of them, the last call having answered 0. */
  ghost predicate Advances(c: Codec, stream: seq<byte>, pos: nat, given: seq<byte>, tries: seq<Attempt>)
    requires ValidSeries(c, stream)
  {
    var took, gave := Consumed(Legs(tries)), Output(Legs(tries));
    && (forall i :: 0 <= i < |tries| ==> tries[i].hint.Some?)
    && |tries| <= took + |gave|
    && pos + took <= |stream|
    && given + gave <= Joined(c, stream)
    && (tries != [] && pos + took == |stream| ==>
          given + gave == Joined(c, stream) && tries[|tries| - 1].hint == Some(0))
  }

  /** A loop over a series of valid frames that offers a byte each way and hides no header:
      so it ends, all input consumed, within as many calls as series and contents have
      bytes, with exactly the joined contents. */
  lemma {:induction false} SeriesFinishes(c: Codec, stream: seq<byte>, pos: nat, p: Progress, tries: seq<Attempt>)
    requires ValidSeries(c, stream) && (stream == [] || OnTrack(c, stream, pos, p))
    requires stream == [] ==> pos == 0 && p == FRESH
    requires TriedSeries(c, stream, pos, p, tries)
    ensures Advances(c, stream, pos, p.given, tries)
    decreases |tries|
  {
    hide ScanFrame, IsSkippable, Step, HiddenFrame, Answered, ValidFrame;
    if tries == [] {
      NothingTried(c, stream, pos, p);
    } else {
      var t := tries[0];
      SeriesCall(c, stream, pos, p, t);
      if t.hint == Some(0) {
        SeriesFinishes(c, stream[pos + t.took..], 0, FRESH, tries[1..]);
        NextFrame(c, stream, pos, p, tries);
      } else {
        SeriesFinishes(c, stream, pos + t.took, t.left, tries[1..]);
        SameFrame(c, stream, pos, p, tries);
      }
    }
  }

  lemma NothingTried(c: Codec, stream: seq<byte>, pos: nat, p: Progress)
    requires ValidSeries(c, stream) && (stream == [] || OnTrack(c, stream, pos, p))
    requires stream == [] ==> pos == 0 && p == FRESH
    ensures Advances(c, stream, pos, p.given, [])
  {
    hide ScanFrame, SizeAgrees, ZstdStart, NoneHollow, Faithful, ChecksumHolds;
    assert p.given + [] == p.given;
    if stream != [] {
      TrackedStart(c, stream, pos, p);
      assert p.given <= ScanFrame(c, stream).out <= Joined(c, stream);
    }
  }

  lemma TrackedStart(c: Codec, stream: seq<byte>, pos: nat, p: Progress)
    requires OnTrack(c, stream, pos, p) && ScanFrame(c, stream).verdict.Done?
    ensures pos <= |stream| && p.given <= ScanFrame(c, stream).out
  {
    hide ScanFrame;
    assert stream == p.taken + stream[|p.taken|..];
    ScanGrows(c, p.taken, stream[|p.taken|..]);
    TakenWithin(c, stream, p);
  }

  /** One call of it: a step, which ends the first frame or stays in it. */
  lemma SeriesCall(c: Codec, stream: seq<byte>, pos: nat, p: Progress, t: Attempt)
    requires ValidSeries(c, stream) && (stream == [] || OnTrack(c, stream, pos, p))
    requires Made(c, stream, pos, p, t) && !HiddenFrame(p, t.offered, t.room)
    ensures stream != [] && ScanFrame(c, stream).verdict.Done?
    ensures t.hint.Some? && (t.took > 0 || t.gave != [])
    ensures t.hint == Some(0) ==>
              && ScanFrame(c, stream) == Scan(p.given + t.gave, Done(pos + t.took)) && t.left == FRESH
              && (stream[pos + t.took..] == [] || OnTrack(c, stream[pos + t.took..], 0, FRESH))
    ensures t.hint != Some(0) ==>
              && OnTrack(c, stream, pos + t.took, t.left) && t.left.given == p.given + t.gave
              && pos + t.took < ScanFrame(c, stream).verdict.size
  {
    hide ScanFrame, IsSkippable, HiddenFrame, Answered, SizeAgrees, ZstdStart, NoneHollow, Faithful, ChecksumHolds, Step;
    TryIsStep(c, stream, pos, p, t);
    var call := Call(t.offered, t.room, t.took, t.gave, t.hint.value);
    StepOnTrack(c, stream, pos, p, call, t.reached);
    StepProgress(c, p, call, t.reached);
    StepGives(c, p, call, t.reached);
    if t.hint == Some(0) {
      FreshOnTrack(c, stream[pos + t.took..]);
    } else {
      TakenBefore(c, stream, t.reached);
    }
  }

  /** What was done behind a call that ended a frame. */
  lemma NextFrame(c: Codec, stream: seq<byte>, pos: nat, p: Progress, tries: seq<Attempt>)
    requires stream != [] && ValidSeries(c, stream) && tries != []
    requires tries[0].hint == Some(0) && (tries[0].took > 0 || tries[0].gave != [])
    requires ScanFrame(c, stream) == Scan(p.given + tries[0].gave, Done(pos + tries[0].took))
    requires Advances(c, stream[pos + tries[0].took..], 0, [], tries[1..])
    ensures Advances(c, stream, pos, p.given, tries)
  {
    hide ScanFrame, ValidFrame, ValidSeries, Joined, Legs, Consumed, Output;
    var t, n := tries[0], pos + tries[0].took;
    LegsSplit(tries);
    JoinedSplits(c, stream);
    var rest, gave := Joined(c, stream[n..]), Output(Legs(tries[1..]));
    assert p.given + (t.gave + gave) == (p.given + t.gave) + gave;
    assert [] + gave == gave;
    assert forall i :: 1 <= i < |tries| ==> tries[i] == tries[1..][i - 1];
    if |tries| > 1 {
      assert tries[1..][|tries| - 2] == tries[|tries| - 1];
    } else {
      NothingJoined(c, tries[1..]);
      assert n == |stream| ==> stream[n..] == [];
    }
  }

  lemma JoinedSplits(c: Codec, stream: seq<byte>)
    requires stream != [] && ValidSeries(c, stream)
    ensures ScanFrame(c, stream).verdict.Done? && ValidSeries(c, stream[ScanFrame(c, stream).verdict.size..])
    ensures Joined(c, stream) == ScanFrame(c, stream).out + Joined(c, stream[ScanFrame(c, stream).verdict.size..])
  {
    hide ScanFrame, SizeAgrees, ZstdStart, NoneHollow, Faithful, ChecksumHolds;
  }

  lemma NothingJoined(c: Codec, tries: seq<Attempt>)
    requires tries == []
    ensures ValidSeries(c, []) && Joined(c, []) == [] && Output(Legs(tries)) == [] && Consumed(Legs(tries)) == 0
  {
    hide ScanFrame, ValidFrame;
  }

  /** What was done behind a call inside a frame. */
  lemma SameFrame(c: Codec, stream: seq<byte>, pos: nat, p: Progress, tries: seq<Attempt>)
    requires stream != [] && ValidSeries(c, stream) && tries != [] && ScanFrame(c, stream).verdict.Done?
    requires tries[0].hint.Some? && (tries[0].took > 0 || tries[0].gave != [])
    requires pos + tries[0].took < ScanFrame(c, stream).verdict.size
    requires Advances(c, stream, pos + tries[0].took, p.given + tries[0].gave, tries[1..])
    ensures Advances(c, stream, pos, p.given, tries)
  {
    hide ScanFrame, ValidFrame, Joined;
    var t := tries[0];
    LegsSplit(tries);
    var gave := Output(Legs(tries[1..]));
    assert p.given + (t.gave + gave) == (p.given + t.gave) + gave;
    assert forall i :: 1 <= i < |tries| ==> tries[i] == tries[1..][i - 1];
    if |tries| > 1 {
      assert tries[1..][|tries| - 2] == tries[|tries| - 1];
    }
  }

  lemma LegsSplit(tries: seq<Attempt>)
    requires tries != []
    ensures Consumed(Legs(tries)) == tries[0].took + Consumed(Legs(tries[1..]))
    ensures Output(Legs(tries)) == tries[0].gave + Output(Legs(tries[1..]))
  {
    assert Legs(tries)[1..] == Legs(tries[1..]);
  }

  /** The same for a loop that always offers eighteen bytes, or all there are. */
  ghost predicate TriedSeriesLong(c: Codec, stream: seq<byte>, pos: nat, p: Progress, tries: seq<Attempt>)
    decreases |tries|
  {
    tries == [] ||
    var t := tries[0];
    && Made(c, stream, pos, p, t) && (|t.offered| >= 18 || pos + |t.offered| == |stream|)
    && if t.hint.None? then |tries| == 1
       else if t.hint == Some(0) then
         pos + t.took <= |stream| && TriedSeriesLong(c, stream[pos + t.took..], 0, t.left, tries[1..])
       else TriedSeriesLong(c, stream, pos + t.took, t.left, tries[1..])
  }

  lemma {:induction false} LongSeriesIsTried(c: Codec, stream: seq<byte>, pos: nat, p: Progress, tries: seq<Attempt>)
    requires ValidSeries(c, stream) && (stream == [] || OnTrack(c, stream, pos, p)) && HeaderSettled(p)
    requires TriedSeriesLong(c, stream, pos, p, tries)
    ensures TriedSeries(c, stream, pos, p, tries)
    decreases |tries|
  {
    hide ScanFrame, IsSkippable, Step, HiddenFrame, Answered, HeaderSettled, ValidFrame;
    if tries != [] {
      var t := tries[0];
      SettledHidesNothing(p, t.offered, t.room);
      SeriesCall(c, stream, pos, p, t);
      if t.hint == Some(0) {
        FreshIsSettled();
        LongSeriesIsTried(c, stream[pos + t.took..], 0, FRESH, tries[1..]);
      } else {
        TryIsStep(c, stream, pos, p, t);
        LongOfferSettles(c, stream, pos, p, Call(t.offered, t.room, t.took, t.gave, t.hint.value), t.reached);
        LongSeriesIsTried(c, stream, pos + t.took, t.left, tries[1..]);
      }
    }
  }

  lemma FreshIsSettled()
    ensures HeaderSettled(FRESH)
  {
  }

  /** From its first byte such a loop finishes any series of valid frames. */
  lemma LongSeriesFinishes(c: Codec, stream: seq<byte>, tries: seq<Attempt>)
    requires ValidSeries(c, stream) && TriedSeriesLong(c, stream, 0, FRESH, tries)
    ensures Advances(c, stream, 0, [], tries)
  {
    hide TriedSeries, TriedSeriesLong, Advances, ValidSeries;
    FreshOnTrack(c, stream);
    FreshIsSettled();
    LongSeriesIsTried(c, stream, 0, FRESH, tries);
    SeriesFinishes(c, stream, 0, FRESH, tries);
  }
}
