/** The decoding context behind the streaming entry: the sticky error and the
    no-forward-progress guard around the stage machine. */
module DCtxs {
  import opened Bytes
  import opened FrameHeader
  import opened BlockEngine
  import opened FrameWalk
  import opened FrameContent
  import opened OneShots
  import opened StreamSpec
  import opened DStreams
  import StreamRuns

  const NO_FORWARD_PROGRESS_MAX: nat := 16

  class DCtx {
    const codec: Codec
    var stream: DStream?
    var sticky: Option<ErrorCode>
    /** Consecutive calls that moved neither cursor. */
    var noForward: nat

    ghost predicate Valid()
      reads this, stream
    {
      && (sticky.None? && stream != null ==> stream.codec == codec && stream.Valid())
      && (sticky.None? ==> noForward < NO_FORWARD_PROGRESS_MAX)
    }

    ghost function Progressed(): Progress
      reads this, stream
    {
      if stream == null then FRESH else stream.Progressed()
    }

    /** How many spent bytes are still staged. */
    ghost function Spent(): nat
      reads this`stream, stream
    {
      if stream == null then 0 else stream.cursor
    }

    /** What a call leaves in staging: it is short of one full block with its header unless
        spent bytes in front of a frame header add up to that much, and those are what the
        call found, with what it added. */
    ghost predicate Leaves(p: Progress, offered: seq<byte>, room: nat, spent: nat, hint: nat)
      reads this`stream, stream
    {
      stream != null ==>
        && stream.SpentAs(p, offered, room, spent, hint)
        && (stream.stage.FrameHeaderStage? ==> |stream.staging| == Spent() + |stream.taken|)
        && (|stream.staging| >= 131_075 <==> stream.stage.FrameHeaderStage? && Spent() + |stream.taken| >= 131_075)
    }

    constructor (codec: Codec)
      ensures Valid() && Spent() == 0 && this.codec == codec
      ensures Progressed() == FRESH && sticky.None? && noForward == 0
    {
      this.codec := codec;
      stream := null;
      sticky := None;
      noForward := 0;
    }

    /** Drop the frame in progress and the error state. */
    method ResetSession()
      modifies this
      ensures Valid() && Spent() == 0
      ensures Progressed() == FRESH && sticky.None? && noForward == 0
    {
      stream := null;
      sticky := None;
      noForward := 0;
    }

    /** Run the stream on one call; cursors commit only on success, except that a
        refused header commits what was claimed of it. */
    method StreamInner(out: array<byte>, outPos: nat, input: seq<byte>, inPos: nat)
      returns (r: Result<CallOutcome, ErrorCode>, outPos': nat, inPos': nat, ghost q: Progress)
      requires Valid() && sticky.None? && inPos <= |input| && outPos <= out.Length
      modifies this, stream, out
      ensures outPos <= outPos' <= out.Length && inPos <= inPos' <= |input|
      ensures sticky == old(sticky) && noForward == old(noForward)
      ensures r.Ok? ==> stream != null && stream.codec == codec && stream.Valid()
      ensures r.Ok? ==> Wrote(old(out[..]), out[..], outPos, outPos')
      ensures r.Ok? ==> Answered(codec, old(Progressed()), input[inPos..], out.Length - outPos, Some(r.value.hint),
                                 inPos' - inPos, out[outPos..outPos'], q, Progressed())
      ensures r.Ok? ==> r.value.guardExempt == AwaitsHeader(q, r.value.hint)
      ensures r.Ok? ==> Leaves(old(Progressed()), input[inPos..], out.Length - outPos, old(Spent()), r.value.hint)
      ensures r.Err? ==> outPos' == outPos
                         && inPos' == (if CommitsRefusal(old(Progressed()), input[inPos..]) then |input| else inPos)
                         && Refused(codec, old(Progressed()), input[inPos..], out.Length - outPos)
                         && RefusedAs(codec, old(Progressed()), input[inPos..], out.Length - outPos, r.error)
      ensures Resting(codec, old(Progressed()))
    {
      hide ScanFrame, Answered, Resting, Wrote, Refused, RefusedAs, CommitsRefusal, DStream.Valid, DStream.SpentAs, DStream.Bounded;
      if stream == null {
        stream := new DStream(codec);
      }
      stream.Rests();
      var res, committed;
      res, outPos', inPos', committed, q := stream.Advance(out, outPos, input, inPos);
      if res.Err? {
        assert out[outPos..outPos] == [];
        RefusedHolds(codec, old(Progressed()), input[inPos..], out.Length - outPos, 0, [], q, Progressed());
        return res, outPos, committed, q;
      }
      stream.StagingBound();
      return res, outPos', inPos', q;
    }

    /** Count the calls that move neither cursor; the sixteenth in a row is
        refused. */
    method Guard(outFull: bool, moved: bool) returns (refusal: Option<ErrorCode>)
      modifies this`noForward
      ensures refusal.Some? <==> !moved && old(noForward) + 1 >= 16
      ensures noForward == if moved then 0 else old(noForward) + 1
      ensures refusal.Some? ==>
                refusal.value == if outFull then NoForwardProgressDestFull else NoForwardProgressInputEmpty
    {
      if !moved {
        noForward := noForward + 1;
        if noForward >= NO_FORWARD_PROGRESS_MAX {
          return Some(if outFull then NoForwardProgressDestFull else NoForwardProgressInputEmpty);
        }
      } else {
        noForward := 0;
      }
      return None;
    }

    /** One call on a stream without an earlier error; `tripped` says the guard
        refused it. */
    method Serve(out: array<byte>, outPos: nat, input: seq<byte>, inPos: nat)
      returns (r: Result<nat, ErrorCode>, outPos': nat, inPos': nat, ghost q: Progress, ghost tripped: bool)
      requires Valid() && sticky.None? && inPos <= |input| && outPos <= out.Length
      modifies this, stream, out
      ensures outPos <= outPos' <= out.Length && inPos <= inPos' <= |input|
      ensures Valid() && sticky == if r.Ok? then None else Some(r.error)
      ensures r.Ok? ==> Wrote(old(out[..]), out[..], outPos, outPos')
      ensures r.Ok? ==> Answered(codec, old(Progressed()), input[inPos..], out.Length - outPos, Some(r.value),
                                 inPos' - inPos, out[outPos..outPos'], q, Progressed())
      ensures r.Ok? ==> Leaves(old(Progressed()), input[inPos..], out.Length - outPos, old(Spent()), r.value)
      ensures r.Err? && !tripped ==>
                && Refused(codec, old(Progressed()), input[inPos..], out.Length - outPos)
                && RefusedAs(codec, old(Progressed()), input[inPos..], out.Length - outPos, r.error)
      ensures r.Err? && !tripped ==>
                outPos' == outPos
                && inPos' == if CommitsRefusal(old(Progressed()), input[inPos..]) then |input| else inPos
      ensures tripped ==>
                && outPos' == outPos && inPos' == inPos && old(noForward) == 15
                && r == Err(if outPos == out.Length then NoForwardProgressDestFull else NoForwardProgressInputEmpty)
                && exists hint: nat ::
                     && Answered(codec, old(Progressed()), input[inPos..], out.Length - outPos, Some(hint), 0, [], q,
                                 Progressed())
                     && !AwaitsHeader(q, hint)
      ensures r.Ok? ==> noForward == Counted(old(noForward), q, r.value, inPos' - inPos, outPos' - outPos) < 16
      ensures tripped ==> inPos == |input| || outPos == out.Length
    {
      hide ScanFrame, Refused, RefusedAs, Resting, Answered, Wrote, CommitsRefusal, Leaves, DStream.Valid, DStream.Inv,
        DStream.Bounded, DStream.Owed;
      tripped := false;
      ghost var p := Progressed();
      var outcome;
      outcome, outPos', inPos', q := StreamInner(out, outPos, input, inPos);
      if outcome.Err? {
        sticky := Some(outcome.error);
        return Err(outcome.error), outPos', inPos', q, tripped;
      }
      if outcome.value.guardExempt {
        return Ok(outcome.value.hint), outPos', inPos', q, tripped;
      }
      var refusal := Guard(outPos == out.Length, outPos' != outPos || inPos' != inPos);
      if refusal.Some? {
        sticky := refusal;
        tripped := true;
        if inPos < |input| && outPos < out.Length {
          OfferedMoves(codec, p, input[inPos..], out.Length - outPos, outcome.value.hint, inPos' - inPos,
                       out[outPos..outPos'], q, Progressed());
        }
        return Err(refusal.value), outPos', inPos', q, tripped;
      }
      return Ok(outcome.value.hint), outPos', inPos', q, tripped;
    }

    /** The entry: wild cursors are refused first, then an earlier error is
        replayed, then the call is served. */
    method DecompressStream(out: array<byte>, outPos: nat, input: seq<byte>, inPos: nat)
      returns (r: Result<nat, ErrorCode>, outPos': nat, inPos': nat, ghost q: Progress, ghost tripped: bool)
      requires Valid()
      modifies this, stream, out
      ensures Valid()
      ensures inPos > |input| ==> r == Err(SrcSizeWrong)
      ensures inPos <= |input| && outPos > out.Length ==> r == Err(DstSizeTooSmall)
      ensures inPos <= |input| && outPos <= out.Length && old(sticky).Some? ==> r == Err(old(sticky).value)
      ensures inPos > |input| || outPos > out.Length || old(sticky).Some? ==>
                outPos' == outPos && inPos' == inPos && unchanged(this) && unchanged(out) && !tripped
      ensures inPos <= |input| && outPos <= out.Length && old(sticky).None? ==>
                && outPos <= outPos' <= out.Length && inPos <= inPos' <= |input|
                && sticky == (if r.Ok? then None else Some(r.error))
                && (r.Ok? ==> Wrote(old(out[..]), out[..], outPos, outPos')
                              && Answered(codec, old(Progressed()), input[inPos..], out.Length - outPos, Some(r.value),
                                          inPos' - inPos, out[outPos..outPos'], q, Progressed()))
                && (r.Ok? ==>
                      Leaves(old(Progressed()), input[inPos..], out.Length - outPos, old(Spent()), r.value))
                && (r.Err? ==>
                      outPos' == outPos
                      && inPos' == if !tripped && CommitsRefusal(old(Progressed()), input[inPos..]) then |input| else inPos)
                && (tripped ==>
                      && (inPos == |input| || outPos == out.Length) && old(noForward) == 15
                      && r == Err(if outPos == out.Length then NoForwardProgressDestFull else NoForwardProgressInputEmpty))
                && (r.Ok? ==>
                      noForward == Counted(old(noForward), q, r.value, inPos' - inPos, outPos' - outPos) < 16)
                && (r.Err? && !tripped ==>
                      && Refused(codec, old(Progressed()), input[inPos..], out.Length - outPos)
                      && RefusedAs(codec, old(Progressed()), input[inPos..], out.Length - outPos, r.error))
    {
      hide ScanFrame, Refused, RefusedAs, Step, Answered, Wrote, Resting, Leaves;
      outPos', inPos', tripped := outPos, inPos, false;
      q := Progressed();
      if inPos > |input| {
        return Err(SrcSizeWrong), outPos', inPos', q, tripped;
      }
      if outPos > out.Length {
        return Err(DstSizeTooSmall), outPos', inPos', q, tripped;
      }
      if sticky.Some? {
        return Err(sticky.value), outPos', inPos', q, tripped;
      }
      r, outPos', inPos', q, tripped := Serve(out, outPos, input, inPos);
    }
  }

  /** The idle calls in a row after an answered call: one more when it moved neither cursor,
      none when it moved one, and as before when it waits for its frame's header. */
  function Counted(idle: nat, q: Progress, hint: nat, took: nat, gave: nat): nat {
    if AwaitsHeader(q, hint) then idle else if took == 0 && gave == 0 then idle + 1 else 0
  }

  /** A refusal that stands for itself: nothing was taken, nothing given. */
  ghost predicate Refused(c: Codec, p: Progress, offered: seq<byte>, room: nat) {
    Answered(c, p, offered, room, None, 0, [], p, p)
  }

  lemma RefusedHolds(c: Codec, p: Progress, offered: seq<byte>, room: nat, took: nat, gave: seq<byte>, q: Progress,
                     now: Progress)
    requires Answered(c, p, offered, room, None, took, gave, q, now)
    ensures Refused(c, p, offered, room)
  {
    hide TakesShortcut, ShortcutAnswer, Rejected;
    if TakesShortcut(p, offered, room) {
      RefusalAlone(c, p, offered, room, took, gave, q, now, 0, [], p, p);
    }
  }

  /** A call that moves neither cursor was offered no byte to read or no byte to write. */
  lemma OfferedMoves(c: Codec, p: Progress, offered: seq<byte>, room: nat, hint: nat, took: nat, gave: seq<byte>,
                     q: Progress, now: Progress)
    requires Resting(c, p) && Answered(c, p, offered, room, Some(hint), took, gave, q, now)
    requires offered != [] && room > 0
    ensures took > 0 || gave != []
  {
    hide ScanFrame, TakesShortcut, ChainedSize, OneShot, ParseFullHeader;
    if !TakesShortcut(p, offered, room) {
      StreamRuns.StepProgress(c, p, Call(offered, room, took, gave, hint), q);
    } else {
      var have: nat :| CompletesHeader(p, offered, have) && ShortcutAt(p, offered, room, have) &&
        DecodesWhole(c, p, offered, ChainedSize(offered[..have], offered[have..]).value, room, Some(hint), took, gave,
                     q, now);
      ChainedKeepsHeader(offered[..have], offered[have..]);
      HeaderSelfDelimiting(offered[..have], 0);
    }
  }
}
