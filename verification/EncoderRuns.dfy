/** Whole runs of streaming compression calls. */
module EncoderRuns {
  import opened Bytes
  import opened Encoders

  datatype Request = Request(mode: Directive, input: seq<byte>, room: nat)

  /** A frame that was closed and fully drained. */
  datatype Done = Done(coder: Coder, history: seq<Event>)

  /** A run so far: the frames it completed, the session it reached, all input bytes
      taken, all output bytes given, and the last return value. */
  datatype Trace = Trace(frames: seq<Done>, session: Session, taken: seq<byte>, given: seq<byte>, pending: nat)

  ghost function Ask(make: Maker, t: Trace, r: Request): Option<Trace>
    requires Sound(t.session)
  {
    match CallOf(make, t.session, r.mode, r.input, r.room)
    case Refused(_, _) => None
    case Returned(pending, taken, given, next) =>
      CallTakes(make, t.session, r.mode, r.input, r.room);
      Some(Trace(t.frames + Completed(make, t.session, r), next, t.taken + r.input[..taken], t.given + given, pending))
  }

  /** The frame a call completes, if it completes one. */
  ghost function Completed(make: Maker, s: Session, r: Request): seq<Done>
    requires Sound(s) && CallOf(make, s, r.mode, r.input, r.room).Returned?
  {
    var next := CallOf(make, s, r.mode, r.input, r.room).next;
    if next.Open? || (s.Idle? && r.mode == Continue && r.input == []) then []
    else
      var open := Opened(make, s, r.mode, |r.input|).value;
      [Done(open.coder, TurnOf(open.coder, open.past, r.mode, r.input, r.room).value.history)]
  }

  lemma CallTakes(make: Maker, s: Session, mode: Directive, input: seq<byte>, room: nat)
    requires Sound(s)
    ensures match CallOf(make, s, mode, input, room)
            case Refused(taken, given) => taken <= |input| && |given| <= room
            case Returned(_, taken, given, next) => taken <= |input| && |given| <= room && Sound(next)
  {
    hide Emitted, Ingested;
    var open := Opened(make, s, mode, |input|);
    if open.Some? && !(s.Idle? && mode == Continue && input == []) {
      var c, p := open.value.coder, open.value.past;
      StuckGrows(c, p, input, room);
      if TurnOf(c, p, mode, input, room).Some? {
        TurnGrows(c, p, mode, input, room);
      }
    }
  }

  /** A run of calls, each made on the session the one before left. */
  ghost function Run(make: Maker, calls: seq<Request>): (t: Option<Trace>)
    ensures t.Some? ==> Sound(t.value.session)
  {
    if calls == [] then Some(Trace([], Idle(None, (0, 0)), [], [], 0))
    else
      var last := calls[|calls| - 1];
      match Run(make, calls[..|calls| - 1])
      case None => None
      case Some(t) =>
        CallTakes(make, t.session, last.mode, last.input, last.room);
        Ask(make, t, last)
  }

  /** Everything fed to a list of completed frames, and everything they emitted. */
  ghost function FedTo(frames: seq<Done>): seq<byte> {
    if frames == [] then [] else FedTo(frames[..|frames| - 1]) + Ingested(frames[|frames| - 1].history)
  }

  ghost function EmittedBy(frames: seq<Done>): seq<byte> {
    if frames == [] then []
    else
      var last := frames[|frames| - 1];
      EmittedBy(frames[..|frames| - 1]) + Emitted(last.coder, last.history)
  }

  lemma FramesGrow(frames: seq<Done>, f: Done)
    ensures FedTo(frames + [f]) == FedTo(frames) + Ingested(f.history)
    ensures EmittedBy(frames + [f]) == EmittedBy(frames) + Emitted(f.coder, f.history)
  {
    assert (frames + [f])[..|frames|] == frames;
  }

  /** Requests in the order an encoder may see them: chunks of 1 to 128 KiB, at most
      one Finished, and nothing but flushes after it. */
  ghost predicate Disciplined(history: seq<Event>) {
    && (forall i :: 0 <= i < |history| && history[i].Fed? ==> 0 < |history[i].bytes| <= 131_072)
    && (forall i, j :: 0 <= i < j < |history| && history[i] == Finished ==> history[j] == Flushed)
  }

  lemma {:induction false} PumpedDisciplined(c: Coder, history: seq<Event>, limit: nat, input: seq<byte>)
    requires Disciplined(history) && Pumped(c, history, limit, input).Some?
    ensures Disciplined(Pumped(c, history, limit, input).value)
    decreases |input|
  {
    hide Emitted;
    if !(input == [] || Finished in history || |Emitted(c, history)| >= limit) {
      PumpedDisciplined(c, history + [Fed(NextChunk(input))], limit, input[|NextChunk(input)|..]);
    }
  }

  lemma TurnDisciplined(c: Coder, p: Past, mode: Directive, input: seq<byte>, room: nat)
    requires Disciplined(p.history) && TurnOf(c, p, mode, input, room).Some?
    ensures Disciplined(TurnOf(c, p, mode, input, room).value.history)
  {
    hide Emitted, Pumped;
    PumpedDisciplined(c, p.history, |p.handed| + room, input);
  }

  /** What a run conserves. Input: every byte taken was fed to exactly one frame, once
      and in order. Output: what the caller received is every completed frame's whole
      output, then a prefix of the running frame's, and the return value counts the
      rest. Completed frames are closed. */
  ghost predicate Conserved(t: Trace) {
    && (forall i :: 0 <= i < |t.frames| ==> Finished in t.frames[i].history && Disciplined(t.frames[i].history))
    && match t.session
       case Idle(_, _) =>
         && t.taken == FedTo(t.frames)
         && t.given == EmittedBy(t.frames)
         && t.pending == 0
       case Open(c, past, _) =>
         && Disciplined(past.history)
         && t.taken == FedTo(t.frames) + Ingested(past.history)
         && t.given == EmittedBy(t.frames) + past.handed
         && past.handed <= Emitted(c, past.history)
         && t.pending == |Emitted(c, past.history)| - |past.handed|
  }

  /** The running frame's share of the totals, with an empty frame for none. */
  ghost predicate Balanced(t: Trace, c: Coder, past: Past) {
    && (forall i :: 0 <= i < |t.frames| ==> Finished in t.frames[i].history && Disciplined(t.frames[i].history))
    && Disciplined(past.history) && past.handed <= Emitted(c, past.history)
    && t.taken == FedTo(t.frames) + Ingested(past.history)
    && t.given == EmittedBy(t.frames) + past.handed
  }

  lemma TurnConserves(t: Trace, c: Coder, past: Past, past': Past, r: Request)
    requires Balanced(t, c, past) && TurnOf(c, past, r.mode, r.input, r.room) == Some(past')
    ensures |Ingested(past.history)| <= |Ingested(past'.history)| <= |Ingested(past.history)| + |r.input|
    ensures |past.handed| <= |past'.handed| <= |Emitted(c, past'.history)|
    ensures past'.handed <= Emitted(c, past'.history) && Disciplined(past'.history)
    ensures r.mode == End ==> Finished in past'.history
    ensures t.taken + r.input[..|Ingested(past'.history)| - |Ingested(past.history)|]
         == FedTo(t.frames) + Ingested(past'.history)
    ensures t.given + past'.handed[|past.handed|..] == EmittedBy(t.frames) + past'.handed
  {
    hide Emitted, Ingested, TurnOf, FedTo, EmittedBy;
    TurnGrows(c, past, r.mode, r.input, r.room);
    TurnDisciplined(c, past, r.mode, r.input, r.room);
    var n := |Ingested(past'.history)| - |Ingested(past.history)|;
    assert (FedTo(t.frames) + Ingested(past.history)) + r.input[..n]
        == FedTo(t.frames) + (Ingested(past.history) + r.input[..n]);
    assert past.handed + past'.handed[|past.handed|..] == past'.handed;
    assert (EmittedBy(t.frames) + past.handed) + past'.handed[|past.handed|..]
        == EmittedBy(t.frames) + (past.handed + past'.handed[|past.handed|..]);
  }

  lemma CallConserves(make: Maker, t: Trace, r: Request)
    requires Sound(t.session) && Conserved(t) && Ask(make, t, r).Some?
    ensures Conserved(Ask(make, t, r).value)
  {
    hide Emitted, Ingested, TurnOf, FedTo, EmittedBy, Disciplined;
    var t' := Ask(make, t, r).value;
    if t.session.Idle? && r.mode == Continue && r.input == [] {
      assert t'.taken == t.taken && t'.given == t.given && t'.frames == t.frames;
    } else {
      var open := Opened(make, t.session, r.mode, |r.input|).value;
      if t.session.Idle? {
        EmptyFrame(t, open.coder);
      }
      var past' := TurnOf(open.coder, open.past, r.mode, r.input, r.room).value;
      TurnConserves(t, open.coder, open.past, past', r);
      if t'.session.Idle? {
        FramesGrow(t.frames, Done(open.coder, past'.history));
      } else {
        assert t'.frames == t.frames;
      }
    }
  }

  lemma EmptyFrame(t: Trace, c: Coder)
    requires Conserved(t) && t.session.Idle?
    ensures Balanced(t, c, Past([], []))
  {
    hide FedTo, EmittedBy;
    assert FedTo(t.frames) + [] == FedTo(t.frames) && EmittedBy(t.frames) + [] == EmittedBy(t.frames);
  }

  /** Every error-free run of calls conserves input and output. */
  lemma {:induction false} RunConserves(make: Maker, calls: seq<Request>)
    requires Run(make, calls).Some?
    ensures Conserved(Run(make, calls).value)
  {
    if calls != [] {
      var last := |calls| - 1;
      RunConserves(make, calls[..last]);
      CallConserves(make, Run(make, calls[..last]).value, calls[last]);
    }
  }

  /** Each call offers some stretch of one input, starting where the calls before it
      stopped taking. */
  ghost predicate Slices(make: Maker, calls: seq<Request>, data: seq<byte>) {
    calls != [] ==>
      var t := Run(make, calls[..|calls| - 1]);
      && Slices(make, calls[..|calls| - 1], data)
      && (t.Some? ==> t.value.taken + calls[|calls| - 1].input <= data)
  }

  /** However the input is sliced, what was taken is a prefix of it: no byte is
      skipped, repeated or reordered. */
  lemma {:induction false} RunTakesPrefix(make: Maker, calls: seq<Request>, data: seq<byte>)
    requires Slices(make, calls, data) && Run(make, calls).Some?
    ensures Run(make, calls).value.taken <= data
  {
    if calls != [] {
      var r := calls[|calls| - 1];
      var t := Run(make, calls[..|calls| - 1]).value;
      RunTakesPrefix(make, calls[..|calls| - 1], data);
      CallTakes(make, t.session, r.mode, r.input, r.room);
      var t' := Run(make, calls).value;
      assert t'.taken == t.taken + r.input[..|t'.taken| - |t.taken|];
      assert t'.taken <= t.taken + r.input;
    }
  }

  /** A call that still owes output has filled the caller's buffer, so a caller that
      offers room always makes progress. */
  lemma OwingMeansFull(make: Maker, s: Session, mode: Directive, input: seq<byte>, room: nat)
    requires Sound(s)
    ensures match CallOf(make, s, mode, input, room)
            case Refused(_, _) => true
            case Returned(pending, taken, given, next) =>
              && (pending > 0 ==> |given| == room && next.Open?)
              && (mode == End ==> (next.Idle? <==> pending == 0) && (next.Open? ==> Finished in next.past.history))
              && (taken < |input| && mode != End && next.Open? ==> |given| == room || Finished in next.past.history)
  {
    hide Emitted, Ingested;
    var open := Opened(make, s, mode, |input|);
    if CallOf(make, s, mode, input, room).Returned? && open.Some? && !(s.Idle? && mode == Continue && input == []) {
      var c, p := open.value.coder, open.value.past;
      TurnGrows(c, p, mode, input, room);
      PumpedFeeds(c, p.history, |p.handed| + room, input);
      var pumped := Pumped(c, p.history, |p.handed| + room, input).value;
      var asks := Closing(pumped, mode);
      if asks == [] {
        assert pumped + asks == pumped;
      } else {
        assert asks == [asks[0]];
        EmittedGrows(c, pumped, asks[0]);
      }
    }
  }

  /** A call on a closed frame never fails when it asks for the end again: it takes no
      input, and hands out the next of what is owed. */
  lemma EndAgain(s: Session, input: seq<byte>, room: nat)
    requires s.Open? && Sound(s) && Finished in s.past.history
    ensures var all := Emitted(s.coder, s.past.history);
            var upto := Min(|all|, |s.past.handed| + room);
            var next := if upto == |all| then Idle(None, (|Ingested(s.past.history)|, upto))
                        else Open(s.coder, Past(s.past.history, all[..upto]), s.last);
            OpenCall(s, End, input, room) == Returned(|all| - upto, 0, all[|s.past.handed|..upto], next)
  {
    hide Emitted, Ingested;
    assert Pumped(s.coder, s.past.history, |s.past.handed| + room, input) == Some(s.past.history);
    assert s.past.history + [] == s.past.history;
    var all := Emitted(s.coder, s.past.history);
    var upto := Min(|all|, |s.past.handed| + room);
    assert all[..upto][|s.past.handed|..] == all[|s.past.handed|..upto];
  }

  /** Repeating End: the calls that drain a closed frame, stopping once it is retired. */
  ghost function Drained(s: Session, rooms: seq<nat>): (r: (seq<byte>, Session))
    requires Sound(s)
    ensures Sound(r.1)
    decreases |rooms|
  {
    if rooms == [] || s.Idle? then ([], s)
    else
      match OpenCall(s, End, [], rooms[0])
      case Refused(_, _) => ([], s)
      case Returned(_, _, given, next) =>
        CallTakes(_ => None, s, End, [], rooms[0]);
        var (rest, last) := Drained(next, rooms[1..]);
        (given + rest, last)
  }

  /** Draining ends: with a byte of room in each of as many calls as bytes are owed
      (one when none are), the frame completes and every owed byte was given. */
  lemma {:induction false} EndDrains(s: Session, rooms: seq<nat>)
    requires s.Open? && Sound(s) && Finished in s.past.history
    requires forall i :: 0 <= i < |rooms| ==> rooms[i] > 0
    requires |rooms| >= Max(1, |Emitted(s.coder, s.past.history)| - |s.past.handed|)
    ensures var (given, last) := Drained(s, rooms);
            && given == Emitted(s.coder, s.past.history)[|s.past.handed|..]
            && last == Idle(None, (|Ingested(s.past.history)|, |Emitted(s.coder, s.past.history)|))
    decreases |rooms|
  {
    hide Emitted, Ingested, OpenCall;
    var all := Emitted(s.coder, s.past.history);
    EndAgain(s, [], rooms[0]);
    var next := OpenCall(s, End, [], rooms[0]).next;
    if next.Open? {
      EndDrains(next, rooms[1..]);
      var at := |next.past.handed|;
      assert all[|s.past.handed|..at] + all[at..] == all[|s.past.handed|..];
    } else {
      assert all[|s.past.handed|..|all|] + [] == all[|s.past.handed|..];
    }
  }

  /** The requests that feed all of `input`. */
  ghost function Chunked(input: seq<byte>): seq<Event>
    decreases |input|
  {
    if input == [] then [] else [Fed(NextChunk(input))] + Chunked(input[|NextChunk(input)|..])
  }

  /** The encoder accepts every chunk of the input. */
  ghost predicate Accepts(c: Coder, history: seq<Event>, input: seq<byte>)
    decreases |input|
  {
    input != [] ==>
      var e := Fed(NextChunk(input));
      c.emit(history, e).Some? && Accepts(c, history + [e], input[|NextChunk(input)|..])
  }

  lemma {:induction false} EmittedMonotone(c: Coder, history: seq<Event>, more: seq<Event>)
    ensures |Emitted(c, history)| <= |Emitted(c, history + more)|
  {
    if more == [] {
      assert history + more == history;
    } else {
      EmittedMonotone(c, history, more[..|more| - 1]);
      assert (history + more)[..|history + more| - 1] == history + more[..|more| - 1];
    }
  }

  /** End does not drain the input: an End call takes all of it exactly when
      everything emitted before its last chunk fits in the caller's room. The frame
      is closed either way, and what was left over can never be fed to it. */
  lemma {:induction false} PumpTakesAllIff(c: Coder, history: seq<Event>, limit: nat, input: seq<byte>)
    requires Finished !in history && input != [] && Accepts(c, history, input)
    ensures Pumped(c, history, limit, input).Some?
    ensures var whole := history + Chunked(input);
            Pumped(c, history, limit, input) == Some(whole)
            <==> |Emitted(c, whole[..|whole| - 1])| < limit
    decreases |input|
  {
    hide Emitted;
    var chunk := NextChunk(input);
    var e, rest := Fed(chunk), input[|chunk|..];
    var whole := history + Chunked(input);
    ChunkedSplits(history, input);
    if |Emitted(c, history)| >= limit {
      EmittedMonotone(c, history, whole[|history|..|whole| - 1]);
      assert whole[..|whole| - 1] == history + whole[|history|..|whole| - 1];
    } else if rest != [] {
      PumpTakesAllIff(c, history + [e], limit, rest);
    }
  }

  lemma ChunkedSplits(history: seq<Event>, input: seq<byte>)
    requires input != []
    ensures var e, rest := Fed(NextChunk(input)), input[|NextChunk(input)|..];
            var whole := history + Chunked(input);
            && whole == (history + [e]) + Chunked(rest)
            && |whole| > |history| && whole[..|history|] == history
            && (rest == [] ==> whole == history + [e] && whole[..|whole| - 1] == history)
  {
  }

  /** With no room at all, End closes the frame over input it has not taken, and the
      next End calls cannot take it either. */
  lemma EndLeavesInput(make: Maker, s: Session, input: seq<byte>)
    requires s.Open? && Sound(s) && s.past.handed == Emitted(s.coder, s.past.history)
    requires Finished !in s.past.history && input != []
    requires s.coder.emit(s.past.history, Finished).Some?
    ensures var o := CallOf(make, s, End, input, 0);
            && o.Returned? && o.taken == 0
            && (o.next.Open? ==>
                  && Sound(o.next) && Finished in o.next.past.history
                  && forall room ::
                       OpenCall(o.next, End, input, room).Returned? && OpenCall(o.next, End, input, room).taken == 0)
  {
    hide Emitted, Ingested;
    var h := s.past.history;
    EmittedGrows(s.coder, h, Finished);
    assert (h + [Finished])[|h|] == Finished;
    CallTakes(make, s, End, input, 0);
    var o := CallOf(make, s, End, input, 0);
    if o.Returned? && o.next.Open? {
      forall room: nat
        ensures OpenCall(o.next, End, input, room).Returned? && OpenCall(o.next, End, input, room).taken == 0
      {
        EndAgain(o.next, input, room);
      }
    }
  }

  // ------------------------------------------------------------------
  // What each directive asks the encoder for
  // ------------------------------------------------------------------

  predicate AllFed(events: seq<Event>) {
    forall i :: 0 <= i < |events| ==> events[i].Fed?
  }

  /** The pump feeds, and asks for nothing else. */
  lemma {:induction false} PumpOnlyFeeds(c: Coder, history: seq<Event>, limit: nat, input: seq<byte>)
    requires Pumped(c, history, limit, input).Some?
    ensures var h := Pumped(c, history, limit, input).value;
            history <= h && AllFed(h[|history|..]) && (Finished in history ==> h == history)
    decreases |input|
  {
    hide Emitted;
    if !(input == [] || Finished in history || |Emitted(c, history)| >= limit) {
      var e := Fed(NextChunk(input));
      PumpOnlyFeeds(c, history + [e], limit, input[|NextChunk(input)|..]);
      var h := Pumped(c, history, limit, input).value;
      assert h[|history|..] == [e] + h[|history| + 1..];
    }
  }

  /** The requests of a call: chunks of input, then one Flushed on Flush, one Finished on
      End unless the frame was finished already, and nothing more on Continue. */
  ghost predicate Asks(before: seq<Event>, feeds: seq<Event>, mode: Directive, after: seq<Event>) {
    && AllFed(feeds)
    && after == before + feeds + match mode
                                 case Continue => []
                                 case Flush => [Flushed]
                                 case End => if Finished in before then [] else [Finished]
  }

  lemma TurnAsks(c: Coder, p: Past, mode: Directive, input: seq<byte>, room: nat) returns (feeds: seq<Event>)
    requires TurnOf(c, p, mode, input, room).Some?
    ensures Asks(p.history, feeds, mode, TurnOf(c, p, mode, input, room).value.history)
    ensures Finished in p.history ==> feeds == []
  {
    hide Emitted, Pumped;
    var limit := |p.handed| + room;
    PumpOnlyFeeds(c, p.history, limit, input);
    var h := Pumped(c, p.history, limit, input).value;
    feeds := h[|p.history|..];
    assert h == p.history + feeds;
    FeedsDoNotFinish(p.history, feeds);
  }

  lemma FeedsDoNotFinish(before: seq<Event>, feeds: seq<Event>)
    requires AllFed(feeds)
    ensures Finished in before + feeds <==> Finished in before
  {
    if Finished in before {
      var i :| 0 <= i < |before| && before[i] == Finished;
      assert (before + feeds)[i] == Finished;
    }
  }

  /** The frame a call works in: the one in progress, or a new one. */
  function Begun(s: Session): seq<Event> {
    if s.Open? then s.past.history else []
  }

  /** Flush flushes: a call with it that returns leaves its frame open, its last request a
      flush, and before that only input since the call began. If it returns 0, everything
      emitted up to and including that flush has been handed out. */
  lemma FlushAsks(make: Maker, s: Session, input: seq<byte>, room: nat)
    requires Sound(s) && CallOf(make, s, Flush, input, room).Returned?
    ensures var o := CallOf(make, s, Flush, input, room);
            && o.next.Open?
            && (exists feeds :: AllFed(feeds) && o.next.past.history == Begun(s) + feeds + [Flushed])
            && (o.pending == 0 <==> o.next.past.handed == Emitted(o.next.coder, o.next.past.history))
  {
    hide Emitted, Ingested, TurnOf;
    var open := Opened(make, s, Flush, |input|).value;
    var feeds := TurnAsks(open.coder, open.past, Flush, input, room);
    TurnGrows(open.coder, open.past, Flush, input, room);
  }

  /** Continue only feeds; without input and without a frame it does nothing. */
  lemma ContinueAsks(make: Maker, s: Session, input: seq<byte>, room: nat)
    requires Sound(s) && CallOf(make, s, Continue, input, room).Returned?
    ensures var o := CallOf(make, s, Continue, input, room);
            if s.Idle? && input == [] then o == Returned(0, 0, [], s)
            else o.next.Open? && exists feeds :: AllFed(feeds) && o.next.past.history == Begun(s) + feeds
  {
    hide Emitted, Ingested, TurnOf;
    if !(s.Idle? && input == []) {
      var open := Opened(make, s, Continue, |input|).value;
      var feeds := TurnAsks(open.coder, open.past, Continue, input, room);
      assert Begun(s) + feeds + [] == Begun(s) + feeds;
    }
  }

  /** End adds exactly one Finished, behind input only, and to a finished frame nothing;
      the frame is retired, with all it was fed and all it emitted as the totals, exactly
      when that is all handed out. */
  lemma EndAsks(make: Maker, s: Session, input: seq<byte>, room: nat)
    requires Sound(s) && CallOf(make, s, End, input, room).Returned?
    ensures var o := CallOf(make, s, End, input, room);
            exists c, feeds, history ::
              && (s.Open? ==> c == s.coder)
              && AllFed(feeds) && history == Begun(s) + feeds + (if Finished in Begun(s) then [] else [Finished])
              && if o.pending == 0 then o.next == Idle(None, (|Ingested(history)|, |Emitted(c, history)|))
                 else o.next.Open? && o.next.coder == c && o.next.past.history == history
  {
    hide Emitted, Ingested, TurnOf;
    var o := CallOf(make, s, End, input, room);
    var open := Opened(make, s, End, |input|).value;
    var c := open.coder;
    var feeds := TurnAsks(c, open.past, End, input, room);
    TurnGrows(c, open.past, End, input, room);
    var past' := TurnOf(c, open.past, End, input, room).value;
    var history := past'.history;
    assert history == Begun(s) + feeds + (if Finished in Begun(s) then [] else [Finished]);
  }
}
