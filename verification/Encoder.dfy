/** The streaming encoder pump: an encoder that appends to a sink, and a delivered
    cursor that hands the sink to the caller. */
module Encoders {
  import opened Bytes

  /** Input fed to the encoder per pump step. */
  const FEED_CHUNK: nat := 128 * 1024

  datatype Directive = Continue | Flush | End

  /** What the encoder is asked to do, in order. */
  datatype Event = Fed(bytes: seq<byte>) | Flushed | Finished

  datatype EncodeError = EncodeFailed

  /** An encoder: what each request emits, as an unspecified function of all
      requests before it; None is an error. */
  datatype Coder = Coder(emit: (seq<Event>, Event) -> Option<seq<byte>>)

  /** Everything emitted over a history of accepted requests. */
  ghost function Emitted(c: Coder, history: seq<Event>): seq<byte> {
    if history == [] then []
    else
      var before := history[..|history| - 1];
      var piece := c.emit(before, history[|history| - 1]);
      Emitted(c, before) + if piece.Some? then piece.value else []
  }

  /** Every byte fed over a history. */
  function Ingested(history: seq<Event>): seq<byte> {
    if history == [] then []
    else
      var last := history[|history| - 1];
      Ingested(history[..|history| - 1]) + if last.Fed? then last.bytes else []
  }

  lemma EmittedGrows(c: Coder, history: seq<Event>, e: Event)
    requires c.emit(history, e).Some?
    ensures Emitted(c, history + [e]) == Emitted(c, history) + c.emit(history, e).value
    ensures Ingested(history + [e]) == Ingested(history) + if e.Fed? then e.bytes else []
  {
    assert (history + [e])[..|history|] == history;
  }

  /** The next piece of input the pump feeds. */
  function NextChunk(input: seq<byte>): (chunk: seq<byte>)
    ensures |chunk| <= |input| && chunk == input[..|chunk|]
    ensures input != [] ==> chunk != []
  {
    input[..Min(|input|, FEED_CHUNK)]
  }

  /** The pump, as a run of requests: input is fed chunk by chunk for as long as
      everything emitted so far fits below `limit`, a position in the frame's
      output, and the frame is open. None when the encoder rejects a chunk. */
  ghost function Pumped(c: Coder, history: seq<Event>, limit: nat, input: seq<byte>): Option<seq<Event>>
    decreases |input|
  {
    if input == [] || Finished in history || |Emitted(c, history)| >= limit then Some(history)
    else
      var e := Fed(NextChunk(input));
      if c.emit(history, e).None? then None
      else Pumped(c, history + [e], limit, input[|NextChunk(input)|..])
  }

  /** How far the pump gets: to its end, or to the chunk the encoder rejects. */
  ghost function Reached(c: Coder, history: seq<Event>, limit: nat, input: seq<byte>): seq<Event>
    decreases |input|
  {
    if input == [] || Finished in history || |Emitted(c, history)| >= limit then history
    else
      var e := Fed(NextChunk(input));
      if c.emit(history, e).None? then history
      else Reached(c, history + [e], limit, input[|NextChunk(input)|..])
  }

  /** What the directive asks for once the pump stops. */
  function Closing(history: seq<Event>, mode: Directive): seq<Event> {
    match mode
    case Continue => []
    case Flush => [Flushed]
    case End => if Finished in history then [] else [Finished]
  }

  /** The requests a whole call makes. */
  ghost function Called(c: Coder, history: seq<Event>, limit: nat, input: seq<byte>, mode: Directive)
    : Option<seq<Event>>
  {
    var pumped := Pumped(c, history, limit, input);
    if pumped.None? then None
    else
      var asks := Closing(pumped.value, mode);
      if asks != [] && c.emit(pumped.value, asks[0]).None? then None
      else Some(pumped.value + asks)
  }

  lemma PumpedOnce(c: Coder, history: seq<Event>, limit: nat, input: seq<byte>, pos: nat)
    requires pos < |input| && Finished !in history && |Emitted(c, history)| < limit
    ensures var chunk := NextChunk(input[pos..]);
            && input[pos..] != []
            && Pumped(c, history, limit, input[pos..])
            == (if c.emit(history, Fed(chunk)).None? then None
                else Pumped(c, history + [Fed(chunk)], limit, input[pos + |chunk|..]))
            && Reached(c, history, limit, input[pos..])
            == (if c.emit(history, Fed(chunk)).None? then history
                else Reached(c, history + [Fed(chunk)], limit, input[pos + |chunk|..]))
  {
    var chunk := NextChunk(input[pos..]);
    assert input[pos..][|chunk|..] == input[pos + |chunk|..];
  }

  /** A frame in progress: the requests made so far and the output handed over. */
  datatype Past = Past(history: seq<Event>, handed: seq<byte>)

  /** One call, as a function: the requests it makes, then as much of everything
      emitted as the caller's room allows. None when the encoder fails. */
  ghost function TurnOf(c: Coder, p: Past, mode: Directive, input: seq<byte>, room: nat): Option<Past> {
    var limit := |p.handed| + room;
    match Called(c, p.history, limit, input, mode)
    case None => None
    case Some(history) =>
      var all := Emitted(c, history);
      Some(Past(history, all[..Min(|all|, limit)]))
  }

  /** A call that fails, as a function: it has fed what the pump got through and handed
      out as much of its output as the caller's room allows. */
  ghost function StuckOf(c: Coder, p: Past, input: seq<byte>, room: nat): Past {
    var limit := |p.handed| + room;
    var history := Reached(c, p.history, limit, input);
    var all := Emitted(c, history);
    Past(history, all[..Min(|all|, limit)])
  }

  lemma TurnStuck(c: Coder, p: Past, input: seq<byte>, room: nat, p': Past, owed: seq<byte>)
    requires p'.history == Reached(c, p.history, |p.handed| + room, input)
    requires p'.handed + owed == Emitted(c, p'.history)
    requires |p'.handed| == |p.handed| + room || (owed == [] && |p'.handed| <= |p.handed| + room)
    ensures StuckOf(c, p, input, room) == p'
  {
    assert Emitted(c, p'.history)[..|p'.handed|] == p'.handed;
  }

  /** What a failing call has fed and handed out is a start of what it was given and of
      what was emitted. */
  lemma {:induction false} ReachedFeeds(c: Coder, history: seq<Event>, limit: nat, input: seq<byte>)
    ensures var h := Reached(c, history, limit, input);
            var taken := |Ingested(h)| - |Ingested(history)|;
            && history <= h && Emitted(c, history) <= Emitted(c, h)
            && 0 <= taken <= |input| && Ingested(h) == Ingested(history) + input[..taken]
    decreases |input|
  {
    hide Emitted;
    assert input[..0] == [];
    if input != [] && Finished !in history && |Emitted(c, history)| < limit {
      var chunk := NextChunk(input);
      if c.emit(history, Fed(chunk)).Some? {
        EmittedGrows(c, history, Fed(chunk));
        ReachedFeeds(c, history + [Fed(chunk)], limit, input[|chunk|..]);
        ChunkThen(Ingested(history), input, |chunk|, Ingested(Reached(c, history, limit, input)));
      }
    }
  }

  lemma TurnMade(c: Coder, p: Past, mode: Directive, input: seq<byte>, room: nat,
                 pumped: seq<Event>, p': Past, owed: seq<byte>)
    requires Pumped(c, p.history, |p.handed| + room, input) == Some(pumped)
    requires Closing(pumped, mode) == [] || c.emit(pumped, Closing(pumped, mode)[0]).Some?
    requires p'.history == pumped + Closing(pumped, mode)
    requires p'.handed + owed == Emitted(c, p'.history)
    requires |p'.handed| == |p.handed| + room || (owed == [] && |p'.handed| <= |p.handed| + room)
    ensures TurnOf(c, p, mode, input, room) == Some(p')
  {
    assert Emitted(c, p'.history)[..|p'.handed|] == p'.handed;
  }

  lemma ChunkThen(before: seq<byte>, input: seq<byte>, n: nat, after: seq<byte>)
    requires n <= |input| && |before| + n <= |after| <= |before| + |input|
    requires after == before + input[..n] + input[n..][..|after| - |before| - n]
    ensures after == before + input[..|after| - |before|]
  {
    var rest := |after| - |before| - n;
    assert input[..n] + input[n..][..rest] == input[..n + rest];
  }

  /** The pump appends requests that feed a prefix of the input, once and in
      order; it stops short only when the output is full or the frame is closed. */
  lemma {:induction false} PumpedFeeds(c: Coder, history: seq<Event>, limit: nat, input: seq<byte>)
    requires Pumped(c, history, limit, input).Some?
    ensures var h := Pumped(c, history, limit, input).value;
            var taken := |Ingested(h)| - |Ingested(history)|;
            && 0 <= taken <= |input|
            && Ingested(h) == Ingested(history) + input[..taken]
            && (taken < |input| ==> Finished in history || |Emitted(c, h)| >= limit)
    decreases |input|
  {
    hide Emitted;
    if input == [] || Finished in history || |Emitted(c, history)| >= limit {
      assert input[..0] == [];
    } else {
      var chunk := NextChunk(input);
      EmittedGrows(c, history, Fed(chunk));
      PumpedFeeds(c, history + [Fed(chunk)], limit, input[|chunk|..]);
      var h := Pumped(c, history, limit, input).value;
      ChunkThen(Ingested(history), input, |chunk|, Ingested(h));
    }
  }

  /** The pump only adds requests, none of which closes the frame. */
  lemma {:induction false} PumpedExtends(c: Coder, history: seq<Event>, limit: nat, input: seq<byte>)
    requires Pumped(c, history, limit, input).Some?
    ensures var h := Pumped(c, history, limit, input).value;
            && history <= h
            && Emitted(c, history) <= Emitted(c, h)
            && (Finished in h <==> Finished in history)
    decreases |input|
  {
    hide Emitted, Ingested;
    if input == [] || Finished in history || |Emitted(c, history)| >= limit {
    } else {
      var e := Fed(NextChunk(input));
      EmittedGrows(c, history, e);
      PumpedExtends(c, history + [e], limit, input[|NextChunk(input)|..]);
    }
  }

  /** Ingested and emitted totals never shrink over a call. */
  lemma TurnGrows(c: Coder, p: Past, mode: Directive, input: seq<byte>, room: nat)
    requires TurnOf(c, p, mode, input, room).Some?
    requires p.handed <= Emitted(c, p.history)
    ensures var p' := TurnOf(c, p, mode, input, room).value;
            var taken := |Ingested(p'.history)| - |Ingested(p.history)|;
            && p.history <= p'.history && p.handed <= p'.handed <= Emitted(c, p'.history)
            && 0 <= taken <= |input| && Ingested(p'.history) == Ingested(p.history) + input[..taken]
            && (Finished in p'.history <==> mode == End || Finished in p.history)
            && |p'.handed| - |p.handed| <= room
            && (p'.handed != Emitted(c, p'.history) ==> |p'.handed| - |p.handed| == room)
  {
    hide Emitted, Ingested, Pumped;
    PumpedFeeds(c, p.history, |p.handed| + room, input);
    PumpedExtends(c, p.history, |p.handed| + room, input);
    var h := Pumped(c, p.history, |p.handed| + room, input).value;
    var p' := TurnOf(c, p, mode, input, room).value;
    var asks := Closing(h, mode);
    if asks == [] {
      assert p'.history == h;
    } else {
      assert asks == [asks[0]];
      EmittedGrows(c, h, asks[0]);
      assert Finished in p'.history <==> Finished in h || asks[0] == Finished;
    }
  }

  lemma StuckGrows(c: Coder, p: Past, input: seq<byte>, room: nat)
    requires p.handed <= Emitted(c, p.history)
    ensures var p' := StuckOf(c, p, input, room);
            && 0 <= |Ingested(p'.history)| - |Ingested(p.history)| <= |input|
            && p.handed <= p'.handed && |p'.handed| - |p.handed| <= room
  {
    hide Emitted, Ingested, Reached;
    ReachedFeeds(c, p.history, |p.handed| + room, input);
  }

  /** After an End call the frame is closed. */
  lemma EndCloses(c: Coder, p: Past, mode: Directive, input: seq<byte>, room: nat)
    requires TurnOf(c, p, mode, input, room).Some?
    ensures mode == End ==> Finished in TurnOf(c, p, mode, input, room).value.history
  {
    var pumped := Pumped(c, p.history, |p.handed| + room, input).value;
    assert Closing(pumped, End) == [Finished] ==> (pumped + Closing(pumped, End))[|pumped|] == Finished;
  }

  /** The bytes added to `handed` are exactly the span written to the buffer. */
  ghost predicate Gave(handed: seq<byte>, before: seq<byte>, handed': seq<byte>, after: seq<byte>, a: nat, b: nat) {
    Wrote(before, after, a, b) && handed' == handed + after[a..b]
  }

  lemma GaveThen(handed: seq<byte>, before: seq<byte>, handed1: seq<byte>, middle: seq<byte>,
                 handed2: seq<byte>, after: seq<byte>, a: nat, b: nat, c: nat)
    requires Gave(handed, before, handed1, middle, a, b) && Gave(handed1, middle, handed2, after, b, c)
    ensures Gave(handed, before, handed2, after, a, c)
  {
    WroteThen(before, middle, after, a, b, c);
    assert handed + (middle[a..b] + after[b..c]) == (handed + middle[a..b]) + after[b..c];
  }

  /** The input bytes from `a` to `b` were fed, once and in order. */
  ghost predicate Took(history: seq<Event>, history': seq<Event>, input: seq<byte>, a: nat, b: nat) {
    a <= b <= |input| && Ingested(history') == Ingested(history) + input[a..b]
  }

  lemma TookThen(history: seq<Event>, history1: seq<Event>, history2: seq<Event>, input: seq<byte>,
                 a: nat, b: nat, c: nat)
    requires Took(history, history1, input, a, b) && Took(history1, history2, input, b, c)
    ensures Took(history, history2, input, a, c)
  {
    assert input[a..b] + input[b..c] == input[a..c];
  }

  /** The encoder's sink and cursor for one frame. */
  class StreamState {
    const coder: Coder
    var history: seq<Event>
    var sink: seq<byte>
    var delivered: nat
    var ingested: nat
    var flushed: nat
    var frameClosed: bool
    var finished: bool
    /** Everything handed to the caller. */
    ghost var handed: seq<byte>

    function Pending(): nat
      requires delivered <= |sink|
      reads this`sink, this`delivered
    {
      |sink| - delivered
    }

    /** The sink conserves the encoder's output. */
    ghost predicate Conserves()
      reads this`sink, this`delivered, this`handed, this`history, this`frameClosed
    {
      && delivered <= |sink|
      && handed + sink[delivered..] == Emitted(coder, history)
      && (frameClosed <==> Finished in history)
    }

    /** At call boundaries the counters are the true totals. */
    ghost predicate Valid()
      reads this
    {
      && Conserves()
      && ingested == |Ingested(history)|
      && flushed == |handed|
      && (finished ==> frameClosed && delivered == |sink|)
    }

    constructor (coder: Coder)
      ensures Valid() && this.coder == coder
      ensures history == [] && handed == [] && !frameClosed && !finished && sink == []
    {
      this.coder := coder;
      history, sink, delivered := [], [], 0;
      ingested, flushed, frameClosed, finished := 0, 0, false, false;
      handed := [];
    }

    /** Copy staged output into the caller's buffer, dropping the sink once it is
        drained. */
    method Deliver(out: array<byte>, pos: nat) returns (pos': nat)
      requires Conserves() && pos <= out.Length
      modifies this`sink, this`delivered, this`handed, out
      ensures Conserves()
      ensures pos <= pos' <= out.Length && Wrote(old(out[..]), out[..], pos, pos')
      ensures handed == old(handed) + out[pos..pos']
      ensures Pending() == old(Pending()) - (pos' - pos)
      ensures Pending() == 0 || pos' == out.Length
    {
      var take := Min(Pending(), out.Length - pos);
      ghost var before, owed := out[..], sink[delivered..];
      forall i | pos <= i < pos + take {
        out[i] := sink[delivered + (i - pos)];
      }
      pos' := pos + take;
      DeliverWrote(before, out[..], owed[..take], pos, pos');
      handed := handed + owed[..take];
      delivered := delivered + take;
      assert sink[delivered..] == owed[take..];
      assert (old(handed) + owed[..take]) + owed[take..] == old(handed) + owed;
      if delivered == |sink| {
        sink := [];
        delivered := 0;
        assert owed[take..] == [];
      }
    }

    /** One request to the encoder: its output is appended to the sink. */
    method Ask(e: Event) returns (ok: bool)
      requires Conserves() && (e.Finished? ==> !frameClosed)
      modifies this`history, this`sink, this`frameClosed
      ensures ok <==> coder.emit(old(history), e).Some?
      ensures Conserves()
      ensures ok ==> history == old(history) + [e] && Pending() >= old(Pending())
      ensures !ok ==> history == old(history) && sink == old(sink) && frameClosed == old(frameClosed)
      ensures ok ==> frameClosed == (old(frameClosed) || e.Finished?)
    {
      var piece := coder.emit(history, e);
      if piece.None? {
        return false;
      }
      EmittedGrows(coder, history, e);
      ghost var owed := sink[delivered..];
      history := history + [e];
      sink := sink + piece.value;
      assert sink[delivered..] == owed + piece.value;
      assert handed + (owed + piece.value) == (handed + owed) + piece.value;
      if e.Finished? {
        frameClosed := true;
      }
      return true;
    }

    /** Feed the encoder its next chunk of input. */
    method Feed(input: seq<byte>, inPos: nat) returns (ok: bool, inPos': nat)
      requires Conserves() && inPos < |input| && !frameClosed
      modifies this`history, this`sink, this`frameClosed
      ensures ok <==> coder.emit(old(history), Fed(NextChunk(input[inPos..]))).Some?
      ensures inPos <= inPos' <= |input|
      ensures Conserves()
      ensures !ok ==> inPos' == inPos && history == old(history) && sink == old(sink)
      ensures ok ==>
                && !frameClosed && inPos < inPos'
                && history == old(history) + [Fed(input[inPos..inPos'])]
                && NextChunk(input[inPos..]) == input[inPos..inPos']
    {
      hide Emitted, Ingested;
      var take := Min(|input| - inPos, FEED_CHUNK);
      inPos' := inPos;
      assert NextChunk(input[inPos..]) == input[inPos..inPos + take];
      ok := Ask(Fed(input[inPos..inPos + take]));
      if ok {
        inPos' := inPos + take;
      }
    }

    /** One round of the pump: deliver, then feed a chunk unless the output is
        full, the input is read, or the frame is closed. */
    method PumpRound(out: array<byte>, outPos: nat, input: seq<byte>, inPos: nat, ghost limit: nat)
      returns (ok: bool, more: bool, outPos': nat, inPos': nat)
      requires Conserves() && outPos <= out.Length && inPos <= |input|
      requires limit == |handed| + out.Length - outPos
      modifies this`sink, this`delivered, this`handed, this`history, this`frameClosed, out
      ensures outPos <= outPos' <= out.Length && Gave(old(handed), old(out[..]), handed, out[..], outPos, outPos')
      ensures inPos <= inPos' <= |input| && (more ==> ok && inPos < inPos')
      ensures Conserves() && Took(old(history), history, input, inPos, inPos')
      ensures Pumped(coder, old(history), limit, input[inPos..])
           == if more then Pumped(coder, history, limit, input[inPos'..])
              else if ok then Some(history) else None
      ensures Reached(coder, old(history), limit, input[inPos..])
           == if more then Reached(coder, history, limit, input[inPos'..]) else history
      ensures !more ==> Pending() == 0 || outPos' == out.Length
    {
      outPos' := Deliver(out, outPos);
      inPos', ok, more := inPos, true, false;
      assert input[inPos..inPos] == [];
      if outPos' < out.Length && inPos < |input| && !frameClosed {
        PumpedOnce(coder, history, limit, input, inPos);
        ok, inPos' := Feed(input, inPos);
        more := ok;
        if ok {
          EmittedGrows(coder, old(history), Fed(input[inPos..inPos']));
        }
      }
    }

    /** Rounds until one has nothing more to feed. */
    method Pump(out: array<byte>, outPos: nat, input: seq<byte>, inPos: nat)
      returns (ok: bool, outPos': nat, inPos': nat)
      requires Conserves() && outPos <= out.Length && inPos <= |input|
      modifies this`sink, this`delivered, this`handed, this`history, this`frameClosed, out
      ensures outPos <= outPos' <= out.Length && Gave(old(handed), old(out[..]), handed, out[..], outPos, outPos')
      ensures inPos <= inPos' <= |input|
      ensures Conserves() && Took(old(history), history, input, inPos, inPos')
      ensures Pumped(coder, old(history), |old(handed)| + out.Length - outPos, input[inPos..])
           == if ok then Some(history) else None
      ensures history == Reached(coder, old(history), |old(handed)| + out.Length - outPos, input[inPos..])
      ensures Pending() == 0 || outPos' == out.Length
    {
      outPos', inPos', ok := outPos, inPos, true;
      ghost var limit := |handed| + out.Length - outPos;
      assert out[outPos..outPos] == [] && input[inPos..inPos] == [];
      var more := true;
      while more
        invariant outPos <= outPos' <= out.Length
        invariant Gave(old(handed), old(out[..]), handed, out[..], outPos, outPos')
        invariant inPos <= inPos' <= |input| && (more ==> ok)
        invariant Conserves() && Took(old(history), history, input, inPos, inPos')
        invariant !more ==> Pending() == 0 || outPos' == out.Length
        invariant Reached(coder, old(history), limit, input[inPos..])
               == if more then Reached(coder, history, limit, input[inPos'..]) else history
        invariant Pumped(coder, old(history), limit, input[inPos..])
               == if more then Pumped(coder, history, limit, input[inPos'..])
                  else if ok then Some(history) else None
        decreases |input| - inPos', more
      {
        ghost var handed1, out1, outPos1, history1, inPos1 := handed, out[..], outPos', history, inPos';
        ok, more, outPos', inPos' := PumpRound(out, outPos', input, inPos', limit);
        GaveThen(old(handed), old(out[..]), handed1, out1, handed, out[..], outPos, outPos1, outPos');
        TookThen(old(history), history1, history, input, inPos, inPos1, inPos');
      }
    }

    /** What the directive asks for after the pump. A closed frame is not finished
        again, but it is flushed again. */
    method Close(mode: Directive) returns (ok: bool)
      requires Conserves()
      modifies this`history, this`sink, this`frameClosed
      ensures ok <==> Closing(old(history), mode) == [] || coder.emit(old(history), Closing(old(history), mode)[0]).Some?
      ensures Conserves()
      ensures ok ==> history == old(history) + Closing(old(history), mode)
      ensures !ok ==> history == old(history) && sink == old(sink)
      ensures ok ==> Ingested(history) == Ingested(old(history))
    {
      ok := true;
      match mode
      case Continue =>
        assert history + [] == history;
      case Flush =>
        ok := Ask(Flushed);
        if ok {
          EmittedGrows(coder, old(history), Flushed);
        }
      case End =>
        if frameClosed {
          assert history + [] == history;
        } else {
          ok := Ask(Finished);
          if ok {
            EmittedGrows(coder, old(history), Finished);
          }
        }
    }

    /** Pump, ask for what the directive wants, and deliver what that left. */
    method Serve(out: array<byte>, outPos: nat, input: seq<byte>, inPos: nat, mode: Directive)
      returns (ok: bool, outPos': nat, inPos': nat)
      requires Conserves() && outPos <= out.Length && inPos <= |input|
      modifies this`sink, this`delivered, this`handed, this`history, this`frameClosed, out
      ensures outPos <= outPos' <= out.Length && Wrote(old(out[..]), out[..], outPos, outPos')
      ensures inPos <= inPos' <= |input|
      ensures Conserves()
      ensures Gave(old(handed), old(out[..]), handed, out[..], outPos, outPos')
      ensures Took(old(history), history, input, inPos, inPos')
      ensures !ok ==> Past(history, handed) == StuckOf(coder, old(Past(history, handed)), input[inPos..], out.Length - outPos)
      ensures TurnOf(coder, old(Past(history, handed)), mode, input[inPos..], out.Length - outPos)
           == if ok then Some(Past(history, handed)) else None
    {
      hide Emitted, Ingested, Pumped, Wrote;
      ghost var past, room := Past(history, handed), out.Length - outPos;
      ok, outPos', inPos' := Pump(out, outPos, input, inPos);
      TurnStuck(coder, past, input[inPos..], room, Past(history, handed), sink[delivered..]);
      if !ok {
        return;
      }
      ghost var handed1, out1, outPos1, history1 := handed, out[..], outPos', history;
      ok := Close(mode);
      if !ok {
        return;
      }
      ghost var owed := sink[delivered..];
      outPos' := Deliver(out, outPos');
      GaveThen(old(handed), old(out[..]), handed1, out1, handed, out[..], outPos, outPos1, outPos');
      TurnMade(coder, past, mode, input[inPos..], room, history1, Past(history, handed), sink[delivered..]);
    }

    /** One call on an open frame: serve it, then bring the counters up to date. */
    method Turn(out: array<byte>, outPos: nat, input: seq<byte>, inPos: nat, mode: Directive)
      returns (ok: bool, outPos': nat, inPos': nat)
      requires Valid() && !finished && outPos <= out.Length && inPos <= |input|
      modifies this, out
      ensures outPos <= outPos' <= out.Length && Wrote(old(out[..]), out[..], outPos, outPos')
      ensures inPos <= inPos' <= |input|
      ensures Gave(old(handed), old(out[..]), handed, out[..], outPos, outPos')
      ensures Took(old(history), history, input, inPos, inPos')
      ensures ok ==> Valid() && finished == (mode.End? && Pending() == 0)
      ensures !ok ==> Past(history, handed) == StuckOf(coder, old(Past(history, handed)), input[inPos..], out.Length - outPos)
      ensures TurnOf(coder, old(Past(history, handed)), mode, input[inPos..], out.Length - outPos)
           == if ok then Some(Past(history, handed)) else None
    {
      ghost var past, room := Past(history, handed), out.Length - outPos;
      ok, outPos', inPos' := Serve(out, outPos, input, inPos, mode);
      if !ok {
        return;
      }
      EndCloses(coder, past, mode, input[inPos..], room);
      ingested := ingested + (inPos' - inPos);
      flushed := flushed + (outPos' - outPos);
      if mode == End && Pending() == 0 {
        finished := true;
      }
    }
  }

  /** A compression context between calls: no frame, or a frame in progress, with
      the totals of the last frame that finished. */
  datatype Session =
    | Idle(pledge: Option<nat>, last: (nat, nat))
    | Open(coder: Coder, past: Past, last: (nat, nat))

  /** What a call does: take `taken` input bytes, hand out `given`, and then either fail or
      return `pending` and leave a session. */
  datatype Outcome =
    | Refused(taken: nat, given: seq<byte>)
    | Returned(pending: nat, taken: nat, given: seq<byte>, next: Session)

  /** How encoders are made, from the pledged content size; None is a refusal. */
  type Maker = Option<nat> -> Option<Coder>

  /** The output handed over is a prefix of everything emitted. */
  ghost predicate Sound(s: Session) {
    s.Open? ==> s.past.handed <= Emitted(s.coder, s.past.history)
  }

  /** A call on an open frame. */
  ghost function OpenCall(s: Session, mode: Directive, input: seq<byte>, room: nat): Outcome
    requires s.Open? && Sound(s)
  {
    match TurnOf(s.coder, s.past, mode, input, room)
    case None =>
      var stuck := StuckOf(s.coder, s.past, input, room);
      StuckGrows(s.coder, s.past, input, room);
      Refused(|Ingested(stuck.history)| - |Ingested(s.past.history)|, stuck.handed[|s.past.handed|..])
    case Some(past) =>
      TurnGrows(s.coder, s.past, mode, input, room);
      var pending := |Emitted(s.coder, past.history)| - |past.handed|;
      var totals := (|Ingested(past.history)|, |past.handed|);
      Returned(pending, totals.0 - |Ingested(s.past.history)|, past.handed[|s.past.handed|..],
               if mode == End && pending == 0 then Idle(None, totals) else Open(s.coder, past, s.last))
  }

  /** The session a call works in: an idle one opens a frame first, its pledge
      overridden by the input size when the frame opens on End. */
  function Opened(make: Maker, s: Session, mode: Directive, size: nat): Option<Session> {
    match s
    case Open(_, _, _) => Some(s)
    case Idle(pledge, last) =>
      var coder := make(if mode == End then Some(size) else pledge);
      if coder.None? then None else Some(Open(coder.value, Past([], []), last))
  }

  /** A whole call, as a function of the session, the input offered and the room
      given. */
  ghost function CallOf(make: Maker, s: Session, mode: Directive, input: seq<byte>, room: nat): Outcome
    requires Sound(s)
  {
    if s.Idle? && mode == Continue && input == [] then Returned(0, 0, [], s)
    else
      match Opened(make, s, mode, |input|)
      case None => Refused(0, [])
      case Some(open) => OpenCall(open, mode, input, room)
  }

  lemma OpenCallRefused(c: Coder, p: Past, p': Past, mode: Directive, input: seq<byte>, inPos: nat, inPos': nat,
                        before: seq<byte>, after: seq<byte>, outPos: nat, outPos': nat, last: (nat, nat))
    requires p.handed <= Emitted(c, p.history) && inPos <= |input| && outPos <= |before|
    requires TurnOf(c, p, mode, input[inPos..], |before| - outPos).None?
    requires StuckOf(c, p, input[inPos..], |before| - outPos) == p'
    requires Gave(p.handed, before, p'.handed, after, outPos, outPos')
    requires Took(p.history, p'.history, input, inPos, inPos')
    ensures OpenCall(Open(c, p, last), mode, input[inPos..], |before| - outPos)
         == Refused(inPos' - inPos, after[outPos..outPos'])
  {
    hide Emitted, Ingested, StuckOf, TurnOf;
    assert p'.handed[|p.handed|..] == after[outPos..outPos'];
  }

  lemma OpenCallMade(c: Coder, p: Past, p': Past, mode: Directive, input: seq<byte>, inPos: nat, inPos': nat,
                     before: seq<byte>, after: seq<byte>, outPos: nat, outPos': nat, last: (nat, nat))
    requires p.handed <= Emitted(c, p.history) && inPos <= |input| && outPos <= |before|
    requires TurnOf(c, p, mode, input[inPos..], |before| - outPos) == Some(p')
    requires Gave(p.handed, before, p'.handed, after, outPos, outPos')
    requires Took(p.history, p'.history, input, inPos, inPos')
    ensures OpenCall(Open(c, p, last), mode, input[inPos..], |before| - outPos)
         == var pending := |Emitted(c, p'.history)| - |p'.handed|;
            Returned(pending, inPos' - inPos, after[outPos..outPos'],
                     if mode == End && pending == 0 then Idle(None, (|Ingested(p'.history)|, |p'.handed|))
                     else Open(c, p', last))
  {
    assert p'.handed[|p.handed|..] == after[outPos..outPos'];
  }

  class CCtx {
    const make: Maker
    var pledged: Option<nat>
    var stream: StreamState?
    var lastProgression: (nat, nat)
    var sticky: Option<EncodeError>

    ghost predicate Valid()
      reads this, stream
    {
      && (sticky.None? && stream != null ==> stream.Valid())
      && (sticky.None? && stream != null && stream.finished ==>
            lastProgression == (stream.ingested, stream.flushed))
    }

    /** The session as the next call will find it. */
    ghost function View(): (s: Session)
      reads this, stream
      ensures Valid() && sticky.None? ==> Sound(s)
    {
      if stream == null then Idle(pledged, lastProgression)
      else if stream.finished then Idle(None, lastProgression)
      else Open(stream.coder, Past(stream.history, stream.handed), lastProgression)
    }

    constructor (make: Maker)
      ensures Valid() && View() == Idle(None, (0, 0)) && sticky == None && this.make == make
    {
      this.make := make;
      pledged, stream, lastProgression, sticky := None, null, (0, 0), None;
    }

    /** Drop the frame, the error and the pledge. */
    method ResetSession()
      modifies this
      ensures Valid() && View() == Idle(None, old(lastProgression)) && sticky == None
    {
      stream, sticky, pledged := null, None, None;
    }

    /** Pledge the next frame's size; refused in the middle of a frame. While a
        finished frame has not been retired the pledge has no effect. */
    method SetPledged(size: Option<nat>) returns (ok: bool)
      requires Valid() && sticky.None?
      modifies this`pledged
      ensures Valid() && ok == old(View().Idle?)
      ensures View() == if stream == null then Idle(size, lastProgression) else old(View())
    {
      if stream != null && !stream.finished {
        return false;
      }
      pledged := size;
      return true;
    }

    /** Retire a finished frame, with its pledge. */
    method Retire()
      requires Valid() && sticky.None?
      modifies this`stream, this`pledged
      ensures Valid() && View() == old(View())
      ensures stream == null || (stream == old(stream) && !stream.finished)
    {
      if stream != null && stream.finished {
        stream, pledged := null, None;
      }
    }

    /** Open a frame unless one is in progress. */
    method OpenFrame(mode: Directive, size: nat) returns (ok: bool)
      requires Valid() && sticky.None?
      requires stream != null ==> !stream.finished
      modifies this`stream, this`sticky
      ensures Valid() && ok == sticky.None?
      ensures stream == old(stream) || (old(stream) == null && fresh(stream))
      ensures ok ==> stream != null && !stream.finished
      ensures Opened(make, old(View()), mode, size) == if ok then Some(View()) else None
    {
      if stream == null {
        var coder := make(if mode == End then Some(size) else pledged);
        if coder.None? {
          sticky := Some(EncodeFailed);
          return false;
        }
        stream := new StreamState(coder.value);
      }
      return true;
    }

    /** One call on the frame in progress. */
    method TurnFrame(out: array<byte>, outPos: nat, input: seq<byte>, inPos: nat, mode: Directive)
      returns (r: Result<nat, EncodeError>, outPos': nat, inPos': nat)
      requires Valid() && sticky.None? && stream != null && !stream.finished
      requires outPos <= out.Length && inPos <= |input|
      modifies this`sticky, this`lastProgression, stream, out
      ensures Valid() && r.Err? == sticky.Some?
      ensures outPos <= outPos' <= out.Length && Wrote(old(out[..]), out[..], outPos, outPos')
      ensures inPos <= inPos' <= |input|
      ensures Sound(old(View()))
      ensures OpenCall(old(View()), mode, input[inPos..], out.Length - outPos)
           == if r.Ok? then Returned(r.value, inPos' - inPos, out[outPos..outPos'], View())
              else Refused(inPos' - inPos, out[outPos..outPos'])
    {
      hide Wrote, TurnOf, StuckOf, OpenCall, Emitted, Ingested;
      ghost var past, before, last := Past(stream.history, stream.handed), out[..], lastProgression;
      assert past.handed <= Emitted(stream.coder, past.history);
      var ok;
      ok, outPos', inPos' := stream.Turn(out, outPos, input, inPos, mode);
      if !ok {
        sticky := Some(EncodeFailed);
        OpenCallRefused(stream.coder, past, Past(stream.history, stream.handed), mode, input, inPos, inPos',
                        before, out[..], outPos, outPos', last);
        return Err(EncodeFailed), outPos', inPos';
      }
      OpenCallMade(stream.coder, past, Past(stream.history, stream.handed), mode, input, inPos, inPos',
                   before, out[..], outPos, outPos', last);
      if stream.finished {
        lastProgression := (stream.ingested, stream.flushed);
      }
      return Ok(stream.Pending()), outPos', inPos';
    }

    /** One call once any finished frame is retired. */
    method Dispatch(out: array<byte>, outPos: nat, input: seq<byte>, inPos: nat, mode: Directive)
      returns (r: Result<nat, EncodeError>, outPos': nat, inPos': nat)
      requires Valid() && sticky.None? && (stream != null ==> !stream.finished)
      requires outPos <= out.Length && inPos <= |input|
      modifies this`sticky, this`lastProgression, this`stream, stream, out
      ensures Valid() && r.Err? == sticky.Some?
      ensures outPos <= outPos' <= out.Length && Wrote(old(out[..]), out[..], outPos, outPos')
      ensures inPos <= inPos' <= |input|
      ensures Sound(old(View()))
      ensures CallOf(make, old(View()), mode, input[inPos..], out.Length - outPos)
           == if r.Ok? then Returned(r.value, inPos' - inPos, out[outPos..outPos'], View())
              else Refused(inPos' - inPos, out[outPos..outPos'])
    {
      hide Wrote, TurnOf, StuckOf, OpenCall, Emitted, Ingested, StreamState.Conserves;
      WroteNone(out[..], outPos);
      outPos', inPos' := outPos, inPos;
      if stream == null && mode == Continue && inPos == |input| {
        return Ok(0), outPos, inPos;
      }
      var ok := OpenFrame(mode, |input| - inPos);
      if ok {
        r, outPos', inPos' := TurnFrame(out, outPos, input, inPos, mode);
      } else {
        assert out[outPos..outPos] == [];
        r := Err(EncodeFailed);
      }
    }

    /** One streaming call. A failure is remembered and replayed until a reset. */
    method CompressStream2(out: array<byte>, outPos: nat, input: seq<byte>, inPos: nat, mode: Directive)
      returns (r: Result<nat, EncodeError>, outPos': nat, inPos': nat)
      requires Valid() && outPos <= out.Length && inPos <= |input|
      modifies this, stream, out
      ensures Valid() && r.Err? == sticky.Some?
      ensures outPos <= outPos' <= out.Length && Wrote(old(out[..]), out[..], outPos, outPos')
      ensures inPos <= inPos' <= |input|
      ensures old(sticky).Some? ==>
                && r == Err(old(sticky).value) && sticky == old(sticky)
                && outPos' == outPos && inPos' == inPos
      ensures old(sticky).None? ==>
                && Sound(old(View()))
                && CallOf(make, old(View()), mode, input[inPos..], out.Length - outPos)
                == if r.Ok? then Returned(r.value, inPos' - inPos, out[outPos..outPos'], View())
                   else Refused(inPos' - inPos, out[outPos..outPos'])
    {
      hide Wrote, OpenCall, CallOf, StreamState.Conserves;
      WroteNone(out[..], outPos);
      if sticky.Some? {
        return Err(sticky.value), outPos, inPos;
      }
      Retire();
      r, outPos', inPos' := Dispatch(out, outPos, input, inPos, mode);
    }

    /** The running frame's counters, or the last finished frame's. */
    function FrameProgression(): (p: (nat, nat, nat, nat))
      reads this, stream
      requires Valid() && sticky.None?
      ensures match View()
              case Idle(_, last) => p == (last.0, last.0, last.1, last.1)
              case Open(_, past, _) =>
                && p.0 == p.1 == |Ingested(past.history)|
                && p.2 == p.3 == |past.handed|
    {
      var (ingested, flushed) :=
        if stream != null && !stream.finished then (stream.ingested, stream.flushed) else lastProgression;
      (ingested, ingested, flushed, flushed)
    }
  }
}
