/** Whole runs of the streaming decoder: every slicing of the input and of the
    output space across calls. */
module StreamRuns {
  import opened Bytes
  import opened FrameHeader
  import opened FrameWalk
  import opened BlockEngine
  import opened FrameContent
  import opened StreamSpec

  /** A run: each call and the progress it reached. */
  datatype Leg = Leg(call: Call, reached: Progress)

  /** The calls follow one another from progress `p`, each offering some of the
      stream from the caller's cursor `pos` on. */
  ghost predicate Driven(c: Codec, stream: seq<byte>, pos: nat, p: Progress, legs: seq<Leg>)
    decreases |legs|
  {
    legs == [] ||
    var Leg(call, q) := legs[0];
    && pos + |call.offered| <= |stream|
    && call.offered == stream[pos..pos + |call.offered|]
    && Step(c, p, call, q)
    && Driven(c, stream, pos + call.took, Next(call, q), legs[1..])
  }

  function Output(legs: seq<Leg>): seq<byte> {
    if legs == [] then [] else legs[0].call.gave + Output(legs[1..])
  }

  function Consumed(legs: seq<Leg>): nat {
    if legs == [] then 0 else legs[0].call.took + Consumed(legs[1..])
  }

  /** The frame at the head of the stream is in progress, `pos` bytes consumed. */
  ghost predicate OnTrack(c: Codec, stream: seq<byte>, pos: nat, p: Progress) {
    && Resting(c, p)
    && p.taken <= stream
    && pos + Held(p) == |p.taken|
  }

  /** The reach of the header hint while fewer than eight bytes of a skippable frame
      have been read: the sizes the parser wants next, a block header included. */
  function HeaderReach(n: nat): nat {
    if n < HEADER_PREFIX then 9 else 11
  }

  /** Reading `n` bytes of a skippable frame of `size` bytes the hint overshoots. */
  predicate Overshoots(stream: seq<byte>, n: nat, size: nat) {
    IsSkippable(stream) && n < SKIPPABLE_HEADER && size < HeaderReach(n)
  }

  /** What the reader wants in the header of a skippable frame. */
  lemma SkippableShortHint(c: Codec, s: seq<byte>, n: nat)
    requires IsSkippable(s) && n <= |s| && n < SKIPPABLE_HEADER
    ensures ScanFrame(c, s[..n]) == Scan([], More(HeaderReach(n) - n))
  {
    var t := s[..n];
    assert t + s[n..] == s;
    if n >= HEADER_PREFIX {
      assert t[..4] == s[..4];
    } else if n > 0 {
      MagicPrefixNecessary(t, s[n..]);
    }
    WantedScan(c, t);
  }

  /** How far a cursor and a hint together reach. */
  lemma HintReaches(c: Codec, stream: seq<byte>, q: Progress, hint: nat)
    requires Consistent(c, q) && q.taken <= stream && Hints(c, q, hint) && ScanFrame(c, stream).verdict.Done?
    ensures var size, pos := ScanFrame(c, stream).verdict.size, |q.taken| - Held(q);
            pos + hint <= size <==> !Overshoots(stream, pos, size)
  {
    hide ScanFrame, IsSkippable;
    assert q.taken == stream[..|q.taken|] && stream == q.taken + stream[|q.taken|..];
    ScanGrows(c, q.taken, stream[|q.taken|..]);
    if IsSkippable(stream) {
      SkippableScan(c, stream);
      if ScanFrame(c, q.taken).verdict.Done? {
        SkippableIsEmpty(c, q.taken, stream);
      }
      if |q.taken| < SKIPPABLE_HEADER {
        SkippableShortHint(c, stream, |q.taken|);
      }
    }
  }

  /** A skippable frame has no content, so its last byte is never held back. */
  lemma SkippableIsEmpty(c: Codec, taken: seq<byte>, stream: seq<byte>)
    requires IsSkippable(stream) && taken <= stream && ScanFrame(c, taken).verdict.Done?
    ensures ScanFrame(c, taken).out == [] && |taken| >= SKIPPABLE_HEADER
  {
    if |taken| < SKIPPABLE_HEADER {
      assert taken == stream[..|taken|];
      SkippableShortHint(c, stream, |taken|);
    } else {
      assert taken[..4] == stream[..4];
    }
  }

  lemma Prefixes(s: seq<byte>, a: nat, b: nat, n: nat)
    requires a <= b <= a + n <= |s|
    ensures s[..a] + s[a..a + n][..b - a] == s[..b]
  {
    assert s[a..a + n][..b - a] == s[a..b];
  }

  /** What one call preserves and answers, in terms of the whole stream. */
  lemma StepOnTrack(c: Codec, stream: seq<byte>, pos: nat, p: Progress, call: Call, q: Progress)
    requires OnTrack(c, stream, pos, p) && Step(c, p, call, q)
    requires pos + |call.offered| <= |stream| && call.offered == stream[pos..pos + |call.offered|]
    ensures call.hint != 0 ==> OnTrack(c, stream, pos + call.took, q)
    ensures call.hint == 0 ==> ScanFrame(c, stream) == Scan(q.given, Done(pos + call.took))
    ensures !ScanFrame(c, stream).verdict.Bad? ==> q.given <= ScanFrame(c, stream).out
    ensures ScanFrame(c, stream).verdict.Done? ==>
              var size := ScanFrame(c, stream).verdict.size;
              pos + call.took + call.hint <= size <==> !Overshoots(stream, pos + call.took, size)
  {
    hide ScanFrame, IsSkippable;
    if !p.hostage {
      var n := call.took + Held(q);
      Prefixes(stream, pos, pos + n, |call.offered|);
    }
    assert q.taken == stream[..|q.taken|];
    assert stream == q.taken + stream[|q.taken|..];
    ScanGrows(c, q.taken, stream[|q.taken|..]);
    assert q.given <= q.given + q.owed;
    if ScanFrame(c, stream).verdict.Done? {
      HintReaches(c, stream, q, call.hint);
    }
  }

  // ------------------------------------------------------------------
  // One frame
  // ------------------------------------------------------------------

  /** However the calls slice the input and the output space, the output of a
      run is a prefix of the frame's content; when a call answers 0 it is exactly
      that content and the frame is consumed to its last byte; and until then
      the cursor stays inside the frame, with the hint inside what is left. */
  lemma {:induction false} RunDelivers(c: Codec, stream: seq<byte>, pos: nat, p: Progress, legs: seq<Leg>)
    requires OnTrack(c, stream, pos, p) && Driven(c, stream, pos, p, legs)
    requires legs != [] && forall i :: 0 <= i < |legs| - 1 ==> legs[i].call.hint != 0
    requires ScanFrame(c, stream).verdict.Done?
    ensures Delivers(c, stream, pos + Consumed(legs), legs[|legs| - 1].call.hint, p.given + Output(legs))
    decreases |legs|
  {
    hide ScanFrame, IsSkippable, Step, OnTrack, Delivers;
    var Leg(call, q) := legs[0];
    StepDelivers(c, stream, pos, p, call, q);
    if |legs| == 1 {
      OneLeg(legs);
    } else {
      assert legs[1..][|legs| - 2] == legs[|legs| - 1];
      assert forall i :: 0 <= i < |legs| - 2 ==> legs[1..][i] == legs[i + 1];
      RunDelivers(c, stream, pos + call.took, q, legs[1..]);
      assert (p.given + call.gave) + Output(legs[1..]) == p.given + Output(legs);
    }
  }

  lemma OneLeg(legs: seq<Leg>)
    requires |legs| == 1
    ensures Output(legs) == legs[0].call.gave && Consumed(legs) == legs[0].call.took
  {
    assert legs[1..] == [];
    assert Output(legs[1..]) == [] && Consumed(legs[1..]) == 0;
    assert legs[0].call.gave + [] == legs[0].call.gave;
  }

  /** What a run has achieved once its caller stands at `pos` with `output` in
      hand and `hint` as the last answer. */
  ghost predicate Delivers(c: Codec, stream: seq<byte>, pos: nat, hint: nat, output: seq<byte>) {
    var scan := ScanFrame(c, stream);
    && scan.verdict.Done?
    && output <= scan.out
    && (hint == 0 ==> output == scan.out && pos == scan.verdict.size)
    && (pos + hint <= scan.verdict.size <==> !Overshoots(stream, pos, scan.verdict.size))
  }

  lemma StepDelivers(c: Codec, stream: seq<byte>, pos: nat, p: Progress, call: Call, q: Progress)
    requires OnTrack(c, stream, pos, p) && Step(c, p, call, q)
    requires pos + |call.offered| <= |stream| && call.offered == stream[pos..pos + |call.offered|]
    requires ScanFrame(c, stream).verdict.Done?
    ensures q.given == p.given + call.gave
    ensures Delivers(c, stream, pos + call.took, call.hint, q.given)
    ensures call.hint != 0 ==> OnTrack(c, stream, pos + call.took, q)
  {
    hide ScanFrame, IsSkippable;
    StepOnTrack(c, stream, pos, p, call, q);
  }

  lemma StepGives(c: Codec, p: Progress, call: Call, q: Progress)
    requires Step(c, p, call, q)
    ensures q.given == p.given + call.gave
  {
  }

  /** The hint is 0 exactly when the frame is consumed to its last byte and its
      output handed out. */
  lemma HintZeroIff(c: Codec, stream: seq<byte>, pos: nat, p: Progress, call: Call, q: Progress)
    requires OnTrack(c, stream, pos, p) && Step(c, p, call, q)
    requires pos + |call.offered| <= |stream| && call.offered == stream[pos..pos + |call.offered|]
    requires ScanFrame(c, stream).verdict.Done?
    ensures call.hint == 0 <==> pos + call.took == ScanFrame(c, stream).verdict.size && q.given == ScanFrame(c, stream).out
  {
    hide ScanFrame, IsSkippable, Eager;
    StepOnTrack(c, stream, pos, p, call, q);
    if call.hint != 0 {
      TakenBefore(c, stream, q);
    }
  }

  // ------------------------------------------------------------------
  // Progress
  // ------------------------------------------------------------------

  /** A call offered a byte to read and a byte to write moves a cursor. */
  lemma StepProgress(c: Codec, p: Progress, call: Call, q: Progress)
    requires Resting(c, p) && Step(c, p, call, q)
    requires call.offered != [] && call.room > 0
    ensures call.took > 0 || call.gave != []
  {
    hide ScanFrame;
    assert p.taken + call.offered[..0] == p.taken;
  }

  /** A driver that always offers a byte each way finishes any frame: the number
      of calls before the one that answers 0 is bounded by the frame's bytes and
      its content together. */
  lemma {:induction false} RunIsBounded(c: Codec, stream: seq<byte>, pos: nat, p: Progress, legs: seq<Leg>)
    requires OnTrack(c, stream, pos, p) && Driven(c, stream, pos, p, legs)
    requires forall i :: 0 <= i < |legs| ==> legs[i].call.hint != 0
    requires forall i :: 0 <= i < |legs| ==> legs[i].call.offered != [] && legs[i].call.room > 0
    requires ScanFrame(c, stream).verdict.Done?
    ensures pos <= ScanFrame(c, stream).verdict.size && |p.given| <= |ScanFrame(c, stream).out|
    ensures |legs| <= ScanFrame(c, stream).verdict.size - pos + |ScanFrame(c, stream).out| - |p.given|
    decreases |legs|
  {
    hide ScanFrame, IsSkippable, Step;
    assert stream == p.taken + stream[|p.taken|..];
    ScanGrows(c, p.taken, stream[|p.taken|..]);
    TakenWithin(c, stream, p);
    if legs != [] {
      var Leg(call, q) := legs[0];
      StepOnTrack(c, stream, pos, p, call, q);
      StepProgress(c, p, call, q);
      StepGives(c, p, call, q);
      RunIsBounded(c, stream, pos + call.took, q, legs[1..]);
    }
  }

  /** A frame in progress is short of its end, or has its last byte held back. */
  lemma TakenBefore(c: Codec, stream: seq<byte>, p: Progress)
    requires Resting(c, p) && p.taken <= stream && ScanFrame(c, stream).verdict.Done?
    ensures |p.taken| - Held(p) < ScanFrame(c, stream).verdict.size
  {
    hide ScanFrame, IsSkippable;
    TakenWithin(c, stream, p);
    if !p.hostage && |p.taken| == ScanFrame(c, stream).verdict.size {
      assert p.taken == stream[..|p.taken|];
      MoreNeedsMore(c, stream, |p.taken|);
    }
  }

  lemma TakenWithin(c: Codec, stream: seq<byte>, p: Progress)
    requires Resting(c, p) && p.taken <= stream && ScanFrame(c, stream).verdict.Done?
    ensures |p.taken| <= ScanFrame(c, stream).verdict.size
    ensures p.given + p.owed <= ScanFrame(c, stream).out
  {
    hide ScanFrame, IsSkippable;
    assert stream == p.taken + stream[|p.taken|..];
    ScanGrows(c, p.taken, stream[|p.taken|..]);
    if IsSkippableStart(p.taken, stream[|p.taken|..]) {
      SkippableScan(c, stream);
    }
    assert p.given + p.owed <= ScanFrame(c, stream).out;
  }

  /** A frame is recognised from its own bytes alone. */
  lemma CutAtEnd(c: Codec, stream: seq<byte>, n: nat)
    requires ScanFrame(c, stream).verdict == Done(n)
    ensures ScanFrame(c, stream[..n]) == ScanFrame(c, stream)
  {
    assert stream == stream[..n] + stream[n..];
    ScanGrows(c, stream[..n], stream[n..]);
    MoreNeedsMore(c, stream, n);
    hide ScanFrame;
  }

  lemma MoreNeedsMore(c: Codec, stream: seq<byte>, n: nat)
    requires ScanFrame(c, stream).verdict == Done(n)
    ensures !ScanFrame(c, stream[..n]).verdict.More?
  {
    hide ScanFrame, ParseFullHeader, ScanBlocks;
    assert stream == stream[..n] + stream[n..];
    ScanGrows(c, stream[..n], stream[n..]);
    if IsSkippableStart(stream[..n], stream[n..]) {
      SkippableScan(c, stream);
    }
  }

  lemma SkippableScan(c: Codec, s: seq<byte>)
    requires IsSkippable(s) && ScanFrame(c, s).verdict.Done?
    ensures ScanFrame(c, s).verdict.size >= SKIPPABLE_HEADER
  {
  }

  // ------------------------------------------------------------------
  // A stream of frames
  // ------------------------------------------------------------------

  /** The joined content of an exact series of frames. */
  ghost function SeriesContent(c: Codec, s: seq<byte>): Option<seq<byte>>
    decreases |s|
  {
    if s == [] then Some([])
    else
      var scan := ScanFrame(c, s);
      if !scan.verdict.Done? then None
      else
        var rest := SeriesContent(c, s[scan.verdict.size..]);
        if rest.None? then None else Some(scan.out + rest.value)
  }

  /** A whole frame behind an exact series extends it. */
  lemma {:induction false} SeriesExtends(c: Codec, s: seq<byte>, frame: seq<byte>)
    requires SeriesContent(c, s).Some?
    requires ScanFrame(c, frame).verdict == Done(|frame|)
    ensures SeriesContent(c, s + frame) == Some(SeriesContent(c, s).value + ScanFrame(c, frame).out)
    decreases |s|
  {
    hide ScanFrame;
    if s == [] {
      assert s + frame == frame && frame[|frame|..] == [];
      assert [] + ScanFrame(c, frame).out == ScanFrame(c, frame).out + [];
    } else {
      var scan := ScanFrame(c, s);
      var n := scan.verdict.size;
      ScanGrows(c, s, frame);
      SeriesExtends(c, s[n..], frame);
      assert (s + frame)[n..] == s[n..] + frame;
      assert scan.out + (SeriesContent(c, s[n..]).value + ScanFrame(c, frame).out) ==
             (scan.out + SeriesContent(c, s[n..]).value) + ScanFrame(c, frame).out;
    }
  }

  /** The caller stands at `pos` of a stream of frames: the frames up to `bound`
      are finished, and `output` is their content followed by what the frame in
      progress has given. */
  ghost predicate OnSeries(c: Codec, stream: seq<byte>, bound: nat, pos: nat, p: Progress, output: seq<byte>) {
    && bound <= pos <= |stream|
    && SeriesContent(c, stream[..bound]).Some?
    && OnTrack(c, stream[bound..], pos - bound, p)
    && output == SeriesContent(c, stream[..bound]).value + p.given
  }

  lemma SeriesStep(c: Codec, stream: seq<byte>, bound: nat, pos: nat, p: Progress, output: seq<byte>,
                   call: Call, q: Progress)
    returns (bound': nat)
    requires OnSeries(c, stream, bound, pos, p, output)
    requires pos + |call.offered| <= |stream| && call.offered == stream[pos..pos + |call.offered|]
    requires Step(c, p, call, q)
    ensures OnSeries(c, stream, bound', pos + call.took, Next(call, q), output + call.gave)
  {
    hide ScanFrame, IsSkippable, SeriesContent, Consistent, Eager, Hints;
    var tail := stream[bound..];
    assert call.offered == tail[pos - bound..pos - bound + |call.offered|];
    StepOnTrack(c, tail, pos - bound, p, call, q);
    var prior := SeriesContent(c, stream[..bound]).value;
    assert output + call.gave == prior + q.given;
    if call.hint == 0 {
      bound' := pos + call.took;
      var frame := tail[..bound' - bound];
      CutAtEnd(c, tail, |frame|);
      SeriesExtends(c, stream[..bound], frame);
      assert stream[..bound] + frame == stream[..bound'];
      FreshOnTrack(c, stream[bound'..]);
      assert output + call.gave == SeriesContent(c, stream[..bound']).value + FRESH.given;
    } else {
      bound' := bound;
    }
  }

  /** Over a stream of frames: after any run the output is the content of the
      frames finished so far followed by what the frame in progress has given. */
  lemma {:induction false} SeriesDelivers(c: Codec, stream: seq<byte>, bound: nat, pos: nat, p: Progress,
                                          output: seq<byte>, legs: seq<Leg>)
    returns (bound': nat, p': Progress)
    requires OnSeries(c, stream, bound, pos, p, output) && Driven(c, stream, pos, p, legs)
    ensures OnSeries(c, stream, bound', pos + Consumed(legs), p', output + Output(legs))
    decreases |legs|
  {
    hide OnSeries, Step;
    if legs == [] {
      bound', p' := bound, p;
      assert output + [] == output;
    } else {
      var Leg(call, q) := legs[0];
      var next := SeriesStep(c, stream, bound, pos, p, output, call, q);
      bound', p' := SeriesDelivers(c, stream, next, pos + call.took, Next(call, q), output + call.gave, legs[1..]);
      assert (output + call.gave) + Output(legs[1..]) == output + Output(legs);
    }
  }

  lemma FreshOnTrack(c: Codec, stream: seq<byte>)
    ensures OnTrack(c, stream, 0, FRESH)
  {
    EmptyIsWanted();
    assert ScanFrame(c, []).verdict.More?;
  }
}
