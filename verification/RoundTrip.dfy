/** From the frame writers through the streaming decoder. */
module RoundTrip {
  import opened Bytes
  import opened FrameHeader
  import opened BlockEngine
  import opened FrameContent
  import opened OneShots
  import opened StreamSpec
  import opened StreamRuns
  import opened StreamDrivers
  import opened ShortcutAgreement
  import opened FrameWalk
  import opened Writers

  /** However the calls slice a written frame that keeps what its header says, and the
      output space, a run that ends with a hint of 0 has handed out exactly what the frame
      stands for and consumed exactly the frame, though more bytes follow it. */
  lemma WrittenFrameStreams(c: Codec, spec: HeaderSpec, pieces: seq<Piece>, after: seq<byte>, legs: seq<Leg>)
    requires FormsLegal(spec) && pieces != [] && ReadAs(spec).Ok?
    requires c.opens(HeaderBytes(spec)) && KeepsWord(c, spec, pieces)
    requires legs != [] && Driven(c, FrameBytes(spec, pieces) + after, 0, FRESH, legs)
    requires forall i :: 0 <= i < |legs| - 1 ==> legs[i].call.hint != 0
    requires legs[|legs| - 1].call.hint == 0
    ensures Output(legs) == Written(c, spec, pieces)
    ensures Consumed(legs) == |FrameBytes(spec, pieces)|
  {
    hide HeaderBytes, FrameBytes, ScanFrame, OneShot, ReadAs, Driven, KeepsWord, Content, Written;
    var frame := FrameBytes(spec, pieces);
    WrittenFrameContent(c, spec, pieces);
    ScanGrows(c, frame, after);
    FreshOnTrack(c, frame + after);
    RunDelivers(c, frame + after, 0, FRESH, legs);
    assert FRESH.given + Output(legs) == Output(legs);
  }

  /** And a loop that offers at least eighteen bytes of it and what follows, or all there
      are, as long as the hint is not 0, is never refused and has all of it in no more
      calls than the frame and what was written have bytes. */
  lemma WrittenFrameFinishes(c: Codec, spec: HeaderSpec, pieces: seq<Piece>, after: seq<byte>, tries: seq<Attempt>)
    requires FormsLegal(spec) && pieces != [] && ReadAs(spec).Ok?
    requires c.opens(HeaderBytes(spec)) && KeepsWord(c, spec, pieces)
    requires TriedLong(c, FrameBytes(spec, pieces) + after, 0, FRESH, tries)
    ensures ScanFrame(c, FrameBytes(spec, pieces) + after) == Scan(Written(c, spec, pieces), Done(|FrameBytes(spec, pieces)|))
    ensures Finishes(c, FrameBytes(spec, pieces) + after, 0, [], tries)
  {
    hide HeaderBytes, FrameBytes, ScanFrame, WholeFrame, OneShot, ReadAs, KeepsWord, Content, Written, TriedLong, Finishes;
    var frame := FrameBytes(spec, pieces);
    WrittenFrameContent(c, spec, pieces);
    WrittenFrameIsValid(c, frame, after);
    LongOffersFinish(c, frame + after, tries);
  }

  lemma WrittenFrameIsValid(c: Codec, frame: seq<byte>, after: seq<byte>)
    requires WholeFrame(c, frame) == ScanFrame(c, frame) && ScanFrame(c, frame).verdict == Done(|frame|)
    ensures ValidFrame(c, frame + after) && ScanFrame(c, frame + after) == ScanFrame(c, frame)
  {
    hide ScanFrame, WholeFrame, ParseFullHeader, NoneHollow, Faithful, ChecksumHolds, SizeInfo, SizeAgrees;
    var s := frame + after;
    ScanGrows(c, frame, after);
    if ZstdStart(s) {
      ZstdNotSkippable(s);
      ScanMatchesSizeInfo(c, s);
      assert s[..|frame|] == frame;
      WholeFrameCut(c, s, |frame|);
      FrameWholeIsRead(c, s);
    } else {
      NoZstdNoSize(s, ScanFrame(c, s).out);
    }
  }

  lemma NoZstdNoSize(s: seq<byte>, out: seq<byte>)
    requires !ZstdStart(s)
    ensures SizeAgrees(s, out)
  {
    hide ParseFullHeader;
  }
}
