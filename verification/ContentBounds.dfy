/** The decompression bound against what is decoded: it covers every series whose blocks
    keep to their limits, and for written frames without a declared size it is exact. */
module ContentBounds {
  import opened Arith
  import opened Bytes
  import opened FrameHeader
  import opened FrameWalk
  import opened BlockEngine
  import opened FrameContent
  import opened OneShots
  import opened StreamSpec
  import opened ShortcutAgreement
  import opened FrameSeries
  import opened InPlaceMargin
  import opened Writers

  /** A compressed block regenerates no more than its frame's block limit, as decoding one
      checks. */
  ghost predicate Restrained(c: Codec, f: Frame) {
    forall fed, block :: c.decodes(f.header, fed, block) ==> |c.expand(f.header, fed, block)| <= f.blockSizeMax
  }

  // ------------------------------------------------------------------
  // One frame
  // ------------------------------------------------------------------

  lemma WholeOutWithin(c: Codec, f: Frame, fed: seq<seq<byte>>, block: seq<byte>)
    requires |block| >= 3 && |block| == 3 + HeaderAt(block).BodySize()
    requires Restrained(c, f) && WholeOk(c, f, fed, block) && Capped(f, HeaderAt(block))
    ensures |WholeOut(c, f, fed, block)| <= f.blockSizeMax
  {
    hide ReadBlockHeader;
  }

  lemma OutWithin(c: Codec, f: Frame, fed: seq<seq<byte>>, block: seq<byte>)
    requires |block| >= 3 && |block| == 3 + HeaderAt(block).BodySize()
    requires Restrained(c, f) && BlockHeaderOk(f, HeaderAt(block)) && BlockOk(c, f, fed, block)
    ensures |BlockOut(c, f, fed, block)| <= f.blockSizeMax
  {
    hide ReadBlockHeader, Missized, Kept;
  }

  lemma {:induction false} WholeBlocksBounded(c: Codec, f: Frame, fed: seq<seq<byte>>, s: seq<byte>)
    requires WholeBlocks(c, f, fed, s).verdict.Done? && AllCapped(f, s) && Restrained(c, f)
    ensures WalkBody(s, f.checksum, false).End?
    ensures |WholeBlocks(c, f, fed, s).out| <= f.blockSizeMax * WalkBody(s, f.checksum, false).blocks
    decreases |s|
  {
    hide ReadBlockHeader, WholeOut, WholeOk, Feed, WholeTrailer, WalkBody, WholeBlocks, Capped, Restrained;
    WholeFollowsWalk(c, f, fed, s);
    DoneIsPresent(c, f, fed, s);
    FirstWhole(c, f, fed, s);
    var n := 3 + HeaderAt(s).BodySize();
    WholeOutWithin(c, f, fed, s[..n]);
    if HeaderAt(s).last {
      LastBlockCost(c, f, fed, s);
    } else {
      NextBlockCost(c, f, fed, s);
      NextWalk(s, f.checksum);
      WholeBlocksBounded(c, f, Feed(fed, s[..n]), s[n..]);
      MulNext(f.blockSizeMax, WalkBody(s[n..], f.checksum, false).blocks);
    }
  }

  lemma FirstWhole(c: Codec, f: Frame, fed: seq<seq<byte>>, s: seq<byte>)
    requires WholeBlocks(c, f, fed, s).verdict.Done?
    requires |s| >= 3 && |s| >= 3 + HeaderAt(s).BodySize()
    ensures HeaderAt(s[..3 + HeaderAt(s).BodySize()]) == HeaderAt(s)
    ensures WholeOk(c, f, fed, s[..3 + HeaderAt(s).BodySize()])
  {
    hide ReadBlockHeader, WholeOut, WholeOk, Feed, WholeTrailer;
  }

  lemma {:induction false} BlocksBounded(c: Codec, f: Frame, fed: seq<seq<byte>>, s: seq<byte>)
    requires ScanBlocks(c, f, fed, s).verdict.Done? && Restrained(c, f)
    ensures WalkBody(s, f.checksum, false).End?
    ensures |ScanBlocks(c, f, fed, s).out| <= f.blockSizeMax * WalkBody(s, f.checksum, false).blocks
    decreases |s|
  {
    hide ReadBlockHeader, BlockOut, BlockOk, BlockHeaderOk, Feed, ScanTrailer, WalkBody, Restrained, WalkBlocks;
    ScanFollowsWalk(c, f, fed, s);
    TakenWhole(c, f, fed, s);
    var n := 3 + HeaderAt(s).BodySize();
    OutWithin(c, f, fed, s[..n]);
    TrailerSize(c, f, Feed(fed, s[..n]), s[n..]);
    if HeaderAt(s).last {
      LastWalk(s, f.checksum);
    } else {
      NextWalk(s, f.checksum);
      BlocksBounded(c, f, Feed(fed, s[..n]), s[n..]);
      MulNext(f.blockSizeMax, WalkBody(s[n..], f.checksum, false).blocks);
    }
  }

  lemma LastWalk(s: seq<byte>, checksum: bool)
    requires |s| >= 3 && HeaderAt(s).last && WalkBody(s, checksum, false).End?
    ensures WalkBody(s, checksum, false).blocks == 1
  {
    hide ReadBlockHeader;
  }

  /** A frame decoded one-shot, within its block limits, is no larger than its bound. */
  lemma FrameBounded(c: Codec, s: seq<byte>)
    requires ZstdStart(s) && WholeFrame(c, s).verdict.Done?
    requires AllCapped(OpenedAs(s), BlocksOf(s)) && Restrained(c, OpenedAs(s))
    ensures SizeInfo(s).Ok? && |WholeFrame(c, s).out| <= SizeInfo(s).value.decompressedBound
  {
    ZstdNotSkippable(s);
    hide ParseFullHeader, WholeFrame, WholeBlocks, WalkBody, SizeInfo, IsSkippable, AllCapped, Restrained, SizeAgrees, Times;
    WholeMatchesSizeInfo(c, s);
    ZstdCost(c, s);
    FrameWholeMeetsSize(c, s);
    WholeBlocksBounded(c, OpenedAs(s), [], BlocksOf(s));
    TimesIs(WalkBody(BlocksOf(s), ParseFullHeader(s).value.header.checksum, false).blocks,
            ParseFullHeader(s).value.header.blockSizeMax);
    AcceptedSize(s, WholeFrame(c, s).out);
  }

  lemma FrameWholeMeetsSize(c: Codec, s: seq<byte>)
    requires ZstdStart(s) && WholeFrame(c, s).verdict.Done?
    ensures SizeAgrees(s, WholeFrame(c, s).out)
  {
    WholeZstd(c, s);
    hide ParseFullHeader, WholeBlocks, WholeFrame, SizeAgrees;
  }

  lemma TimesIs(a: nat, b: nat)
    ensures Times(a, b) == b * a
  {
  }

  /** And so is a frame read block by block that has its declared size, if it has one. */
  lemma ReadFrameBounded(c: Codec, s: seq<byte>)
    requires ZstdStart(s) && ScanFrame(c, s).verdict.Done? && SizeAgrees(s, ScanFrame(c, s).out)
    requires Restrained(c, OpenedAs(s))
    ensures SizeInfo(s).Ok? && |ScanFrame(c, s).out| <= SizeInfo(s).value.decompressedBound
  {
    ZstdNotSkippable(s);
    hide ParseFullHeader, ScanFrame, ScanBlocks, WalkBody, IsSkippable, Restrained, SizeAgrees, Times;
    ScanMatchesSizeInfo(c, s);
    OpenScanned(c, s);
    BlocksBounded(c, OpenedAs(s), [], BlocksOf(s));
    TimesIs(WalkBody(BlocksOf(s), ParseFullHeader(s).value.header.checksum, false).blocks,
            ParseFullHeader(s).value.header.blockSizeMax);
    AcceptedSize(s, ScanFrame(c, s).out);
  }

  // ------------------------------------------------------------------
  // A series
  // ------------------------------------------------------------------

  /** Every frame of the series keeps to its block limits. */
  ghost predicate SeriesCapped(c: Codec, s: seq<byte>)
    decreases |s|
  {
    s == [] ||
    (WholeFrame(c, s).verdict.Done? ==>
       && (ZstdStart(s) ==> AllCapped(OpenedAs(s), BlocksOf(s)) && Restrained(c, OpenedAs(s)))
       && SeriesCapped(c, s[WholeFrame(c, s).verdict.size..]))
  }

  /** The bounds of a series, added up without wrapping. */
  function TotalBound(s: seq<byte>): nat
    decreases |s|
  {
    hide SizeInfo;
    if s == [] || SizeInfo(s).Err? then 0
    else SizeInfo(s).value.decompressedBound + TotalBound(s[SizeInfo(s).value.compressedSize..])
  }

  lemma {:induction false} BoundIsTotal(s: seq<byte>, bound: nat)
    requires BoundFrom(s, bound).Some? && bound < 0x1_0000_0000_0000_0000
    ensures BoundFrom(s, bound) == Some((bound + TotalBound(s)) % 0x1_0000_0000_0000_0000)
    decreases |s|
  {
    hide SizeInfo;
    if s != [] {
      var info := SizeInfo(s).value;
      BoundIsTotal(s[info.compressedSize..], WrappingAdd(bound, info.decompressedBound));
      WrapOnce(bound + info.decompressedBound, TotalBound(s[info.compressedSize..]));
    }
  }

  lemma WrapOnce(a: nat, b: nat)
    ensures (a % U64 + b) % U64 == (a + b) % U64
  {
  }

  lemma {:induction false} TotalCovers(c: Codec, s: seq<byte>)
    requires OneShot(c, s).Some? && SeriesCapped(c, s) && BoundFrom(s, 0).Some?
    ensures |OneShot(c, s).value| <= TotalBound(s)
    decreases |s|
  {
    hide WholeFrame, SizeInfo, ParseFullHeader, AllCapped, Restrained;
    if s != [] {
      var info, scan := SizeInfo(s).value, WholeFrame(c, s);
      SameSize(c, s);
      FirstBounded(c, s);
      BoundFromRest(s);
      TotalCovers(c, s[info.compressedSize..]);
    }
  }

  lemma FirstBounded(c: Codec, s: seq<byte>)
    requires WholeFrame(c, s).verdict.Done? && SizeInfo(s).Ok?
    requires ZstdStart(s) ==> AllCapped(OpenedAs(s), BlocksOf(s)) && Restrained(c, OpenedAs(s))
    ensures |WholeFrame(c, s).out| <= SizeInfo(s).value.decompressedBound
  {
    hide ParseFullHeader, AllCapped, Restrained, SizeInfo, WholeFrame, IsSkippable;
    if ZstdStart(s) {
      FrameBounded(c, s);
    } else {
      if !IsSkippable(s) {
        WholeIsZstd(c, s);
      }
      SkippableCost(c, s);
    }
  }

  lemma {:induction false} BoundFromAny(s: seq<byte>, a: nat, b: nat)
    requires BoundFrom(s, a).Some?
    ensures BoundFrom(s, b).Some?
    decreases |s|
  {
    hide SizeInfo, WrappingAdd;
    if s != [] {
      var info := SizeInfo(s).value;
      BoundFromAny(s[info.compressedSize..], WrappingAdd(a, info.decompressedBound), WrappingAdd(b, info.decompressedBound));
    }
  }

  lemma BoundFromRest(s: seq<byte>)
    requires s != [] && BoundFrom(s, 0).Some?
    ensures SizeInfo(s).Ok? && BoundFrom(s[SizeInfo(s).value.compressedSize..], 0).Some?
  {
    hide SizeInfo, WrappingAdd;
    BoundFromAny(s[SizeInfo(s).value.compressedSize..], WrappingAdd(0, SizeInfo(s).value.decompressedBound), 0);
  }

  /** The bound covers the content: of a series that one-shot decoding accepts, whose blocks
      keep to their limits and whose bounds add up below 2^64. */
  lemma BoundCovers(c: Codec, s: seq<byte>)
    requires OneShot(c, s).Some? && SeriesCapped(c, s) && BoundFrom(s, 0).Some? && TotalBound(s) < U64
    ensures |OneShot(c, s).value| <= BoundFrom(s, 0).value
  {
    hide OneShot, BoundFrom, TotalBound, SeriesCapped;
    TotalCovers(c, s);
    BoundIsTotal(s, 0);
  }

  // ------------------------------------------------------------------
  // Written frames
  // ------------------------------------------------------------------

  /** A written frame without a content size has one block's worth for each piece as its
      bound: the smaller of the window and 128 KiB. */
  lemma WrittenBound(spec: HeaderSpec, pieces: seq<Piece>)
    requires FormsLegal(spec) && pieces != [] && ReadAs(spec).Ok? && Fits(pieces, false) && spec.fcs.None?
    ensures BoundFrom(FrameBytes(spec, pieces), 0)
         == Some(|pieces| * Min(ReadAs(spec).value.header.windowSize, 131072) % 0x1_0000_0000_0000_0000)
  {
    hide HeaderBytes, BodyBytes, WalkBlocks, ParseFullHeader, SizeInfo;
    var s, h := FrameBytes(spec, pieces), ReadAs(spec).value.header;
    WrittenInfo(spec, pieces);
    TimesIs(|pieces|, h.blockSizeMax);
    assert s[|s|..] == [];
    var info := SizeInfo(s).value;
    assert BoundFrom([], WrappingAdd(0, info.decompressedBound)) == Some(WrappingAdd(0, info.decompressedBound));
  }

  lemma WrittenInfo(spec: HeaderSpec, pieces: seq<Piece>)
    requires FormsLegal(spec) && pieces != [] && ReadAs(spec).Ok? && Fits(pieces, false)
    ensures SizeInfo(FrameBytes(spec, pieces))
         == Ok(ZstdInfo(ReadAs(spec).value.header, |FrameBytes(spec, pieces)|, |pieces|))
    ensures FrameBytes(spec, pieces) != []
  {
    hide HeaderBytes, BodyBytes, WalkBlocks, ParseFullHeader, IsSkippable;
    var trailer := if spec.zeroChecksum then [0, 0, 0, 0] else [];
    var h, b := HeaderBytes(spec), BodyBytes(pieces) + trailer;
    var s := FrameBytes(spec, pieces);
    assert s == h + b;
    HeaderReadsBack(spec, b);
    ZstdNotSkippable(s);
    assert s[|h|..] == b;
    WrittenBlocksWalk(pieces, trailer, false);
  }
}
