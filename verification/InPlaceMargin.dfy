/** The margin of in-place decoding: how much longer than the content a buffer
    must be for a series at its end to be decoded to its front. */
module InPlaceMargin {
  import opened Bytes
  import opened FrameHeader
  import opened FrameWalk
  import opened BlockEngine
  import opened FrameContent
  import opened OneShots
  import opened StreamSpec
  import opened StreamLimits
  import opened ShortcutAgreement

  // ------------------------------------------------------------------
  // The margin
  // ------------------------------------------------------------------

  /** Bytes of a frame that regenerate nothing. */
  function FrameOverhead(info: FrameSizeInfo): nat {
    if info.skippable then info.compressedSize
    else info.headerSize + (if info.checksum then 4 else 0) + 3 * info.nbBlocks
  }

  datatype Tally = Tally(overhead: nat, maxBlock: nat)

  /** Why a series has no margin: its first frame that cannot be measured has a
      header with an error of its own, or is corrupt behind a header that parses. */
  function MarginError(src: seq<byte>): ErrorCode {
    match ParseFullHeader(src)
    case Err(e) => ParseErrorCode(e)
    case Ok(_) => CorruptionDetected
  }

  /** The overhead of a series and its largest block. */
  function TallyFrom(src: seq<byte>, t: Tally): (r: Result<Tally, ErrorCode>)
    decreases |src|
  {
    hide SizeInfo, ParseFullHeader;
    if src == [] then Ok(t)
    else match SizeInfo(src)
         case Err(_) => Err(MarginError(src))
         case Ok(info) =>
           TallyFrom(src[info.compressedSize..],
                     Tally(t.overhead + FrameOverhead(info),
                           if info.skippable then t.maxBlock else Max(t.maxBlock, info.blockSizeMax)))
  }

  method DecompressionMargin(src: seq<byte>) returns (r: Result<nat, ErrorCode>)
    ensures match TallyFrom(src, Tally(0, 0))
            case Ok(t) => r == Ok(t.overhead + t.maxBlock)
            case Err(e) => r == Err(e)
  {
    hide SizeInfo, ParseFullHeader, ParseErrorCode;
    var margin: nat, maxBlockSize: nat := 0, 0;
    var rest := src;
    while rest != []
      invariant TallyFrom(src, Tally(0, 0)) == TallyFrom(rest, Tally(margin, maxBlockSize))
      decreases |rest|
    {
      var info := FrameSizeInfoOf(rest);
      if info.Err? {
        var parse := ParseFullHeader(rest);
        return Err(if parse.Err? then ParseErrorCode(parse.error) else CorruptionDetected);
      }
      if info.value.skippable {
        margin := margin + info.value.compressedSize;
      } else {
        margin := margin + info.value.headerSize;
        margin := margin + if info.value.checksum then 4 else 0;
        margin := margin + 3 * info.value.nbBlocks;
        maxBlockSize := Max(maxBlockSize, info.value.blockSizeMax);
      }
      rest := rest[info.value.compressedSize..];
    }
    margin := margin + maxBlockSize;
    return Ok(margin);
  }

  /** The tally only grows along the series, and its overhead is what later
      frames add on top. */
  lemma {:induction false} TallyGrows(src: seq<byte>, t: Tally)
    requires TallyFrom(src, t).Ok?
    ensures TallyFrom(src, t).value.overhead >= t.overhead && TallyFrom(src, t).value.maxBlock >= t.maxBlock
    decreases |src|
  {
    hide SizeInfo;
    if src != [] {
      var info := SizeInfo(src).value;
      TallyGrows(src[info.compressedSize..],
                 Tally(t.overhead + FrameOverhead(info),
                       if info.skippable then t.maxBlock else Max(t.maxBlock, info.blockSizeMax)));
    }
  }

  // ------------------------------------------------------------------
  // Decoding in place
  // ------------------------------------------------------------------

  /** Blocks decoded in place: `gap` is how far the unread input is ahead of the
      output, and every block's output must fit in front of its own input. */
  ghost predicate BlocksFit(c: Codec, f: Frame, fed: seq<seq<byte>>, s: seq<byte>, gap: int)
    decreases |s|
  {
    |s| >= 3 && |s| >= 3 + HeaderAt(s).BodySize() ==>
      var n := 3 + HeaderAt(s).BodySize();
      var out := WholeOut(c, f, fed, s[..n]);
      && |out| <= gap
      && (!HeaderAt(s).last ==> BlocksFit(c, f, Feed(fed, s[..n]), s[n..], gap + n - |out|))
  }

  /** No body is longer than what it regenerates, nor than the frame's block limit. */
  ghost predicate BlocksDense(c: Codec, f: Frame, fed: seq<seq<byte>>, s: seq<byte>)
    decreases |s|
  {
    |s| >= 3 && |s| >= 3 + HeaderAt(s).BodySize() ==>
      var n := 3 + HeaderAt(s).BodySize();
      var out := WholeOut(c, f, fed, s[..n]);
      && HeaderAt(s).BodySize() <= |out| && HeaderAt(s).BodySize() <= f.blockSizeMax
      && (!HeaderAt(s).last ==> BlocksDense(c, f, Feed(fed, s[..n]), s[n..]))
  }

  ghost predicate FrameFits(c: Codec, s: seq<byte>, gap: int) {
    ParseFullHeader(s).Ok? && ParseFullHeader(s).value.Complete? &&
    ParseFullHeader(s).value.header.frameType.ZstdFrame? ==>
      var h := ParseFullHeader(s).value.header;
      h.headerSize <= |s| ==> BlocksFit(c, FrameOf(s, h), [], s[h.headerSize..], gap + h.headerSize)
  }

  ghost predicate FrameDense(c: Codec, s: seq<byte>) {
    ParseFullHeader(s).Ok? && ParseFullHeader(s).value.Complete? &&
    ParseFullHeader(s).value.header.frameType.ZstdFrame? ==>
      var h := ParseFullHeader(s).value.header;
      h.headerSize <= |s| ==> BlocksDense(c, FrameOf(s, h), [], s[h.headerSize..])
  }

  /** Every block of every frame of the series fits. */
  ghost predicate SeriesFits(c: Codec, s: seq<byte>, gap: int)
    decreases |s|
  {
    s == [] ||
    (WholeFrame(c, s).verdict.Done? ==>
       var n := WholeFrame(c, s).verdict.size;
       && FrameFits(c, s, gap)
       && SeriesFits(c, s[n..], gap + n - |WholeFrame(c, s).out|))
  }

  /** Every frame of the series is dense. */
  ghost predicate SeriesDense(c: Codec, s: seq<byte>)
    decreases |s|
  {
    s == [] ||
    (WholeFrame(c, s).verdict.Done? ==> FrameDense(c, s) && SeriesDense(c, s[WholeFrame(c, s).verdict.size..]))
  }

  /** Within a frame: a gap of the block limit over the output still to come,
      less the bodies still to read, is enough at every block. */
  lemma {:induction false} BlocksFitWithin(c: Codec, f: Frame, fed: seq<seq<byte>>, s: seq<byte>, gap: int)
    requires WholeBlocks(c, f, fed, s).verdict.Done? && BlocksDense(c, f, fed, s)
    requires WalkBody(s, f.checksum, false).End?
    requires var w, r := WalkBody(s, f.checksum, false), WholeBlocks(c, f, fed, s);
             gap >= f.blockSizeMax + |r.out| - (w.size - Fixed(f, w.blocks))
    ensures BlocksFit(c, f, fed, s, gap)
    ensures var w, r := WalkBody(s, f.checksum, false), WholeBlocks(c, f, fed, s);
            w.size - Fixed(f, w.blocks) <= |r.out| && r.verdict.size == w.size
    decreases |s|
  {
    hide ReadBlockHeader, WholeOut, WholeOk, Feed, WholeTrailer, WholeBlocks, WalkBody;
    WholeFollowsWalk(c, f, fed, s);
    DoneIsPresent(c, f, fed, s);
    var n := 3 + HeaderAt(s).BodySize();
    var block := s[..n];
    if HeaderAt(s).last {
      LastBlockCost(c, f, fed, s);
    } else {
      NextBlockCost(c, f, fed, s);
      NextWalk(s, f.checksum);
      BlocksFitWithin(c, f, Feed(fed, block), s[n..], gap + n - |WholeOut(c, f, fed, block)|);
    }
  }

  lemma DoneIsPresent(c: Codec, f: Frame, fed: seq<seq<byte>>, s: seq<byte>)
    requires WholeBlocks(c, f, fed, s).verdict.Done?
    ensures |s| >= 3 && |s| >= 3 + HeaderAt(s).BodySize()
  {
    hide ReadBlockHeader, WholeOut, WholeOk, WholeTrailer;
  }

  /** Bytes of `blocks` blocks and a trailer that regenerate nothing. */
  function Fixed(f: Frame, blocks: nat): nat {
    3 * blocks + if f.checksum then 4 else 0
  }

  lemma LastBlockCost(c: Codec, f: Frame, fed: seq<seq<byte>>, s: seq<byte>)
    requires WholeBlocks(c, f, fed, s).verdict.Done? && WalkBody(s, f.checksum, false).End?
    requires |s| >= 3 && HeaderAt(s).last
    ensures var n := 3 + HeaderAt(s).BodySize();
            && n <= |s|
            && WholeBlocks(c, f, fed, s).out == WholeOut(c, f, fed, s[..n])
            && WalkBody(s, f.checksum, false) == End(n + (if f.checksum then 4 else 0), 1)
  {
    hide ReadBlockHeader, WholeOut, WholeOk, Feed;
    var n := 3 + HeaderAt(s).BodySize();
    assert WholeOut(c, f, fed, s[..n]) + [] == WholeOut(c, f, fed, s[..n]);
  }

  lemma NextBlockCost(c: Codec, f: Frame, fed: seq<seq<byte>>, s: seq<byte>)
    requires WholeBlocks(c, f, fed, s).verdict.Done?
    requires |s| >= 3 && !HeaderAt(s).last
    ensures var n := 3 + HeaderAt(s).BodySize();
            && n <= |s| && HeaderAt(s[..n]) == HeaderAt(s)
            && var rest := WholeBlocks(c, f, Feed(fed, s[..n]), s[n..]);
               && rest.verdict.Done?
               && WholeBlocks(c, f, fed, s).out == WholeOut(c, f, fed, s[..n]) + rest.out
  {
    hide ReadBlockHeader, WholeOut, WholeOk, Feed, WholeTrailer;
  }

  lemma NextWalk(s: seq<byte>, checksum: bool)
    requires |s| >= 3 && !HeaderAt(s).last && WalkBody(s, checksum, false).End?
    ensures var n := 3 + HeaderAt(s).BodySize();
            && n <= |s| && WalkBody(s[n..], checksum, false).End?
            && var w := WalkBody(s[n..], checksum, false);
               WalkBody(s, checksum, false) == End(n + w.size, w.blocks + 1)
  {
    hide ReadBlockHeader, WalkBlocks;
    WalkAccepted(s, false);
  }

  // ------------------------------------------------------------------
  // The series
  // ------------------------------------------------------------------

  lemma SkippableCost(c: Codec, s: seq<byte>)
    requires IsSkippable(s) && WholeFrame(c, s).verdict.Done? && SizeInfo(s).Ok?
    ensures ParseFullHeader(s).Ok? && ParseFullHeader(s).value.Complete?
    ensures ParseFullHeader(s).value.header.frameType.SkippableFrame?
    ensures SizeInfo(s).value.skippable && SizeInfo(s).value.blockSizeMax == 0
    ensures WholeFrame(c, s) == Scan([], Done(SizeInfo(s).value.compressedSize))
  {
    SkippableIsComplete(s);
    hide ParseFullHeader;
  }

  lemma SkippableIsComplete(s: seq<byte>)
    requires IsSkippable(s) && |s| >= SKIPPABLE_HEADER
    ensures ParseFullHeader(s).Ok? && ParseFullHeader(s).value.Complete?
    ensures ParseFullHeader(s).value.header.frameType.SkippableFrame?
    ensures ParseFullHeader(s).value.header.contentSize == Some(LeValue(s[4..8]))
  {
  }

  lemma ZstdCost(c: Codec, s: seq<byte>)
    requires !IsSkippable(s) && WholeFrame(c, s).verdict.Done? && SizeInfo(s).Ok?
    ensures ZstdStart(s)
    ensures var h := ParseFullHeader(s).value.header;
            && h.headerSize <= |s|
            && var blocks := s[h.headerSize..];
               var w, r := WalkBody(blocks, h.checksum, false), WholeBlocks(c, FrameOf(s, h), [], blocks);
               && w.End? && r.verdict.Done?
               && SizeInfo(s).value == ZstdInfo(h, h.headerSize + w.size, w.blocks)
               && WholeFrame(c, s) == Scan(r.out, Done(h.headerSize + r.verdict.size))
  {
    WholeIsZstd(c, s);
    hide ParseFullHeader, WholeBlocks, WholeFrame, WalkBody, IsSkippable;
    WholeZstd(c, s);
    var h := ParseFullHeader(s).value.header;
    WholeFollowsWalk(c, FrameOf(s, h), [], s[h.headerSize..]);
    var out := WholeBlocks(c, FrameOf(s, h), [], s[h.headerSize..]).out;
    assert [] + out == out;
  }

  lemma WholeIsZstd(c: Codec, s: seq<byte>)
    requires !IsSkippable(s) && WholeFrame(c, s).verdict.Done?
    ensures ZstdStart(s)
  {
    hide ParseFullHeader, WholeBlocks, IsSkippable;
    if ParseFullHeader(s).Ok? && ParseFullHeader(s).value.Complete? {
      NotSkippableHeader(s);
    }
  }

  /** One frame of the series: it fits, and reading it narrows the gap by no more
      than its overhead pays for. */
  lemma FrameFitsWithin(c: Codec, s: seq<byte>, gap: int)
    requires WholeFrame(c, s).verdict.Done? && FrameDense(c, s) && SizeInfo(s).Ok?
    requires var info, scan := SizeInfo(s).value, WholeFrame(c, s);
             gap >= info.blockSizeMax + |scan.out| - (info.compressedSize - FrameOverhead(info))
    ensures FrameFits(c, s, gap)
    ensures var info, scan := SizeInfo(s).value, WholeFrame(c, s);
            && info.compressedSize == scan.verdict.size
            && info.compressedSize - FrameOverhead(info) <= |scan.out|
  {
    hide WholeBlocks, WalkBody, ReadBlockHeader, LeValue, ParseFullHeader, WholeFrame, SizeInfo;
    if IsSkippable(s) {
      SkippableCost(c, s);
    } else {
      ZstdCost(c, s);
      var h := ParseFullHeader(s).value.header;
      var blocks := s[h.headerSize..];
      BlocksFitWithin(c, FrameOf(s, h), [], blocks, gap + h.headerSize);
    }
  }

  lemma {:induction false} SeriesFitsWithin(c: Codec, s: seq<byte>, t: Tally, gap: int)
    requires OneShot(c, s).Some? && SeriesDense(c, s) && TallyFrom(s, t).Ok?
    requires var whole := TallyFrom(s, t).value;
             gap >= whole.maxBlock + |OneShot(c, s).value| - (|s| - (whole.overhead - t.overhead))
    ensures SeriesFits(c, s, gap)
    ensures |s| - (TallyFrom(s, t).value.overhead - t.overhead) <= |OneShot(c, s).value|
    decreases |s|
  {
    hide WholeFrame, SizeInfo, FrameDense, FrameFits;
    if s != [] {
      var info, scan := SizeInfo(s).value, WholeFrame(c, s);
      var n := info.compressedSize;
      var t' := Tally(t.overhead + FrameOverhead(info),
                      if info.skippable then t.maxBlock else Max(t.maxBlock, info.blockSizeMax));
      SameSize(c, s);
      TallyGrows(s[n..], t');
      BlockMaxCovered(c, s);
      SeriesFitsWithin(c, s[n..], t', gap + n - |scan.out|);
      FrameFitsWithin(c, s, gap);
    }
  }

  lemma SameSize(c: Codec, s: seq<byte>)
    requires WholeFrame(c, s).verdict.Done? && SizeInfo(s).Ok?
    ensures SizeInfo(s).value.compressedSize == WholeFrame(c, s).verdict.size
  {
    hide SizeInfo, WholeFrame, IsSkippable;
    if IsSkippable(s) {
      SkippableCost(c, s);
    } else {
      WholeIsZstd(c, s);
      WholeMatchesSizeInfo(c, s);
    }
  }

  lemma BlockMaxCovered(c: Codec, s: seq<byte>)
    requires SizeInfo(s).Ok?
    ensures SizeInfo(s).value.skippable ==> SizeInfo(s).value.blockSizeMax == 0
    ensures FrameOverhead(SizeInfo(s).value) <= SizeInfo(s).value.compressedSize
  {
    hide ParseFullHeader, WalkBlocks, LeValue;
    if !IsSkippable(s) {
      var h := ParseFullHeader(s).value.header;
      BlocksCost(s[h.headerSize..]);
    }
  }

  /** Every block costs at least its header. */
  lemma {:induction false} BlocksCost(s: seq<byte>)
    requires WalkBlocks(s, false).End?
    ensures WalkBlocks(s, false).size >= 3 * WalkBlocks(s, false).blocks
    decreases |s|
  {
    WalkAccepted(s, false);
    hide WalkBlocks, ReadBlockHeader;
    if !HeaderAt(s).last {
      BlocksCost(s[3 + HeaderAt(s).BodySize()..]);
    }
  }

  /** In a buffer of the content's size plus the margin, with the series at its
      end, one-shot decoding to the front never overwrites input that is still unread. */
  lemma InPlaceIsSafe(c: Codec, s: seq<byte>)
    requires OneShot(c, s).Some? && SeriesDense(c, s)
    requires TallyFrom(s, Tally(0, 0)).Ok?
    ensures var t := TallyFrom(s, Tally(0, 0)).value;
            var buffer := |OneShot(c, s).value| + (t.overhead + t.maxBlock);
            && buffer >= |s|
            && SeriesFits(c, s, buffer - |s|)
  {
    hide SeriesFits, SeriesDense, TallyFrom, OneShot;
    var t := TallyFrom(s, Tally(0, 0)).value;
    SeriesFitsWithin(c, s, Tally(0, 0), |OneShot(c, s).value| + (t.overhead + t.maxBlock) - |s|);
  }

  // ------------------------------------------------------------------
  // Stored blocks
  // ------------------------------------------------------------------

  /** From the block headers alone: every block is raw. */
  predicate AllStored(s: seq<byte>)
    decreases |s|
  {
    |s| >= 3 ==>
      var h := HeaderAt(s);
      h.wire.Raw? && (!h.last && |s| >= 3 + h.size ==> AllStored(s[3 + h.size..]))
  }

  /** From the block headers alone: no block is longer than the room, to which each block
      header adds its three bytes. */
  predicate StoredWithin(s: seq<byte>, room: int)
    decreases |s|
  {
    |s| >= 3 && |s| >= 3 + HeaderAt(s).BodySize() ==>
      var h := HeaderAt(s);
      var n := 3 + h.BodySize();
      h.BodySize() <= room && (!h.last ==> StoredWithin(s[n..], room + 3))
  }

  lemma {:induction false} StoredBlocksFitIff(c: Codec, f: Frame, fed: seq<seq<byte>>, s: seq<byte>, gap: int)
    requires AllStored(s)
    ensures BlocksFit(c, f, fed, s, gap) <==> StoredWithin(s, gap)
    decreases |s|
  {
    hide ReadBlockHeader, Feed;
    if |s| >= 3 && |s| >= 3 + HeaderAt(s).BodySize() {
      var n := 3 + HeaderAt(s).BodySize();
      assert HeaderAt(s[..n]) == HeaderAt(s);
      if !HeaderAt(s).last {
        StoredBlocksFitIff(c, f, Feed(fed, s[..n]), s[n..], gap + 3);
      }
    }
  }

  /** Stored blocks regenerate exactly their bodies. */
  lemma {:induction false} StoredSize(c: Codec, f: Frame, fed: seq<seq<byte>>, s: seq<byte>)
    requires AllStored(s) && WholeBlocks(c, f, fed, s).verdict.Done? && WalkBody(s, f.checksum, false).End?
    ensures var w := WalkBody(s, f.checksum, false);
            |WholeBlocks(c, f, fed, s).out| == w.size - Fixed(f, w.blocks)
    decreases |s|
  {
    hide ReadBlockHeader, WholeOk, Feed, WholeTrailer, WholeBlocks, WalkBody, WholeOut;
    DoneIsPresent(c, f, fed, s);
    var n := 3 + HeaderAt(s).BodySize();
    StoredOut(c, f, fed, s);
    if HeaderAt(s).last {
      LastBlockCost(c, f, fed, s);
    } else {
      NextBlockCost(c, f, fed, s);
      NextWalk(s, f.checksum);
      StoredSize(c, f, Feed(fed, s[..n]), s[n..]);
    }
  }

  lemma StoredOut(c: Codec, f: Frame, fed: seq<seq<byte>>, s: seq<byte>)
    requires |s| >= 3 && HeaderAt(s).wire.Raw? && |s| >= 3 + HeaderAt(s).BodySize()
    ensures HeaderAt(s[..3 + HeaderAt(s).BodySize()]) == HeaderAt(s)
    ensures |WholeOut(c, f, fed, s[..3 + HeaderAt(s).BodySize()])| == HeaderAt(s).BodySize()
  {
    hide ReadBlockHeader;
  }

  /** A frame of stored blocks is decoded safely with its margin exactly when each of them
      fits in the block limit and the headers in front of its own. */
  lemma StoredFrameFitsIff(c: Codec, s: seq<byte>)
    requires ZstdStart(s) && WholeFrame(c, s).verdict == Done(|s|) && AllStored(BlocksOf(s))
    ensures SizeInfo(s).Ok?
    ensures var info, h := SizeInfo(s).value, ParseFullHeader(s).value.header;
            && TallyFrom(s, Tally(0, 0)) == Ok(Tally(FrameOverhead(info), h.blockSizeMax))
            && (FrameFits(c, s, |WholeFrame(c, s).out| + (FrameOverhead(info) + h.blockSizeMax) - |s|)
                <==> StoredWithin(BlocksOf(s), h.blockSizeMax + h.headerSize))
  {
    hide ParseFullHeader, WholeFrame, SizeInfo, BlocksFit, StoredWithin, AllStored, FrameFits, FrameOverhead;
    StoredFrameSize(c, s);
    var h := ParseFullHeader(s).value.header;
    FrameFitsBlocks(c, s, h.blockSizeMax);
    StoredBlocksFitIff(c, OpenedAs(s), [], BlocksOf(s), h.blockSizeMax + h.headerSize);
  }

  lemma FrameFitsBlocks(c: Codec, s: seq<byte>, gap: int)
    requires ZstdStart(s)
    ensures FrameFits(c, s, gap)
            <==> BlocksFit(c, OpenedAs(s), [], BlocksOf(s), gap + ParseFullHeader(s).value.header.headerSize)
  {
    HeaderFits(s);
    hide ParseFullHeader, BlocksFit;
  }

  lemma StoredFrameSize(c: Codec, s: seq<byte>)
    requires ZstdStart(s) && WholeFrame(c, s).verdict == Done(|s|) && AllStored(BlocksOf(s))
    ensures SizeInfo(s).Ok?
    ensures var info, h := SizeInfo(s).value, ParseFullHeader(s).value.header;
            && TallyFrom(s, Tally(0, 0)) == Ok(Tally(FrameOverhead(info), h.blockSizeMax))
            && |WholeFrame(c, s).out| + FrameOverhead(info) == |s|
  {
    ZstdNotSkippable(s);
    hide ParseFullHeader, WholeFrame, WholeBlocks, WalkBody, SizeInfo, AllStored, IsSkippable, TallyFrom;
    WholeMatchesSizeInfo(c, s);
    ZstdCost(c, s);
    StoredSize(c, OpenedAs(s), [], BlocksOf(s));
    TallyOfOne(s);
  }

  lemma TallyOfOne(s: seq<byte>)
    requires s != [] && SizeInfo(s).Ok? && SizeInfo(s).value.compressedSize == |s| && !SizeInfo(s).value.skippable
    ensures TallyFrom(s, Tally(0, 0)) == Ok(Tally(FrameOverhead(SizeInfo(s).value), SizeInfo(s).value.blockSizeMax))
  {
    hide SizeInfo, FrameOverhead;
    assert s[|s|..] == [];
  }

  /** Above that it fails: a raw block of 2000 bytes behind a 1 KiB window, which one-shot
      decoding accepts, gives more than the room in front of it. */
  lemma WideFrameOverruns(c: Codec, content: seq<byte>)
    requires c.opens(WIDE_START) && c.dictionary(WIDE_START).None? && |content| == 2000
    ensures var s := WIDE_START + [0x81, 0x3e, 0] + content;
            && OneShot(c, s) == Some(content)
            && TallyFrom(s, Tally(0, 0)) == Ok(Tally(11, 1024))
            && !FrameFits(c, s, 2000 + (11 + 1024) - |s|)
  {
    hide ScanBlocks, WholeBlocks, ScanFrame, WholeFrame, OneShot, ParseFullHeader, ReadBlockHeader, TakesShortcut, AllCapped, SizeInfo,
      BlocksFit;
    var s := WIDE_START + [0x81, 0x3e, 0] + content;
    var b := s[8..];
    WideRawParts(c, content);
    WideHeader(s);
    assert s[..8] == WIDE_START && b == [0x81, 0x3e, 0] + content;
    HeadDigits(b[0], b[1], b[2], 16, 0, 1);
    WideMeasured(s);
    assert s[|s|..] == [];
    WideBlock(c, FrameOf(s, ParseFullHeader(s).value.header), b, 1032);
  }

  lemma WideMeasured(s: seq<byte>)
    requires |s| == 2011 && s[..8] == WIDE_START && HeadIs(s[8..], BlockHeader(true, Raw, 2000))
    ensures SizeInfo(s).Ok?
    ensures var info := SizeInfo(s).value;
            && !info.skippable && info.compressedSize == 2011 && info.blockSizeMax == 1024
            && FrameOverhead(info) == 11
  {
    hide ReadBlockHeader, ParseFullHeader, WalkBlocks;
    WideHeader(s);
    WalkUnfold(s[8..], false);
    ZstdNotSkippable(s);
  }

  lemma WideBlock(c: Codec, f: Frame, b: seq<byte>, gap: int)
    requires |b| == 2003 && HeadIs(b, BlockHeader(true, Raw, 2000)) && gap < 2000
    ensures !BlocksFit(c, f, [], b, gap)
  {
    hide ReadBlockHeader;
    assert b[..2003] == b;
    assert WholeOut(c, f, [], b) == b[3..];
  }
}
