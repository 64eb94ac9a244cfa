/** Where the streaming decoder's answers are exact, and the inputs on which they
    are not. */
module StreamLimits {
  import opened Bytes
  import opened FrameHeader
  import opened FrameWalk
  import opened BlockEngine
  import opened FrameContent
  import opened OneShots
  import opened StreamSpec
  import opened StreamRuns

  // ------------------------------------------------------------------
  // The single-pass shortcut against the staged path
  // ------------------------------------------------------------------

  /** Five declared bytes, and a last block that is empty. */
  const SHORT_FRAME: seq<byte> := [0x28, 0xb5, 0x2f, 0xfd, 0x20, 5, 1, 0, 0]

  lemma ShortFrameHeader(s: seq<byte>)
    requires 6 <= |s| <= 9 && s == SHORT_FRAME[..|s|]
    ensures ParseFullHeader(s) == Ok(Complete(FullHeader(ZstdFrame, Some(5), 5, 5, 6, 0, false)))
  {
    assert s[..4] == MAGIC_BYTES;
    LeFour(MAGIC_BYTES);
    assert s[5..6] == [5] && LeValue(s[5..6]) == 5 + 256 * LeValue([]);
  }

  lemma ShortFrameBlocks(c: Codec, f: Frame, s: seq<byte>)
    requires |s| == 3 && s[0] == 1 && s[1] == 0 && s[2] == 0 && !f.checksum
    ensures ScanBlocks(c, f, [], s) == Scan([], Done(3)) && WholeBlocks(c, f, [], s) == Scan([], Done(3))
    ensures LastIsEmpty(s)
  {
    hide ReadBlockHeader;
    HeadDigits(s[0], s[1], s[2], 0, 0, 1);
    EmptyLast(c, f, s);
  }

  lemma ShortFrameWalk(s: seq<byte>)
    requires |s| == 3 && s[0] == 1 && s[1] == 0 && s[2] == 0
    ensures WalkBody(s, false, false) == End(3, 1)
  {
    hide ReadBlockHeader, WalkBlocks;
    HeadDigits(s[0], s[1], s[2], 0, 0, 1);
    WalkUnfold(s, false);
  }

  lemma EmptyLast(c: Codec, f: Frame, s: seq<byte>)
    requires |s| == 3 && HeadIs(s, BlockHeader(true, Raw, 0)) && !f.checksum
    ensures ScanBlocks(c, f, [], s) == Scan([], Done(3)) && WholeBlocks(c, f, [], s) == Scan([], Done(3))
  {
    hide ReadBlockHeader;
    assert s[..3] == s && s[3..] == [];
    assert ScanTrailer(c, f, Feed([], s), []) == Scan([], Done(0));
  }

  /** The block-by-block engine is never shown an empty last block: that path accepts
      this frame with no output, one-shot decoding refuses it, whatever else the engine
      does. */
  lemma EmptyLastBlockEscapes(c: Codec)
    requires c.opens(SHORT_FRAME[..6])
    ensures ScanFrame(c, SHORT_FRAME) == Scan([], Done(9))
    ensures OneShot(c, SHORT_FRAME) == None
  {
    hide ParseFullHeader, ScanBlocks, WholeBlocks, WalkBody, ScanFrame, OneShot, ReadBlockHeader, LastIsEmpty;
    var s := SHORT_FRAME;
    assert s[..9] == s;
    ShortFrameHeader(s);
    ShortFrameBlocks(c, FrameOf(s, ParseFullHeader(s).value.header), s[6..]);
    OpenScan(c, s);
    WholeBySize(c, s, [], 3);
  }

  /** And the shortcut's walk accepts it, so with five bytes of room the two
      paths part. */
  lemma EmptyLastBlockTakesShortcut()
    ensures ChainedSize(SHORT_FRAME[..6], SHORT_FRAME[6..]) == Some(9)
  {
    hide ParseFullHeader, ScanBlocks, WholeBlocks, WalkBody, ChainedSize, ReadBlockHeader, LastIsEmpty;
    var staged, rest := SHORT_FRAME[..6], SHORT_FRAME[6..];
    ShortFrameHeader(staged);
    ShortFrameWalk(rest);
    ChainedUnfold(staged, rest);
  }

  lemma ChainedUnfold(staged: seq<byte>, rest: seq<byte>)
    requires ParseFullHeader(staged).Ok? && ParseFullHeader(staged).value.Complete?
    requires ParseFullHeader(staged).value.header.headerSize == |staged|
    ensures var w := WalkBody(rest, ParseFullHeader(staged).value.header.checksum, false);
            ChainedSize(staged, rest) == if w.End? then Some(|staged| + w.size) else None
  {
    assert (staged + rest)[|staged|..] == rest;
    hide ParseFullHeader, WalkBody;
  }

  lemma OpenScan(c: Codec, s: seq<byte>)
    requires ParseFullHeader(s).Ok? && ParseFullHeader(s).value.Complete?
    requires ParseFullHeader(s).value.header.frameType.ZstdFrame?
    requires var n := ParseFullHeader(s).value.header.headerSize; n <= |s| && c.opens(s[..n])
    ensures var h := ParseFullHeader(s).value.header;
            ScanFrame(c, s) == Behind([], h.headerSize, ScanBlocks(c, FrameOf(s, h), [], s[h.headerSize..]))
  {
    hide ParseFullHeader, ScanBlocks;
  }

  /** A frame whose blocks are read one-shot to the end of the input is decoded if it has
      the declared size. */
  lemma WholeBySize(c: Codec, s: seq<byte>, out: seq<byte>, k: nat)
    requires ParseFullHeader(s).Ok? && ParseFullHeader(s).value.Complete?
    requires ParseFullHeader(s).value.header.frameType.ZstdFrame?
    requires var h := ParseFullHeader(s).value.header;
             && h.headerSize + k == |s| && c.opens(s[..h.headerSize])
             && WholeBlocks(c, FrameOf(s, h), [], s[h.headerSize..]) == Scan(out, Done(k))
    ensures WholeFrame(c, s) == if SizeAgrees(s, out) then Scan(out, Done(|s|)) else Scan([], Bad(DecodeFailed))
    ensures OneShot(c, s) == if SizeAgrees(s, out) then Some(out) else None
    ensures var size := ParseFullHeader(s).value.header.contentSize;
            SizeAgrees(s, out) <==> size.None? || |out| == size.value
  {
    hide ParseFullHeader, WholeBlocks;
    WholeZstd(c, s);
    assert [] + out == out;
    hide WholeFrame, SizeAgrees;
    OneShotOfOne(c, s);
  }

  lemma SizeDisagrees(s: seq<byte>, out: seq<byte>, n: nat)
    requires ParseFullHeader(s).Ok? && ParseFullHeader(s).value.Complete?
    requires ParseFullHeader(s).value.header.frameType.ZstdFrame?
    requires ParseFullHeader(s).value.header.contentSize == Some(n)
    ensures SizeAgrees(s, out) <==> |out| == n
  {
    hide ParseFullHeader;
  }

  // ------------------------------------------------------------------
  // A header that hides a header
  // ------------------------------------------------------------------

  /** Only a header of at least eleven bytes, at least four of them already read,
      can hide another: shorter headers are always decoded as the frame they
      start. */
  lemma HiddenNeedsLongHeader(p: Progress, offered: seq<byte>, room: nat)
    requires HiddenFrame(p, offered, room)
    ensures |p.taken| >= 4
    ensures ParseFullHeader(p.taken + offered).Ok? && ParseFullHeader(p.taken + offered).value.Complete?
    ensures ParseFullHeader(p.taken + offered).value.header.headerSize >= 11
  {
    hide ParseFullHeader, ChainedSize;
    var have: nat :| CompletesHeader(p, offered, have) && ShortcutAt(p, offered, room, have);
    ChainedIsFrameStart(offered[..have], offered[have..]);
    HiddenStart(p.taken, offered, have);
  }

  lemma HiddenStart(taken: seq<byte>, offered: seq<byte>, have: nat)
    requires taken != [] && have <= |offered|
    requires ParseFullHeader(taken + offered).Ok? && ParseFullHeader(taken + offered).value.Complete?
    requires ParseFullHeader(taken + offered).value.header.frameType.ZstdFrame?
    requires ParseFullHeader(offered[..have]).Ok? && ParseFullHeader(offered[..have]).value.Complete?
    ensures |taken| >= 4 && |taken| + have >= 11
  {
    MagicStart(taken + offered);
    StartByte(offered[..have]);
    hide ParseFullHeader;
    assert offered[..have][0] == offered[0] == (taken + offered)[|taken|];
  }

  lemma ChainedIsFrameStart(mine: seq<byte>, rest: seq<byte>)
    requires ChainedSize(mine, rest).Some?
    ensures ParseFullHeader(mine).Ok? && ParseFullHeader(mine).value.Complete?
  {
    hide ParseFullHeader;
  }

  /** A complete zstd header starts with its magic, and its descriptor has the
      reserved bit clear. */
  lemma MagicStart(s: seq<byte>)
    requires ParseFullHeader(s).Ok? && ParseFullHeader(s).value.Complete?
    requires ParseFullHeader(s).value.header.frameType.ZstdFrame?
    ensures |s| >= 6 && s[0] == 0x28 && s[1] == 0xb5 && s[2] == 0x2f && s[3] == 0xfd && s[4] / 8 % 2 == 0
  {
    HeaderFits(s);
    LeFour(MAGIC_BYTES);
    LeInjective(s[..4], MAGIC_BYTES);
    assert s[..4][0] == 0x28 && s[..4][1] == 0xb5 && s[..4][2] == 0x2f && s[..4][3] == 0xfd;
  }

  /** How a complete header of either family starts, and how long it is. */
  lemma StartByte(s: seq<byte>)
    requires ParseFullHeader(s).Ok? && ParseFullHeader(s).value.Complete?
    ensures |s| >= 6
    ensures s[0] == 0x28 || (0x50 <= s[0] <= 0x5f && |s| >= 8)
  {
    HeaderFits(s);
    if SkippableMagic(LeValue(s[..4])) {
      SkippableBytes(s[..4]);
      assert s[..4][0] == s[0];
    } else {
      MagicStart(s);
    }
  }

  /** A valid frame: a dictionary id that spells the magic, eight bytes of content
      size 32, one RLE block of 32 bytes. */
  const HIDING_FRAME: seq<byte> :=
    [0x28, 0xb5, 0x2f, 0xfd, 0xe3, 0x28, 0xb5, 0x2f, 0xfd, 0x20, 0, 0, 0, 0, 0, 0, 0, 3, 1, 0, 0x78]

  lemma {:induction false} LeZeros(s: seq<byte>)
    requires forall i :: 0 <= i < |s| ==> s[i] == 0
    ensures LeValue(s) == 0
  {
    if s != [] {
      LeZeros(s[1..]);
    }
  }

  lemma HidingBytes()
    ensures |HIDING_FRAME| == 21
    ensures HIDING_FRAME[..4] == MAGIC_BYTES && HIDING_FRAME[4] == 0xe3 && HIDING_FRAME[5..9] == MAGIC_BYTES
    ensures HIDING_FRAME[9] == 0x20 && forall i :: 10 <= i < 17 ==> HIDING_FRAME[i] == 0
    ensures HIDING_FRAME[17..] == [3, 1, 0, 0x78]
  {
    var s := HIDING_FRAME;
    assert s[5] == 0x28 && s[6] == 0xb5 && s[7] == 0x2f && s[8] == 0xfd;
    assert s[10] == 0 && s[11] == 0 && s[12] == 0 && s[13] == 0 && s[14] == 0 && s[15] == 0 && s[16] == 0;
    assert s[17] == 3 && s[18] == 1 && s[19] == 0 && s[20] == 0x78;
  }

  lemma HidingHeader(s: seq<byte>)
    requires 17 <= |s| <= 21 && s == HIDING_FRAME[..|s|]
    ensures ParseFullHeader(s) == Ok(Complete(FullHeader(ZstdFrame, Some(32), 32, 32, 17, MAGIC, false)))
  {
    HidingBytes();
    assert s[..4] == HIDING_FRAME[..4] && s[5..9] == HIDING_FRAME[5..9];
    LeFour(MAGIC_BYTES);
    LeZeros(s[9..17][1..]);
    assert s[9..17][0] == 0x20;
    assert s[4] == 0xe3;
  }

  lemma HidingStart(s: seq<byte>)
    requires s == HIDING_FRAME[..5]
    ensures ParseFullHeader(s) == Ok(Wanted(17))
  {
    HidingBytes();
    assert s[..4] == HIDING_FRAME[..4];
    LeFour(MAGIC_BYTES);
  }

  lemma HiddenHeader(s: seq<byte>)
    requires 12 <= |s| <= 16 && s == HIDING_FRAME[5..][..|s|]
    ensures ParseFullHeader(s) == Ok(Complete(FullHeader(ZstdFrame, Some(0), 0, 0, 6, 0, false)))
  {
    HidingBytes();
    assert forall i :: 0 <= i < |s| ==> s[i] == HIDING_FRAME[5 + i];
    assert s[..4] == HIDING_FRAME[5..9];
    LeFour(MAGIC_BYTES);
    LeZeros(s[5..6]);
    assert s[4] == 0x20;
  }

  lemma HiddenBlocks(s: seq<byte>)
    requires s == [0, 0, 0, 0, 0, 0, 3, 1, 0, 0x78]
    ensures WalkBody(s, false, false) == End(10, 3)
  {
    hide WalkBlocks, ReadBlockHeader;
    HiddenHeads(s);
    WalkUnfold(s[6..], false);
    WalkUnfold(s[3..], false);
    WalkUnfold(s, false);
  }

  /** The block header at the start of `s`. */
  predicate HeadIs(s: seq<byte>, h: BlockHeader) {
    |s| >= 3 && HeaderAt(s) == h
  }

  lemma EmptyHead(s: seq<byte>)
    requires |s| >= 3 && s[0] == 0 && s[1] == 0 && s[2] == 0
    ensures HeadIs(s, BlockHeader(false, Raw, 0))
  {
    hide ReadBlockHeader;
    HeadDigits(s[0], s[1], s[2], 0, 0, 0);
  }

  lemma RunHead(s: seq<byte>)
    requires |s| >= 3 && s[0] == 3 && s[1] == 1 && s[2] == 0
    ensures HeadIs(s, BlockHeader(true, Rle, 32))
  {
    hide ReadBlockHeader;
    HeadDigits(s[0], s[1], s[2], 0, 1, 1);
  }

  lemma HeadDigits(b0: byte, b1: byte, b2: byte, low: nat, code: nat, last: nat)
    requires low < 32 && code < 2 && last < 2 && b0 as int == 8 * low + 2 * code + last
    ensures ReadBlockHeader(b0, b1, b2)
         == BlockHeader(last == 1, if code == 0 then Raw else Rle, low + 32 * b1 as int + 8192 * b2 as int)
  {
  }

  lemma HiddenHeads(s: seq<byte>)
    requires s == [0, 0, 0, 0, 0, 0, 3, 1, 0, 0x78]
    ensures HeadIs(s, BlockHeader(false, Raw, 0)) && HeadIs(s[3..], BlockHeader(false, Raw, 0))
    ensures HeadIs(s[6..], BlockHeader(true, Rle, 32)) && s[3..][3..] == s[6..]
  {
    hide HeadIs;
    EmptyHead(s);
    EmptyHead(s[3..]);
    RunHead(s[6..]);
  }

  /** A frame's only block is a run: how each path reads it. */
  lemma OneRun(c: Codec, f: Frame, s: seq<byte>, n: nat)
    requires |s| == 4 && HeadIs(s, BlockHeader(true, Rle, n)) && !f.checksum
    ensures 1 <= f.blockSizeMax && n <= f.blockSizeMax && (Declared(f.header).None? || Declared(f.header) == Some(n)) ==>
              ScanBlocks(c, f, [], s) == Scan(Repeat(s[3], n), Done(4))
    ensures n > f.blockSizeMax ==> ScanBlocks(c, f, [], s).verdict.Bad?
    ensures if n <= (if c.dictionary(f.header).Some? then f.blockSizeMax else MAX_BLOCK_CONTENT)
            then WholeBlocks(c, f, [], s) == Scan(Repeat(s[3], n), Done(4))
            else WholeBlocks(c, f, [], s).verdict.Bad?
  {
    hide ReadBlockHeader, Declared, Produced, Kept;
    assert s[..4] == s && s[4..] == [];
    ProducedBlock(c, f, [], s);
    NothingProduced(c, f);
    assert ScanTrailer(c, f, Feed([], s), []) == Scan([], Done(0));
    assert Repeat(s[3], n) + [] == Repeat(s[3], n);
  }

  lemma NothingProduced(c: Codec, f: Frame)
    ensures Produced(c, f, []) == 0
    ensures StreamedContent(c, f, []) == [] && WholeContent(c, f, []) == [] && Undisturbed(c, f, [])
  {
  }

  /** An empty block in front changes nothing. */
  lemma BehindEmpty(c: Codec, f: Frame, s: seq<byte>)
    requires HeadIs(s, BlockHeader(false, Raw, 0))
    ensures ScanBlocks(c, f, [], s) == Behind([], 3, ScanBlocks(c, f, [], s[3..]))
    ensures WholeBlocks(c, f, [], s) == Behind([], 3, WholeBlocks(c, f, [], s[3..]))
  {
    hide ReadBlockHeader;
    assert Feed([], s[..3]) == [];
  }

  /** The frame is valid and its content has the declared size, for every engine that opens
      it: it names a dictionary, so that has to be there. */
  lemma HidingFrameIsValid(c: Codec)
    requires c.opens(HIDING_FRAME[..17])
    ensures ScanFrame(c, HIDING_FRAME) == Scan(Repeat(0x78, 32), Done(21))
    ensures OneShot(c, HIDING_FRAME) == Some(Repeat(0x78, 32))
  {
    hide ParseFullHeader, ScanBlocks, WholeBlocks, ScanFrame, OneShot, ReadBlockHeader, HeadIs;
    var s := HIDING_FRAME;
    HidingBytes();
    assert s[..21] == s;
    HidingHeader(s);
    HidingHeader(s[..17]);
    RunHead(s[17..]);
    OneRun(c, FrameOf(s, ParseFullHeader(s).value.header), s[17..], 32);
    OpenScan(c, s);
    assert [] + Repeat<byte>(0x78, 32) == Repeat(0x78, 32);
    WholeBySize(c, s, Repeat(0x78, 32), 4);
  }

  const HIDING_BEGUN: Progress := Progress(HIDING_FRAME[..5], [], [], false)

  /** Its first five bytes in one call and the rest in the next: the second call can
      only be refused, though the frame is valid and its output fits. The hidden bytes
      declare nothing and give 32 bytes, or more than a dictionary frame's limit allows. */
  lemma HidingFrameIsRefused(c: Codec, hint: Option<nat>, took: nat, gave: seq<byte>, q: Progress, now: Progress)
    requires Answered(c, HIDING_BEGUN, HIDING_FRAME[5..], 32, hint, took, gave, q, now)
    ensures HiddenFrame(HIDING_BEGUN, HIDING_FRAME[5..], 32) && hint.None?
  {
    var offered := HIDING_FRAME[5..];
    HiddenSpan();
    HiddenInner(c);
    assert offered[..16] == offered;
    hide ParseFullHeader, ChainedSize, ScanFrame, OneShot;
  }

  lemma HiddenSpan()
    ensures CompletesHeader(HIDING_BEGUN, HIDING_FRAME[5..], 12)
            && ShortcutAt(HIDING_BEGUN, HIDING_FRAME[5..], 32, 12)
            && ChainedSize(HIDING_FRAME[5..][..12], HIDING_FRAME[5..][12..]) == Some(16)
  {
    hide ParseFullHeader, ChainedSize, WalkBody, LeValue;
    var p := HIDING_BEGUN;
    var offered := HIDING_FRAME[5..];
    HidingBytes();
    HidingStart(p.taken);
    assert p.taken + offered == HIDING_FRAME == HIDING_FRAME[..21];
    HidingHeader(p.taken + offered);
    HiddenHeader(offered[..12]);
    HiddenTail(offered);
    HiddenChain(offered);
  }

  lemma HiddenRun(c: Codec, f: Frame, s: seq<byte>)
    requires s == [0, 0, 0, 0, 0, 0, 3, 1, 0, 0x78] && !f.checksum && f.blockSizeMax == 0
    ensures WholeBlocks(c, f, [], s).verdict.Bad? || WholeBlocks(c, f, [], s) == Scan(Repeat(0x78, 32), Done(10))
  {
    hide ReadBlockHeader, WholeBlocks, ScanBlocks, HeadIs;
    HiddenHeads(s);
    BehindEmpty(c, f, s);
    BehindEmpty(c, f, s[3..]);
    OneRun(c, f, s[6..], 32);
    assert [] + Repeat<byte>(0x78, 32) == Repeat(0x78, 32);
  }

  lemma HiddenInner(c: Codec)
    ensures OneShot(c, HIDING_FRAME[5..]) == None
  {
    hide ParseFullHeader, ScanFrame, ScanBlocks, WholeBlocks, WholeFrame, SizeAgrees, OneShot, HeadIs, WalkBody;
    var offered := HIDING_FRAME[5..];
    HidingBytes();
    assert offered[..16] == offered;
    HiddenHeader(offered);
    HiddenTail(offered);
    var f := FrameOf(offered, ParseFullHeader(offered).value.header);
    HiddenRun(c, f, offered[6..]);
    if c.opens(offered[..6]) && WholeBlocks(c, f, [], offered[6..]).verdict.Done? {
      WholeBySize(c, offered, Repeat(0x78, 32), 10);
    } else {
      WholeZstd(c, offered);
      RefusedWhole(c, offered);
    }
  }

  lemma RefusedWhole(c: Codec, s: seq<byte>)
    requires s != [] && WholeFrame(c, s).verdict.Bad?
    ensures OneShot(c, s) == None
  {
    hide WholeFrame;
  }

  lemma HiddenTail(offered: seq<byte>)
    requires offered == HIDING_FRAME[5..]
    ensures offered[6..] == [0, 0, 0, 0, 0, 0, 3, 1, 0, 0x78]
    ensures WalkBody(offered[6..], false, false) == End(10, 3)
  {
    HidingBytes();
    assert forall i :: 12 <= i < 16 ==> offered[i] == HIDING_FRAME[17..][i - 12];
    assert offered[6..] == [0, 0, 0, 0, 0, 0, 3, 1, 0, 0x78];
    HiddenBlocks(offered[6..]);
  }

  lemma HiddenChain(offered: seq<byte>)
    requires |offered| == 16 && WalkBody(offered[6..], false, false) == End(10, 3)
    requires ParseFullHeader(offered[..12]).Ok? && ParseFullHeader(offered[..12]).value.Complete?
    requires ParseFullHeader(offered[..12]).value.header.headerSize == 6
    requires !ParseFullHeader(offered[..12]).value.header.checksum
    ensures ChainedSize(offered[..12], offered[12..]) == Some(16)
  {
    assert offered[..12] + offered[12..] == offered;
    hide ParseFullHeader, WalkBody;
  }

  // ------------------------------------------------------------------
  // A hint that overshoots
  // ------------------------------------------------------------------

  /** In the header of a skippable frame the hint reaches past the frame exactly when
      the frame is shorter than what the parser asks for next and a block header:
      nine bytes in all before the fifth is read, eleven from there on. */
  lemma SkippableHintOvershootsIff(c: Codec, s: seq<byte>, n: nat)
    requires IsSkippable(s) && ScanFrame(c, s).verdict.Done? && n < SKIPPABLE_HEADER && n <= |s|
    ensures ScanFrame(c, s[..n]).verdict.More?
    ensures n + ScanFrame(c, s[..n]).verdict.want > ScanFrame(c, s).verdict.size
            <==> ScanFrame(c, s).verdict.size < if n < 5 then 9 else 11
  {
    hide ScanFrame, IsSkippable;
    SkippableShortHint(c, s, n);
  }

  /** Five bytes of an empty skippable frame: six more are asked for, three are
      left. */
  lemma SkippableHintOvershoots(c: Codec)
    ensures ScanFrame(c, EMPTY_FRAME[..5]).verdict == More(6) && ScanFrame(c, EMPTY_FRAME).verdict == Done(8)
  {
    EmptyFrameScan(c);
    LeFour(SKIPPABLE_MIN_BYTES);
    assert EMPTY_FRAME[..4] == SKIPPABLE_MIN_BYTES;
    hide ScanFrame;
    SkippableShortHint(c, EMPTY_FRAME, 5);
  }
}
