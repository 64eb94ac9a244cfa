/** What a byte string means as a frame: a big-step reference reader, against
    which the streaming decoder is proved. */
module FrameContent {
  import opened Bytes
  import opened FrameHeader
  import opened FrameWalk
  import opened BlockEngine

  /** How far a byte string goes: `want` more bytes finish the current piece (and
      the header of the block behind it), a frame of `size` bytes is complete, or
      no frame starts like this, for the reason the code gives. */
  datatype Verdict = More(want: nat) | Done(size: nat) | Bad(code: ErrorCode)

  datatype Scan = Scan(out: seq<byte>, verdict: Verdict)

  /** The scan of `n` bytes that gave `out`, followed by `rest`. */
  function Behind(out: seq<byte>, n: nat, rest: Scan): Scan {
    Scan(out + rest.out, if rest.verdict.Done? then Done(n + rest.verdict.size) else rest.verdict)
  }

  function ScanTrailer(c: Codec, f: Frame, fed: seq<seq<byte>>, s: seq<byte>): (r: Scan)
    ensures r.verdict.Done? ==> r.verdict.size <= |s|
    ensures r.verdict.More? ==> r.verdict.want >= 1
  {
    if !f.checksum then Scan([], Done(0))
    else if |s| < 4 then Scan([], More(4 - |s|))
    else if TrailerTaken(c, f, fed, s[..4]) then Scan([], Done(4))
    else Scan([], Bad(DecodeFailed))
  }

  /** Blocks one after the other, each decoded with all of its predecessors;
      a raw body counts as output while it arrives. */
  function ScanBlocks(c: Codec, f: Frame, fed: seq<seq<byte>>, s: seq<byte>): (r: Scan)
    ensures r.verdict.Done? ==> 3 <= r.verdict.size <= |s|
    ensures r.verdict.More? ==> r.verdict.want >= 1
    decreases |s|
  {
    if |s| < 3 then Scan([], More(3 - |s|))
    else
      var h := HeaderAt(s);
      if !BlockHeaderOk(f, h) then Scan([], Bad(CorruptionDetected))
      else
        var n := 3 + h.BodySize();
        if |s| < n then Scan(if h.wire.Raw? then s[3..] else [], More(n - |s| + if h.last then 0 else 3))
        else
          var block := s[..n];
          if !BlockOk(c, f, fed, block) then Scan([], Bad(DecodeFailed))
          else Behind(BlockOut(c, f, fed, block), n,
                      if h.last then ScanTrailer(c, f, Feed(fed, block), s[n..])
                      else ScanBlocks(c, f, Feed(fed, block), s[n..]))
  }

  function FrameOf(s: seq<byte>, h: FullHeader): Frame
    requires h.headerSize <= |s|
  {
    Frame(s[..h.headerSize], h.blockSizeMax, h.checksum)
  }

  /** Reading `s` from the start of a frame. */
  function ScanFrame(c: Codec, s: seq<byte>): (r: Scan)
    ensures r.verdict.Done? ==> 3 <= r.verdict.size <= |s|
    ensures r.verdict.More? ==> r.verdict.want >= 1
  {
    hide ParseFullHeader;
    match ParseFullHeader(s)
    case Err(e) => Scan([], Bad(ParseErrorCode(e)))
    case Ok(Wanted(want)) =>
      WantedIsNecessary(s, []);
      assert s + [] == s;
      Scan([], More(Max(want, FRAME_HEADER_MIN) - |s| + 3))
    case Ok(Complete(h)) =>
      HeaderFits(s);
      CompleteShape(s);
      if h.frameType.SkippableFrame? then
        var total := SKIPPABLE_HEADER + h.contentSize.value;
        if |s| < total then Scan([], More(total - |s|)) else Scan([], Done(total))
      else if !c.opens(s[..h.headerSize]) then Scan([], Bad(DecodeFailed))
      else Behind([], h.headerSize, ScanBlocks(c, FrameOf(s, h), [], s[h.headerSize..]))
  }

  const FRAME_HEADER_MIN: nat := 6

  lemma CompleteShape(s: seq<byte>)
    requires ParseFullHeader(s).Ok? && ParseFullHeader(s).value.Complete?
    ensures var h := ParseFullHeader(s).value.header;
            h.frameType.SkippableFrame? ==> h.contentSize.Some? && h.headerSize == SKIPPABLE_HEADER
  {
  }

  // ------------------------------------------------------------------
  // Reading more of the same bytes
  // ------------------------------------------------------------------

  /** How the scan of an extension relates to the scan before it: verdicts
      latch, output only grows, and a completion is at least `want` bytes away. */
  ghost predicate Grows(a: Scan, n: nat, b: Scan) {
    && (a.verdict.Bad? ==> b.verdict == a.verdict)
    && (a.verdict.Done? ==> b == a)
    && (a.verdict.More? && !b.verdict.Bad? ==> a.out <= b.out)
    && (a.verdict.More? && b.verdict.Done? ==> b.verdict.size >= n + a.verdict.want)
  }

  lemma TrailerGrows(c: Codec, f: Frame, fed: seq<seq<byte>>, s: seq<byte>, t: seq<byte>)
    ensures Grows(ScanTrailer(c, f, fed, s), |s|, ScanTrailer(c, f, fed, s + t))
  {
    hide TrailerTaken;
    if |s| >= 4 {
      assert (s + t)[..4] == s[..4];
    }
  }

  /** A body that is still arriving is a prefix of the block's output. */
  lemma PartialGrows(c: Codec, f: Frame, fed: seq<seq<byte>>, s: seq<byte>, t: seq<byte>)
    requires |s| >= 3 && |s| < 3 + HeaderAt(s).BodySize()
    ensures Grows(ScanBlocks(c, f, fed, s), |s|, ScanBlocks(c, f, fed, s + t))
  {
    var h := HeaderAt(s);
    var n := 3 + h.BodySize();
    assert HeaderAt(s + t) == h;
    hide ReadBlockHeader, ScanTrailer;
    if |s + t| >= n && h.wire.Raw? {
      var block := (s + t)[..n];
      assert HeaderAt(block) == h;
      assert s[3..] <= block[3..];
    }
  }

  lemma {:induction false} BlocksGrow(c: Codec, f: Frame, fed: seq<seq<byte>>, s: seq<byte>, t: seq<byte>)
    ensures Grows(ScanBlocks(c, f, fed, s), |s|, ScanBlocks(c, f, fed, s + t))
    decreases |s|
  {
    hide ReadBlockHeader, ScanTrailer, BlockOut, WholeOut, BlockOk, BlockHeaderOk, Feed;
    if |s| >= 3 {
      var h := HeaderAt(s);
      var n := 3 + h.BodySize();
      assert HeaderAt(s + t) == h;
      if |s| >= n {
        var block := s[..n];
        assert (s + t)[..n] == block;
        assert (s + t)[n..] == s[n..] + t;
        if h.last {
          TrailerGrows(c, f, Feed(fed, block), s[n..], t);
        } else {
          BlocksGrow(c, f, Feed(fed, block), s[n..], t);
        }
      } else {
        PartialGrows(c, f, fed, s, t);
      }
    }
  }

  lemma ScanGrows(c: Codec, s: seq<byte>, t: seq<byte>)
    ensures var a, b := ScanFrame(c, s), ScanFrame(c, s + t);
            && (a.verdict.Bad? ==> b.verdict == a.verdict)
            && (a.verdict.Done? ==> b == a)
            && (a.verdict.More? && !b.verdict.Bad? ==> a.out <= b.out)
            && (a.verdict.More? && b.verdict.Done? && !IsSkippableStart(s, t) ==>
                b.verdict.size >= |s| + a.verdict.want)
  {
    hide ParseFullHeader, ScanBlocks;
    var p := ParseFullHeader(s);
    if p.Err? || p.value.Complete? {
      FullHeaderLatches(s, t);
      if p.Ok? {
        HeaderFits(s);
        CompleteShape(s);
        var n := p.value.header.headerSize;
        assert (s + t)[..n] == s[..n] && (s + t)[n..] == s[n..] + t;
        BlocksGrow(c, FrameOf(s, p.value.header), [], s[n..], t);
      }
    } else if ParseFullHeader(s + t).Ok? && ParseFullHeader(s + t).value.Complete? {
      HeaderFits(s + t);
      CompleteShape(s + t);
      CompleteNotShort(s, t);
    }
  }

  /** The extension turns out to be a skippable frame whose header `s` did not
      yet hold: the one case in which a hint overshoots. */
  predicate IsSkippableStart(s: seq<byte>, t: seq<byte>) {
    |s| < SKIPPABLE_HEADER && IsSkippable(s + t)
  }

  lemma CompleteNotShort(s: seq<byte>, t: seq<byte>)
    requires ParseFullHeader(s).Ok? && ParseFullHeader(s).value.Wanted?
    requires ParseFullHeader(s + t).Ok? && ParseFullHeader(s + t).value.Complete?
    ensures ParseFullHeader(s + t).value.header.headerSize >= ParseFullHeader(s).value.want
    ensures ParseFullHeader(s + t).value.header.frameType.SkippableFrame? ==> IsSkippableStart(s, t)
    ensures ParseFullHeader(s).value.want >= 5
  {
    DescriptorFields((s + t)[4]);
    if |s| >= HEADER_PREFIX {
      assert (s + t)[..4] == s[..4];
      FormulaIsParsedLengthOrSkippable(s + t);
    }
  }

  lemma FormulaIsParsedLengthOrSkippable(s: seq<byte>)
    requires ParseFullHeader(s).Ok? && ParseFullHeader(s).value.Complete?
    ensures ParseFullHeader(s).value.header.headerSize ==
            if IsSkippable(s) then SKIPPABLE_HEADER else HeaderSizeFormula(s[4])
  {
    if !IsSkippable(s) {
      FormulaIsParsedLength(s);
    }
  }

  // ------------------------------------------------------------------
  // Resuming in the middle of a frame
  // ------------------------------------------------------------------

  ghost predicate BlocksFollow(c: Codec, base: seq<byte>, out: seq<byte>, f: Frame, fed: seq<seq<byte>>, x: seq<byte>) {
    ScanFrame(c, base + x) == Behind(out, |base|, ScanBlocks(c, f, fed, x))
  }

  ghost predicate TrailerFollows(c: Codec, base: seq<byte>, out: seq<byte>, f: Frame, fed: seq<seq<byte>>, x: seq<byte>) {
    ScanFrame(c, base + x) == Behind(out, |base|, ScanTrailer(c, f, fed, x))
  }

  /** Behind `base`, which gave `out`, the frame goes on with blocks. */
  ghost predicate AtBlocks(c: Codec, base: seq<byte>, out: seq<byte>, f: Frame, fed: seq<seq<byte>>) {
    forall x: seq<byte> :: BlocksFollow(c, base, out, f, fed, x)
  }

  /** Behind `base`, which gave `out`, only the trailer is left. */
  ghost predicate AtTrailer(c: Codec, base: seq<byte>, out: seq<byte>, f: Frame, fed: seq<seq<byte>>) {
    forall x: seq<byte> :: TrailerFollows(c, base, out, f, fed, x)
  }

  /** An accepted zstd header leads to the first block. */
  lemma HeaderLeadsToBlocks(c: Codec, s: seq<byte>)
    requires ParseFullHeader(s).Ok? && ParseFullHeader(s).value.Complete?
    requires var h := ParseFullHeader(s).value.header; h.frameType.ZstdFrame? && h.headerSize == |s|
    requires c.opens(s)
    ensures AtBlocks(c, s, [], FrameOf(s, ParseFullHeader(s).value.header), [])
  {
    var h := ParseFullHeader(s).value.header;
    hide ScanBlocks, ParseFullHeader;
    forall x: seq<byte>
      ensures BlocksFollow(c, s, [], FrameOf(s, h), [], x)
    {
      FullHeaderLatches(s, x);
      assert (s + x)[..|s|] == s && (s + x)[|s|..] == x && s[..|s|] == s;
    }
  }

  /** The scan behind an accepted block. */
  function ScanRest(c: Codec, f: Frame, fed: seq<seq<byte>>, last: bool, x: seq<byte>): Scan {
    if last then ScanTrailer(c, f, fed, x) else ScanBlocks(c, f, fed, x)
  }

  lemma OneBlock(c: Codec, f: Frame, fed: seq<seq<byte>>, block: seq<byte>, x: seq<byte>)
    requires |block| >= 3 && |block| == 3 + HeaderAt(block).BodySize()
    requires BlockHeaderOk(f, HeaderAt(block)) && BlockOk(c, f, fed, block)
    ensures ScanBlocks(c, f, fed, block + x) ==
            Behind(BlockOut(c, f, fed, block), |block|, ScanRest(c, f, Feed(fed, block), HeaderAt(block).last, x))
  {
    var s := block + x;
    assert HeaderAt(s) == HeaderAt(block);
    assert s[..|block|] == block && s[|block|..] == x;
    hide ScanTrailer, BlockOut, WholeOut, BlockOk, BlockHeaderOk, Feed, ReadBlockHeader;
  }

  lemma BehindBehind(out: seq<byte>, o: seq<byte>, n: nat, m: nat, rest: Scan)
    ensures Behind(out, n, Behind(o, m, rest)) == Behind(out + o, n + m, rest)
  {
    assert out + (o + rest.out) == (out + o) + rest.out;
  }

  /** An accepted block leads to the next block, or to the trailer. */
  lemma BlockLeadsOn(c: Codec, base: seq<byte>, out: seq<byte>, f: Frame, fed: seq<seq<byte>>, block: seq<byte>)
    requires AtBlocks(c, base, out, f, fed)
    requires |block| >= 3 && |block| == 3 + HeaderAt(block).BodySize()
    requires BlockHeaderOk(f, HeaderAt(block)) && BlockOk(c, f, fed, block)
    ensures if HeaderAt(block).last
            then AtTrailer(c, base + block, out + BlockOut(c, f, fed, block), f, Feed(fed, block))
            else AtBlocks(c, base + block, out + BlockOut(c, f, fed, block), f, Feed(fed, block))
  {
    var last := HeaderAt(block).last;
    var o := BlockOut(c, f, fed, block);
    hide ScanFrame, ScanBlocks, ScanTrailer, BlockOut, WholeOut, BlockOk, BlockHeaderOk, Feed, ReadBlockHeader, HeaderAt, Behind,
      BlocksFollow, TrailerFollows;
    forall x: seq<byte>
      ensures if last then TrailerFollows(c, base + block, out + o, f, Feed(fed, block), x)
              else BlocksFollow(c, base + block, out + o, f, Feed(fed, block), x)
    {
      assert BlocksFollow(c, base, out, f, fed, block + x);
      BlockThen(c, base, out, f, fed, block, x);
    }
  }

  lemma BlockThen(c: Codec, base: seq<byte>, out: seq<byte>, f: Frame, fed: seq<seq<byte>>, block: seq<byte>,
                  x: seq<byte>)
    requires BlocksFollow(c, base, out, f, fed, block + x)
    requires |block| >= 3 && |block| == 3 + HeaderAt(block).BodySize()
    requires BlockHeaderOk(f, HeaderAt(block)) && BlockOk(c, f, fed, block)
    ensures var o := BlockOut(c, f, fed, block);
            if HeaderAt(block).last then TrailerFollows(c, base + block, out + o, f, Feed(fed, block), x)
            else BlocksFollow(c, base + block, out + o, f, Feed(fed, block), x)
  {
    hide ScanFrame, ScanTrailer, ScanBlocks, BlockOut, WholeOut, BlockOk, BlockHeaderOk, Feed, ReadBlockHeader, HeaderAt,
      Behind;
    assert (base + block) + x == base + (block + x);
    OneBlock(c, f, fed, block, x);
    BehindBehind(out, BlockOut(c, f, fed, block), |base|, |block|,
                 ScanRest(c, f, Feed(fed, block), HeaderAt(block).last, x));
  }

  /** An empty block leads on without output and without the engine. */
  lemma EmptyBlockLeadsOn(c: Codec, base: seq<byte>, out: seq<byte>, f: Frame, fed: seq<seq<byte>>, head: seq<byte>)
    requires AtBlocks(c, base, out, f, fed)
    requires |head| == 3 && HeaderAt(head).BodySize() == 0 && BlockHeaderOk(f, HeaderAt(head))
    ensures if HeaderAt(head).last then AtTrailer(c, base + head, out, f, fed)
            else AtBlocks(c, base + head, out, f, fed)
  {
    hide AtBlocks, AtTrailer, HeaderAt;
    BlockLeadsOn(c, base, out, f, fed, head);
    assert out + [] == out;
  }

  /** A refused block header is the end of the line. */
  lemma BadBlockHeader(c: Codec, base: seq<byte>, out: seq<byte>, f: Frame, fed: seq<seq<byte>>, head: seq<byte>)
    requires AtBlocks(c, base, out, f, fed)
    requires |head| == 3 && !BlockHeaderOk(f, HeaderAt(head))
    ensures ScanFrame(c, base + head).verdict == Bad(CorruptionDetected)
  {
    assert BlocksFollow(c, base, out, f, fed, head);
    hide ScanFrame, BlockHeaderOk, HeaderAt;
    assert ScanBlocks(c, f, fed, head) == Scan([], Bad(CorruptionDetected));
  }

  lemma BadBlock(c: Codec, base: seq<byte>, out: seq<byte>, f: Frame, fed: seq<seq<byte>>, block: seq<byte>)
    requires AtBlocks(c, base, out, f, fed)
    requires |block| >= 3 && |block| == 3 + HeaderAt(block).BodySize()
    requires BlockHeaderOk(f, HeaderAt(block)) && !BlockOk(c, f, fed, block)
    ensures ScanFrame(c, base + block).verdict == Bad(DecodeFailed)
  {
    assert BlocksFollow(c, base, out, f, fed, block);
    RefusedBlock(c, f, fed, block);
    hide ScanFrame, ScanBlocks, HeaderAt, BlockOk;
  }

  lemma RefusedBlock(c: Codec, f: Frame, fed: seq<seq<byte>>, block: seq<byte>)
    requires |block| >= 3 && |block| == 3 + HeaderAt(block).BodySize()
    requires BlockHeaderOk(f, HeaderAt(block)) && !BlockOk(c, f, fed, block)
    ensures ScanBlocks(c, f, fed, block).verdict == Bad(DecodeFailed)
  {
    hide ReadBlockHeader, BlockOk, BlockHeaderOk, BlockOut, ScanTrailer, Feed;
    assert block[..|block|] == block;
  }

  /** What the frame wants while a block arrives, and what it has given. */
  lemma BlockArriving(c: Codec, base: seq<byte>, out: seq<byte>, f: Frame, fed: seq<seq<byte>>, part: seq<byte>)
    requires AtBlocks(c, base, out, f, fed)
    requires 3 <= |part| < 3 + HeaderAt(part).BodySize()
    requires BlockHeaderOk(f, HeaderAt(part))
    ensures var h := HeaderAt(part);
            ScanFrame(c, base + part) ==
            Scan(if h.wire.Raw? then out + part[3..] else out,
                 More(3 + h.BodySize() - |part| + if h.last then 0 else 3))
  {
    assert BlocksFollow(c, base, out, f, fed, part);
    hide ScanFrame, HeaderAt, BlockHeaderOk;
    assert out + [] == out;
  }

  lemma BlockHeaderArriving(c: Codec, base: seq<byte>, out: seq<byte>, f: Frame, fed: seq<seq<byte>>, part: seq<byte>)
    requires AtBlocks(c, base, out, f, fed) && |part| < 3
    ensures ScanFrame(c, base + part) == Scan(out, More(3 - |part|))
  {
    assert BlocksFollow(c, base, out, f, fed, part);
    hide ScanFrame;
    assert out + [] == out;
  }

  lemma TrailerArriving(c: Codec, base: seq<byte>, out: seq<byte>, f: Frame, fed: seq<seq<byte>>, part: seq<byte>)
    requires AtTrailer(c, base, out, f, fed) && f.checksum && |part| <= 4
    ensures ScanFrame(c, base + part) ==
            if |part| < 4 then Scan(out, More(4 - |part|))
            else if TrailerTaken(c, f, fed, part) then Scan(out, Done(|base + part|))
            else Scan(out, Bad(DecodeFailed))
  {
    hide ScanFrame, ScanTrailer;
    assert TrailerFollows(c, base, out, f, fed, part);
    TrailerPart(c, f, fed, part);
    assert out + [] == out;
  }

  lemma TrailerPart(c: Codec, f: Frame, fed: seq<seq<byte>>, part: seq<byte>)
    requires f.checksum && |part| <= 4
    ensures ScanTrailer(c, f, fed, part) ==
            if |part| < 4 then Scan([], More(4 - |part|))
            else if TrailerTaken(c, f, fed, part) then Scan([], Done(4))
            else Scan([], Bad(DecodeFailed))
  {
    hide TrailerTaken;
    assert part == part[..|part|];
  }

  lemma NoTrailer(c: Codec, base: seq<byte>, out: seq<byte>, f: Frame, fed: seq<seq<byte>>)
    requires AtTrailer(c, base, out, f, fed) && !f.checksum
    ensures ScanFrame(c, base) == Scan(out, Done(|base|))
  {
    assert TrailerFollows(c, base, out, f, fed, []);
    hide ScanFrame;
    assert base + [] == base && out + [] == out;
  }

  /** A skippable frame past its header: what it wants, or its end. */
  lemma SkippableArriving(c: Codec, s: seq<byte>)
    requires ParseFullHeader(s).Ok? && ParseFullHeader(s).value.Complete?
    requires ParseFullHeader(s).value.header.frameType.SkippableFrame?
    ensures ParseFullHeader(s).value.header.contentSize.Some?
    ensures var total := SKIPPABLE_HEADER + ParseFullHeader(s).value.header.contentSize.value;
            ScanFrame(c, s) == if |s| < total then Scan([], More(total - |s|)) else Scan([], Done(total))
  {
    CompleteShape(s);
    hide ParseFullHeader;
  }

  /** What an incomplete header wants: itself and the first block header. */
  lemma WantedScan(c: Codec, s: seq<byte>)
    requires ParseFullHeader(s).Ok? && ParseFullHeader(s).value.Wanted?
    ensures |s| < ParseFullHeader(s).value.want
    ensures ScanFrame(c, s) == Scan([], More(Max(ParseFullHeader(s).value.want, 6) - |s| + 3))
  {
    WantedIsNecessary(s, []);
    assert s + [] == s;
    hide ParseFullHeader;
  }

  /** Claiming exactly what is wanted never claims past the header. */
  lemma HeaderEndsAtWant(s: seq<byte>, t: seq<byte>)
    requires ParseFullHeader(s).Ok? && ParseFullHeader(s).value.Wanted?
    requires |s + t| == ParseFullHeader(s).value.want
    ensures ParseFullHeader(s + t).Ok? && ParseFullHeader(s + t).value.Complete? ==>
              ParseFullHeader(s + t).value.header.headerSize == |s + t|
  {
    if ParseFullHeader(s + t).Ok? && ParseFullHeader(s + t).value.Complete? {
      CompleteNotShort(s, t);
      HeaderFits(s + t);
    }
  }

  lemma EmptyIsWanted()
    ensures ParseFullHeader([]).Ok? && ParseFullHeader([]).value.Wanted?
  {
  }

  lemma RefusedHeader(c: Codec, s: seq<byte>)
    requires ParseFullHeader(s).Err?
    ensures ScanFrame(c, s).verdict == Bad(ParseErrorCode(ParseFullHeader(s).error))
  {
    hide ParseFullHeader;
  }

  /** The error a header is refused with. */
  lemma HeaderRefusals(c: Codec, s: seq<byte>)
    requires |s| >= 18
    ensures var zstd := s[..4] == [0x28, 0xb5, 0x2f, 0xfd];
            var skippable := 0x50 <= s[0] <= 0x5f && s[1..4] == [0x2a, 0x4d, 0x18];
            && (!zstd && !skippable ==> ScanFrame(c, s).verdict == Bad(PrefixUnknown))
            && (zstd && s[4] / 8 % 2 == 1 ==> ScanFrame(c, s).verdict == Bad(FrameParameterUnsupported))
            && (zstd && s[4] / 8 % 2 == 0 && s[4] / 32 % 2 == 0 && s[5] >= 176 ==>
                  ScanFrame(c, s).verdict == Bad(FrameParameterWindowTooLarge))
  {
    HeaderVerdict(s);
    if ParseFullHeader(s).Err? {
      RefusedHeader(c, s);
    }
    hide ParseFullHeader, ScanFrame;
  }

  lemma BlockMaxBound(s: seq<byte>)
    requires ParseFullHeader(s).Ok? && ParseFullHeader(s).value.Complete?
    ensures ParseFullHeader(s).value.header.blockSizeMax <= MAX_BLOCK_CONTENT
  {
  }

  /** A whole zstd header: the engine takes it and blocks follow, or nothing does. */
  lemma HeaderOutcome(c: Codec, s: seq<byte>)
    requires ParseFullHeader(s).Ok? && ParseFullHeader(s).value.Complete?
    requires var h := ParseFullHeader(s).value.header; h.frameType.ZstdFrame? && h.headerSize == |s|
    ensures var h := ParseFullHeader(s).value.header;
            && h.blockSizeMax <= MAX_BLOCK_CONTENT
            && (c.opens(s) ==> AtBlocks(c, s, [], Frame(s, h.blockSizeMax, h.checksum), []))
            && (!c.opens(s) ==> ScanFrame(c, s).verdict == Bad(DecodeFailed))
  {
    BlockMaxBound(s);
    hide ParseFullHeader, ScanBlocks;
    assert s[..|s|] == s;
    if c.opens(s) {
      HeaderLeadsToBlocks(c, s);
    }
  }

  // ------------------------------------------------------------------
  // The content reader and the size walk find the same end
  // ------------------------------------------------------------------

  lemma {:induction false} ScanFollowsWalk(c: Codec, f: Frame, fed: seq<seq<byte>>, s: seq<byte>)
    ensures var w, r := WalkBody(s, f.checksum, false), ScanBlocks(c, f, fed, s).verdict;
            && (w.End? ==> r.Bad? || r == Done(w.size))
            && (r.Done? ==> w.End? && w.size == r.size)
    decreases |s|
  {
    if |s| >= 3 {
      var h := HeaderAt(s);
      var n := 3 + h.BodySize();
      if |s| >= n && !h.last {
        hide ReadBlockHeader, BlockOut, BlockOk, ScanTrailer;
        ScanFollowsWalk(c, f, Feed(fed, s[..n]), s[n..]);
      }
    }
  }

  /** A frame read to its end is exactly what the size-info walk measures; a
      frame the walk accepts is read to the same end or refused by content. */
  lemma ScanMatchesSizeInfo(c: Codec, s: seq<byte>)
    requires !IsSkippable(s)
    ensures ScanFrame(c, s).verdict.Done? ==>
            SizeInfo(s).Ok? && SizeInfo(s).value.compressedSize == ScanFrame(c, s).verdict.size
    ensures SizeInfo(s).Ok? ==>
            ScanFrame(c, s).verdict.Bad? || ScanFrame(c, s).verdict == Done(SizeInfo(s).value.compressedSize)
  {
    if ParseFullHeader(s).Ok? && ParseFullHeader(s).value.Complete? {
      NotSkippableHeader(s);
    }
    hide ParseFullHeader, ScanBlocks, WalkBody, IsSkippable;
    var p := ParseFullHeader(s);
    if p.Ok? && p.value.Complete? {
      HeaderFits(s);
      var n := p.value.header.headerSize;
      ScanFollowsWalk(c, FrameOf(s, p.value.header), [], s[n..]);
    }
  }

  lemma NotSkippableHeader(s: seq<byte>)
    requires !IsSkippable(s) && ParseFullHeader(s).Ok? && ParseFullHeader(s).value.Complete?
    ensures ParseFullHeader(s).value.header.frameType.ZstdFrame?
  {
  }

  /** The declared size, if any, is the produced one. */
  predicate SizeAgrees(s: seq<byte>, out: seq<byte>) {
    ParseFullHeader(s).Ok? && ParseFullHeader(s).value.Complete? &&
    ParseFullHeader(s).value.header.contentSize.Some? &&
    ParseFullHeader(s).value.header.frameType.ZstdFrame? ==>
      |out| == ParseFullHeader(s).value.header.contentSize.value
  }

  /** The shortest frame there is. */
  const EMPTY_FRAME: seq<byte> := SKIPPABLE_MIN_BYTES + [0, 0, 0, 0]

  lemma EmptyFrameScan(c: Codec)
    ensures ScanFrame(c, EMPTY_FRAME) == Scan([], Done(8))
  {
    var s := EMPTY_FRAME;
    LeFour(SKIPPABLE_MIN_BYTES);
    assert s[..4] == SKIPPABLE_MIN_BYTES;
    assert s[4..8] == LeBytes(0, 4);
    LeRoundTrip(0, 4);
  }

  /** No frame starts with these bytes. */
  predicate Rejected(c: Codec, s: seq<byte>) {
    ScanFrame(c, s).verdict.Bad?
  }

  /** No frame starts with these bytes, and this is why. */
  predicate Refuses(c: Codec, s: seq<byte>, code: ErrorCode) {
    ScanFrame(c, s).verdict == Bad(code)
  }

  lemma RefusesRejects(c: Codec, s: seq<byte>, code: ErrorCode)
    requires Refuses(c, s, code)
    ensures Rejected(c, s)
  {
    hide ScanFrame;
  }

  /** A refusal of the bytes read so far refuses everything offered. */
  lemma RejectedExtends(c: Codec, before: seq<byte>, offered: seq<byte>, s: seq<byte>, rest: seq<byte>)
    requires before + offered == s + rest
    requires ScanFrame(c, s).verdict.Bad?
    ensures Refuses(c, before + offered, ScanFrame(c, s).verdict.code)
  {
    ScanGrows(c, s, rest);
    hide ScanFrame;
  }

  lemma HeaderLatched(before: seq<byte>, offered: seq<byte>, s: seq<byte>, rest: seq<byte>)
    requires before + offered == s + rest
    requires ParseFullHeader(s).Ok? && ParseFullHeader(s).value.Complete?
    ensures ParseFullHeader(before + offered) == ParseFullHeader(s)
  {
    FullHeaderLatches(s, rest);
    hide ParseFullHeader;
  }

  lemma ZstdNotSkippable(s: seq<byte>)
    requires ParseFullHeader(s).Ok? && ParseFullHeader(s).value.Complete?
    requires ParseFullHeader(s).value.header.frameType.ZstdFrame?
    ensures !IsSkippable(s)
  {
  }

  lemma ChainedKeepsHeader(staged: seq<byte>, rest: seq<byte>)
    requires ChainedSize(staged, rest).Some?
    ensures ParseFullHeader(staged).Ok? && ParseFullHeader(staged).value.Complete?
    ensures ParseFullHeader(staged).value.header.headerSize <= ChainedSize(staged, rest).value <= |staged + rest|
  {
    hide ParseFullHeader, WalkBody;
  }
}
