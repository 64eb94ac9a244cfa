/** The single-pass shortcut against the block-by-block path: exactly which frames tell
    the two apart, and what a call that takes the shortcut is worth. */
module ShortcutAgreement {
  import opened Bytes
  import opened FrameHeader
  import opened FrameWalk
  import opened BlockEngine
  import opened FrameContent
  import opened OneShots
  import opened StreamSpec
  import StreamRuns
  import opened StreamLimits

  predicate ZstdStart(s: seq<byte>) {
    && ParseFullHeader(s).Ok? && ParseFullHeader(s).value.Complete?
    && ParseFullHeader(s).value.header.frameType.ZstdFrame?
  }

  function BlocksOf(s: seq<byte>): seq<byte>
    requires ParseFullHeader(s).Ok? && ParseFullHeader(s).value.Complete?
  {
    HeaderFits(s);
    s[ParseFullHeader(s).value.header.headerSize..]
  }

  function OpenedAs(s: seq<byte>): Frame
    requires ParseFullHeader(s).Ok? && ParseFullHeader(s).value.Complete?
  {
    HeaderFits(s);
    FrameOf(s, ParseFullHeader(s).value.header)
  }

  // ------------------------------------------------------------------
  // One frame, both ways
  // ------------------------------------------------------------------

  /** The parts of a frame that only one of the paths checks, block limits and kept history
      on the one side, bodies of compressed blocks on the other; blocks that regenerate what
      they would with all of their history; and the same verdict on the trailer. */
  predicate Ordinary(c: Codec, s: seq<byte>)
    requires ZstdStart(s)
  {
    var f, b := OpenedAs(s), BlocksOf(s);
    AllCapped(f, b) && KeepsUp(c, f, [], b) && NoneHollow(b) && Faithful(c, f, [], b) && TrailerHeard(c, f, [], b)
  }

  lemma OpenedKnows(s: seq<byte>)
    requires ZstdStart(s)
    ensures var h, f := ParseFullHeader(s).value.header, OpenedAs(s);
            && Declared(f.header) == h.contentSize && f.blockSizeMax == h.blockSizeMax <= MAX_BLOCK_CONTENT
            && f.header == s[..h.headerSize] && f.checksum == h.checksum
  {
    BlockMaxBound(s);
    HeaderSelfDelimiting(s, ParseFullHeader(s).value.header.headerSize);
    hide ParseFullHeader;
  }

  /** A frame read block by block: the one-shot path reads it too exactly when no compressed
      block is hollow, the trailer is the checksum of the whole content and the declared size
      is met, which it is unless the last block is empty; and to the same content exactly
      when each block had its history. */
  lemma FrameReadIsWhole(c: Codec, s: seq<byte>)
    requires ZstdStart(s) && ScanFrame(c, s).verdict.Done?
    ensures AllCapped(OpenedAs(s), BlocksOf(s)) && KeepsUp(c, OpenedAs(s), [], BlocksOf(s))
    ensures !LastIsEmpty(BlocksOf(s)) ==> SizeAgrees(s, ScanFrame(c, s).out)
    ensures TrailerHeard(c, OpenedAs(s), [], BlocksOf(s)) <==> ChecksumHolds(c, OpenedAs(s), [], BlocksOf(s))
    ensures if NoneHollow(BlocksOf(s)) && ChecksumHolds(c, OpenedAs(s), [], BlocksOf(s))
               && SizeAgrees(s, ScanFrame(c, s).out)
            then && WholeFrame(c, s).verdict == ScanFrame(c, s).verdict
                 && (WholeFrame(c, s) == ScanFrame(c, s) <==> Faithful(c, OpenedAs(s), [], BlocksOf(s)))
            else WholeFrame(c, s).verdict.Bad?
  {
    hide ParseFullHeader, ScanBlocks, WholeBlocks, ScanFrame, WholeFrame, AllCapped, KeepsUp, NoneHollow, Faithful, TrailerHeard, ChecksumHolds, LastIsEmpty,
      Produced;
    var f, b := OpenedAs(s), BlocksOf(s);
    OpenedKnows(s);
    OpenScanned(c, s);
    WholeZstd(c, s);
    var out, whole := ScanBlocks(c, f, [], b).out, WholeBlocks(c, f, [], b).out;
    assert [] + out == out && [] + whole == whole;
    SizeByLength(s, out, whole);
    ReadIsWhole(c, f, [], b);
    Unproduced(c, f);
    if !LastIsEmpty(b) && Declared(f.header).Some? {
      LastBlockChecks(c, f, [], b);
    }
  }

  lemma SizeByLength(s: seq<byte>, a: seq<byte>, b: seq<byte>)
    ensures |a| == |b| ==> SizeAgrees(s, a) == SizeAgrees(s, b)
  {
    hide ParseFullHeader;
  }

  lemma Unproduced(c: Codec, f: Frame)
    ensures Produced(c, f, []) == 0 && Undisturbed(c, f, []) && StreamedContent(c, f, []) == WholeContent(c, f, [])
  {
  }

  lemma OpenScanned(c: Codec, s: seq<byte>)
    requires ZstdStart(s) && ScanFrame(c, s).verdict.Done?
    ensures var f, r := OpenedAs(s), ScanBlocks(c, OpenedAs(s), [], BlocksOf(s));
            && c.opens(f.header) && r.verdict.Done? && ScanFrame(c, s) == Scan(r.out, Done(|f.header| + r.verdict.size))
  {
    hide ParseFullHeader, ScanBlocks;
    HeaderFits(s);
  }

  /** A frame read one-shot: it has its declared size, its checksum and no hollow block, and
      the other path reads it the same exactly when it is ordinary. */
  lemma FrameWholeIsRead(c: Codec, s: seq<byte>)
    requires ZstdStart(s) && WholeFrame(c, s).verdict.Done?
    ensures NoneHollow(BlocksOf(s)) && ChecksumHolds(c, OpenedAs(s), [], BlocksOf(s))
    ensures SizeAgrees(s, WholeFrame(c, s).out)
    ensures Ordinary(c, s) <==> ScanFrame(c, s) == WholeFrame(c, s)
    ensures !Wraps(OpenedAs(s)) || InWindow(c, OpenedAs(s), [], BlocksOf(s)) ==>
              KeepsUp(c, OpenedAs(s), [], BlocksOf(s))
  {
    hide ParseFullHeader, ScanBlocks, WholeBlocks, ScanFrame, WholeFrame, AllCapped, KeepsUp, NoneHollow, Faithful, TrailerHeard, ChecksumHolds, InWindow,
      Wraps, Produced;
    var f, b := OpenedAs(s), BlocksOf(s);
    OpenedKnows(s);
    WholeZstd(c, s);
    Unproduced(c, f);
    WholeIsRead(c, f, [], b);
    if !Wraps(f) {
      UnwrappedKeepsUp(c, f, [], b);
    }
    if InWindow(c, f, [], b) {
      InWindowKeepsUp(c, f, [], b);
    }
    StreamOpens(c, s);
    if ScanFrame(c, s).verdict.Done? {
      FrameReadIsWhole(c, s);
    }
  }

  lemma StreamOpens(c: Codec, s: seq<byte>)
    requires ZstdStart(s) && c.opens(OpenedAs(s).header)
    ensures ScanFrame(c, s) == Behind([], |OpenedAs(s).header|, ScanBlocks(c, OpenedAs(s), [], BlocksOf(s)))
  {
    hide ParseFullHeader, ScanBlocks;
    HeaderFits(s);
  }

  /** Of the frames that one-shot decoding accepts, where the buffer covers the declared
      content or matches stay in the window, the block-by-block path reads, and then reads
      the same, exactly those within their block limits whose trailer, if it is behind an
      empty last block, passes for a block. */
  lemma AcceptedReadIff(c: Codec, s: seq<byte>)
    requires ZstdStart(s) && WholeFrame(c, s).verdict.Done?
    requires !Wraps(OpenedAs(s)) || InWindow(c, OpenedAs(s), [], BlocksOf(s))
    ensures var f, b, n := OpenedAs(s), BlocksOf(s), WholeFrame(c, s).verdict.size;
            && 4 <= n <= |s|
            && (ScanFrame(c, s).verdict.Done? ==> ScanFrame(c, s) == WholeFrame(c, s))
            && (ScanFrame(c, s).verdict.Done? <==>
                AllCapped(f, b) && (f.checksum && LastIsEmpty(b) ==> PassesAsBlock(f, s[n - 4..n])))
  {
    hide ScanFrame, WholeFrame, ParseFullHeader, AllCapped, KeepsUp, NoneHollow, Faithful, TrailerHeard, ChecksumHolds,
      LastIsEmpty, SizeAgrees, InWindow, Wraps, Undisturbed, Produced, StreamedContent, WholeContent, PassesAsBlock;
    var f, b := OpenedAs(s), BlocksOf(s);
    FrameWholeIsRead(c, s);
    Unproduced(c, f);
    NearIsFaithful(c, f, [], b);
    AcceptedTrailer(c, s);
    if !f.checksum || !LastIsEmpty(b) {
      FaithfulIsHeard(c, f, [], b);
    }
    if ScanFrame(c, s).verdict.Done? {
      FrameReadIsWhole(c, s);
    }
  }

  lemma AcceptedTrailer(c: Codec, s: seq<byte>)
    requires ZstdStart(s) && WholeFrame(c, s).verdict.Done?
    ensures var f, b, n := OpenedAs(s), BlocksOf(s), WholeFrame(c, s).verdict.size;
            && 4 <= n <= |s|
            && (f.checksum && LastIsEmpty(b) ==>
                  (TrailerHeard(c, f, [], b) <==> PassesAsBlock(f, s[n - 4..n])))
  {
    hide ParseFullHeader, ScanBlocks, WholeBlocks, WholeFrame, LastIsEmpty, SizeAgrees, Produced, TrailerHeard,
      PassesAsBlock;
    var f, b, n := OpenedAs(s), BlocksOf(s), WholeFrame(c, s).verdict.size;
    OpenedKnows(s);
    HeaderSelfDelimiting(s, 0);
    WholeZstd(c, s);
    Unproduced(c, f);
    var r := WholeBlocks(c, f, [], b);
    assert [] + r.out == r.out;
    AcceptedSize(s, r.out);
    if f.checksum && LastIsEmpty(b) {
      HeardAsBlock(c, f, [], b);
      var k, m := |f.header|, r.verdict.size;
      assert b[m - 4..m] == s[k + m - 4..k + m];
    }
  }

  lemma AcceptedSize(s: seq<byte>, out: seq<byte>)
    requires ZstdStart(s) && SizeAgrees(s, out)
    ensures ParseFullHeader(s).value.header.contentSize.Some? ==> |out| == ParseFullHeader(s).value.header.contentSize.value
  {
    hide ParseFullHeader;
  }

  // ------------------------------------------------------------------
  // The two paths on what the shortcut finds
  // ------------------------------------------------------------------

  /** What the two paths make of a frame of `n` bytes: its content or a refusal. */
  ghost predicate PathsAgree(c: Codec, s: seq<byte>, n: nat)
    requires n <= |s|
  {
    var scan := ScanFrame(c, s);
    OneShot(c, s[..n]) == if scan.verdict.Done? then Some(scan.out) else None
  }

  /** A complete frame behind a complete header in staging, as the shortcut walks it. */
  ghost predicate Shortened(staged: seq<byte>, rest: seq<byte>) {
    ZstdStart(staged) && ChainedSize(staged, rest).Some?
  }

  /** What the shortcut's walk found is the frame: one path reads it to that end or
      refuses it, and one-shot decoding of it is one-shot decoding of one frame. */
  lemma ShortcutReads(c: Codec, staged: seq<byte>, rest: seq<byte>)
    requires Shortened(staged, rest)
    ensures var s, n := staged + rest, ChainedSize(staged, rest).value;
            && n <= |s| && ZstdStart(s) && ParseFullHeader(s) == ParseFullHeader(staged)
            && (ScanFrame(c, s).verdict.Bad? || ScanFrame(c, s).verdict == Done(n))
            && (WholeFrame(c, s).verdict.Bad? || WholeFrame(c, s).verdict == Done(n))
            && OneShot(c, s[..n]) == if WholeFrame(c, s).verdict.Done? then Some(WholeFrame(c, s).out) else None
  {
    var s, n := staged + rest, ChainedSize(staged, rest).value;
    ChainedWalkAgrees(staged, rest);
    FullHeaderLatches(staged, rest);
    ZstdNotSkippable(s);
    ScanMatchesSizeInfo(c, s);
    hide ParseFullHeader, ScanFrame, WholeFrame, SizeInfo, IsSkippable, ChainedSize, OneShot;
    if WholeFrame(c, s).verdict.Done? {
      WholeMatchesSizeInfo(c, s);
    }
    WholeFrameCut(c, s, n);
    OneShotOfOne(c, s[..n]);
  }

  lemma WholeFrameCut(c: Codec, s: seq<byte>, n: nat)
    requires ZstdStart(s) && SizeInfo(s).Ok? && SizeInfo(s).value.compressedSize == n
    ensures 0 < n <= |s| && WholeFrame(c, s[..n]) == WholeFrame(c, s)
  {
    hide ParseFullHeader, WholeBlocks, WholeFrame, WalkBody, SizeInfo;
    var h := ParseFullHeader(s).value.header;
    WalkBehind(s);
    WholeCut(c, FrameOf(s, h), [], s[h.headerSize..], n - h.headerSize);
    HeaderSelfDelimiting(s, n);
    assert s[..n][..h.headerSize] == s[..h.headerSize];
    assert s[..n][h.headerSize..] == s[h.headerSize..][..n - h.headerSize];
    WholeZstd(c, s);
    WholeZstd(c, s[..n]);
    SameHeaderSize(s, s[..n]);
  }

  lemma WalkBehind(s: seq<byte>)
    requires ZstdStart(s) && SizeInfo(s).Ok?
    ensures var h := ParseFullHeader(s).value.header;
            && h.headerSize <= |s|
            && var w := WalkBody(s[h.headerSize..], h.checksum, false);
               w.End? && SizeInfo(s).value.compressedSize == h.headerSize + w.size
  {
    ZstdNotSkippable(s);
    HeaderFits(s);
    hide ParseFullHeader, WalkBody, IsSkippable;
  }

  lemma SameHeaderSize(s: seq<byte>, t: seq<byte>)
    requires ParseFullHeader(s) == ParseFullHeader(t)
    ensures forall out :: SizeAgrees(s, out) == SizeAgrees(t, out)
  {
    hide ParseFullHeader;
  }

  /** On a frame offered whole from its first byte, the shortcut and the block-by-block
      path come to the same exactly when both refuse it, or it is ordinary and either its
      last block is not empty or its declared size is met. */
  lemma ShortcutAgreesIff(c: Codec, staged: seq<byte>, rest: seq<byte>)
    requires Shortened(staged, rest)
    ensures var s, n := staged + rest, ChainedSize(staged, rest).value;
            && n <= |s| && ZstdStart(s)
            && (PathsAgree(c, s, n) <==>
                || (Ordinary(c, s) && (!LastIsEmpty(BlocksOf(s)) || SizeAgrees(s, ScanFrame(c, s).out)))
                || (ScanFrame(c, s).verdict.Bad? && OneShot(c, s[..n]).None?))
  {
    var s := staged + rest;
    ShortcutReads(c, staged, rest);
    hide ScanFrame, WholeFrame, ParseFullHeader, OneShot, ChainedSize, AllCapped, KeepsUp, NoneHollow, Faithful, TrailerHeard, ChecksumHolds, LastIsEmpty,
      SizeAgrees;
    if ScanFrame(c, s).verdict.Done? {
      FrameReadIsWhole(c, s);
    }
    if WholeFrame(c, s).verdict.Done? {
      FrameWholeIsRead(c, s);
    }
  }

  /** A declared size within the decoder's buffer, or matches within the frame's window,
      leave only what can be read off the block headers: block limits, hollow blocks, and
      an empty last block, behind which the declared size and the trailer go unchecked; and
      in front of what the shortcut decodes, the block limits and, behind such a block, what
      the trailer looks like. */
  lemma HeadersDecide(c: Codec, staged: seq<byte>, rest: seq<byte>)
    requires Shortened(staged, rest)
    requires ZstdStart(staged + rest)
    requires !Wraps(OpenedAs(staged + rest)) || InWindow(c, OpenedAs(staged + rest), [], BlocksOf(staged + rest))
    ensures var s, n := staged + rest, ChainedSize(staged, rest).value;
            var b := BlocksOf(s);
            && n <= |s|
            && (PathsAgree(c, s, n) <==>
                || (AllCapped(OpenedAs(s), b) && NoneHollow(b)
                    && (!LastIsEmpty(b)
                        || (SizeAgrees(s, ScanFrame(c, s).out) && TrailerHeard(c, OpenedAs(s), [], b))))
                || (ScanFrame(c, s).verdict.Bad? && OneShot(c, s[..n]).None?))
    ensures var s, n := staged + rest, ChainedSize(staged, rest).value;
            && 4 <= n <= |s|
            && (OneShot(c, s[..n]).Some? ==>
                  (PathsAgree(c, s, n) <==>
                   AllCapped(OpenedAs(s), BlocksOf(s))
                   && (OpenedAs(s).checksum && LastIsEmpty(BlocksOf(s)) ==> PassesAsBlock(OpenedAs(s), s[n - 4..n]))))
  {
    var s := staged + rest;
    ShortcutReads(c, staged, rest);
    hide ScanFrame, WholeFrame, ParseFullHeader, OneShot, ChainedSize, AllCapped, KeepsUp, NoneHollow, Faithful, TrailerHeard, ChecksumHolds, LastIsEmpty,
      SizeAgrees, InWindow, Wraps, Undisturbed, Produced, StreamedContent, WholeContent;
    Unproduced(c, OpenedAs(s));
    NearIsFaithful(c, OpenedAs(s), [], BlocksOf(s));
    if !LastIsEmpty(BlocksOf(s)) {
      FaithfulIsHeard(c, OpenedAs(s), [], BlocksOf(s));
    }
    if ScanFrame(c, s).verdict.Done? {
      FrameReadIsWhole(c, s);
    }
    if WholeFrame(c, s).verdict.Done? {
      FrameWholeIsRead(c, s);
      AcceptedReadIff(c, s);
    }
  }

  // ------------------------------------------------------------------
  // Calls that take the shortcut
  // ------------------------------------------------------------------

  /** An answer that a call on this frame may give: a step of it, or a refusal its bytes
      deserve. */
  ghost predicate Right(c: Codec, p: Progress, offered: seq<byte>, room: nat, hint: Option<nat>, took: nat,
                        gave: seq<byte>, q: Progress)
  {
    match hint
    case Some(h) => Step(c, p, Call(offered, room, took, gave, h), q)
    case None => Rejected(c, p.taken + offered)
  }

  /** Completing a frame in one call is a step exactly when the frame ends there with
      that content. */
  lemma CompletionIsStepIff(c: Codec, p: Progress, offered: seq<byte>, room: nat, took: nat, gave: seq<byte>, q: Progress)
    requires Resting(c, p) && ParseFullHeader(p.taken).Ok? && ParseFullHeader(p.taken).value.Wanted?
    requires took <= |offered| && |gave| <= room && q == Progress(p.taken + offered[..took], gave, [], false)
    ensures Step(c, p, Call(offered, room, took, gave, 0), q)
            <==> ScanFrame(c, p.taken + offered) == Scan(gave, Done(|p.taken| + took))
  {
    hide ScanFrame, ParseFullHeader;
    WantedScan(c, p.taken);
    var s, head := p.taken + offered, q.taken;
    assert head == s[..|head|] && s == head + offered[took..];
    assert gave + [] == gave && p.given + gave == gave;
    ScanGrows(c, head, offered[took..]);
    if ScanFrame(c, s) == Scan(gave, Done(|head|)) {
      StreamRuns.CutAtEnd(c, s, |head|);
    }
  }

  lemma DeclaredFits(s: seq<byte>, out: seq<byte>, room: nat)
    requires SizeAgrees(s, out) && ZstdStart(s)
    requires ParseFullHeader(s).value.header.contentSize.Some?
    requires ParseFullHeader(s).value.header.contentSize.value <= room
    ensures |out| <= room
  {
    hide ParseFullHeader;
  }

  /** A call that finds its whole frame: the walk behind it, and what is decoded. */
  lemma CleanShortcut(c: Codec, p: Progress, offered: seq<byte>, room: nat, hint: Option<nat>, took: nat,
                      gave: seq<byte>, q: Progress, now: Progress)
    requires p.taken == [] && TakesShortcut(p, offered, room)
    requires ShortcutAnswer(c, p, offered, room, hint, took, gave, q, now)
    ensures ZstdStart(offered)
    ensures ScanFrame(c, offered).verdict.Bad? || ScanFrame(c, offered).verdict.Done?
    ensures hint.Some? <==> WholeFrame(c, offered).verdict.Done?
    ensures hint.Some? ==> hint == Some(0) && took <= |offered| && |gave| <= room && now == FRESH
                           && WholeFrame(c, offered) == Scan(gave, Done(took))
                           && q == Progress(offered[..took], gave, [], false)
  {
    hide ScanFrame, WholeFrame, ParseFullHeader, OneShot, ChainedSize, SizeAgrees;
    var have: nat :| CompletesHeader(p, offered, have) && ShortcutAt(p, offered, room, have) &&
      DecodesWhole(c, p, offered, ChainedSize(offered[..have], offered[have..]).value, room, hint, took, gave, q, now);
    assert p.taken + offered == offered && offered[..have] + offered[have..] == offered;
    HeaderSelfDelimiting(offered, have);
    ShortcutReads(c, offered[..have], offered[have..]);
    if WholeFrame(c, offered).verdict.Done? {
      FrameWholeIsRead(c, offered);
      DeclaredFits(offered, WholeFrame(c, offered).out, room);
    }
    if hint.Some? {
      assert [] + offered[..took] == offered[..took];
    }
  }

  lemma DecodedIff(c: Codec, s: seq<byte>)
    requires ZstdStart(s) && WholeFrame(c, s).verdict.Done?
    ensures Ordinary(c, s) <==> ScanFrame(c, s) == WholeFrame(c, s)
  {
    hide ScanFrame, WholeFrame, ParseFullHeader, SizeAgrees, AllCapped, KeepsUp, NoneHollow, Faithful, TrailerHeard, ChecksumHolds, LastIsEmpty;
    FrameWholeIsRead(c, s);
    if ScanFrame(c, s).verdict.Done? {
      FrameReadIsWhole(c, s);
    }
  }

  /** Such a call answers as the block-by-block path may exactly when the frame is ordinary,
      or when it is refused there too. */
  lemma CleanShortcutIsRightIff(c: Codec, p: Progress, offered: seq<byte>, room: nat, hint: Option<nat>, took: nat,
                                gave: seq<byte>, q: Progress, now: Progress)
    requires Resting(c, p) && p.taken == [] && TakesShortcut(p, offered, room)
    requires ShortcutAnswer(c, p, offered, room, hint, took, gave, q, now)
    ensures ZstdStart(offered)
    ensures Right(c, p, offered, room, hint, took, gave, q) <==>
            if hint.Some? then Ordinary(c, offered) else Rejected(c, offered)
  {
    hide ScanFrame, WholeFrame, ParseFullHeader, ShortcutAnswer, TakesShortcut, Resting, Step, SizeAgrees, ZstdStart,
      Ordinary;
    CleanShortcut(c, p, offered, room, hint, took, gave, q, now);
    assert p.taken + offered == offered;
    if hint.Some? {
      EmptyIsWanted();
      assert [] + offered[..took] == offered[..took];
      CompletionIsStepIff(c, p, offered, room, took, gave, q);
      DecodedIff(c, offered);
    }
  }

  // ------------------------------------------------------------------
  // Frames that tell the paths apart
  // ------------------------------------------------------------------

  /** Offered whole from its first byte, with room for its declared content. */
  lemma TakenWholesale(s: seq<byte>, n: nat, room: nat)
    requires n <= |s| && ZstdStart(s) && ZstdStart(s[..n])
    requires ParseFullHeader(s).value.header == ParseFullHeader(s[..n]).value.header
    requires var h := ParseFullHeader(s).value.header;
             && h.headerSize == n && h.contentSize.Some? && h.contentSize.value <= room
             && WalkBody(s[n..], h.checksum, false).End? && WalkBody(s[n..], h.checksum, false).size == |s| - n
    ensures Shortened(s[..n], s[n..]) && ChainedSize(s[..n], s[n..]) == Some(|s|)
    ensures TakesShortcut(FRESH, s, room)
  {
    EmptyIsWanted();
    hide ParseFullHeader, WalkBody, ChainedSize;
    assert FRESH.taken + s == s;
    ChainedUnfold(s[..n], s[n..]);
    assert CompletesHeader(FRESH, s, n);
    assert ShortcutAt(FRESH, s, room, n);
  }

  /** Five declared bytes and one empty last block: read to its end by the block-by-block
      path, with nothing, and refused by the shortcut, whatever the engine does. */
  lemma EmptyLastBlockParts(c: Codec)
    requires c.opens(SHORT_FRAME[..6])
    ensures TakesShortcut(FRESH, SHORT_FRAME, 5) && LastIsEmpty(SHORT_FRAME[6..])
    ensures ScanFrame(c, SHORT_FRAME) == Scan([], Done(9)) && OneShot(c, SHORT_FRAME).None?
  {
    hide ScanFrame, ParseFullHeader, OneShot, LastIsEmpty, ReadBlockHeader, WalkBody, TakesShortcut;
    var s := SHORT_FRAME;
    assert s[..9] == s;
    ShortFrameHeader(s[..6]);
    ShortFrameHeader(s);
    EmptyLastBlockEscapes(c);
    ShortFrameBlocks(c, Frame([], 0, false), s[6..]);
    ShortFrameWalk(s[6..]);
    TakenWholesale(s, 6, 5);
  }

  /** No declared bytes and one compressed block without a body. */
  const HOLLOW_FRAME: seq<byte> := [0x28, 0xb5, 0x2f, 0xfd, 0x20, 0, 5, 0, 0]

  lemma HollowHeader(s: seq<byte>)
    requires 6 <= |s| <= 9 && s == HOLLOW_FRAME[..|s|]
    ensures ParseFullHeader(s) == Ok(Complete(FullHeader(ZstdFrame, Some(0), 0, 0, 6, 0, false)))
  {
    assert s[..4] == MAGIC_BYTES;
    LeFour(MAGIC_BYTES);
    LeZeros(s[5..6]);
  }

  lemma HollowHead()
    ensures ReadBlockHeader(5, 0, 0) == BlockHeader(true, Compressed, 0)
  {
  }

  lemma HollowBlocks(c: Codec, f: Frame, s: seq<byte>)
    requires s == [5, 0, 0] && !f.checksum
    ensures ScanBlocks(c, f, [], s) == Scan([], Done(3)) && WholeBlocks(c, f, [], s).verdict.Bad?
    ensures WalkBody(s, false, false) == End(3, 1) && !NoneHollow(s)
  {
    hide ReadBlockHeader;
    HollowHead();
    assert HeadIs(s, BlockHeader(true, Compressed, 0));
    WalkUnfold(s, false);
    assert s[..3] == s && s[3..] == [];
    assert ScanTrailer(c, f, Feed([], s), []) == Scan([], Done(0));
  }

  /** Read with nothing by the block-by-block path, refused by the shortcut. */
  lemma HollowBlockParts(c: Codec)
    requires c.opens(HOLLOW_FRAME[..6])
    ensures TakesShortcut(FRESH, HOLLOW_FRAME, 0) && !NoneHollow(HOLLOW_FRAME[6..])
    ensures ScanFrame(c, HOLLOW_FRAME) == Scan([], Done(9)) && OneShot(c, HOLLOW_FRAME).None?
  {
    hide ScanFrame, WholeFrame, ParseFullHeader, ScanBlocks, WholeBlocks, NoneHollow, ReadBlockHeader, WalkBody,
      TakesShortcut, ChainedSize, SizeAgrees;
    var s := HOLLOW_FRAME;
    assert s[..9] == s && s[6..] == [5, 0, 0];
    HollowHeader(s[..6]);
    HollowHeader(s);
    HollowBlocks(c, FrameOf(s, ParseFullHeader(s).value.header), s[6..]);
    StreamOpens(c, s);
    WholeZstd(c, s);
    TakenWholesale(s, 6, 0);
  }

  /** No content, one empty last block, and the checksum flag: the start of what is written
      for empty input. */
  const CHECKED_START: seq<byte> := [0x28, 0xb5, 0x2f, 0xfd, 0x24, 0, 1, 0, 0]

  lemma CheckedHeader(s: seq<byte>)
    requires 6 <= |s| && (if |s| < 9 then s == CHECKED_START[..|s|] else s[..9] == CHECKED_START)
    ensures ParseFullHeader(s) == Ok(Complete(FullHeader(ZstdFrame, Some(0), 0, 0, 6, 0, true)))
  {
    var t := if |s| < 9 then s else s[..9];
    assert forall i :: 0 <= i < 6 ==> s[i] == t[i] == CHECKED_START[i];
    assert s[..4] == MAGIC_BYTES;
    LeFour(MAGIC_BYTES);
    LeZeros(s[5..6]);
  }

  lemma CheckedBlocks(c: Codec, f: Frame, s: seq<byte>, t: seq<byte>)
    requires |s| == 7 && HeadIs(s, BlockHeader(true, Raw, 0)) && f.checksum && t == s[3..]
    ensures ScanBlocks(c, f, [], s) == if StrayTaken(c, f, [], t) then Scan([], Done(7)) else Scan([], Bad(DecodeFailed))
    ensures WholeBlocks(c, f, [], s) == if c.trailerOk([], t) then Scan([], Done(7)) else Scan([], Bad(DecodeFailed))
    ensures WalkBody(s, true, false) == End(7, 1)
  {
    hide ReadBlockHeader, StrayTaken, ScanTrailer, WholeTrailer, ScanBlocks, WholeBlocks, WalkBlocks, LastIsEmpty, HeadIs;
    EmptyLastWalk(s);
    CheckedTrailer(c, f, t);
    OneEmpty(c, f, s);
  }

  lemma LastHead(s: seq<byte>)
    requires |s| >= 3 && s[0] == 1 && s[1] == 0 && s[2] == 0
    ensures HeadIs(s, BlockHeader(true, Raw, 0))
  {
    hide ReadBlockHeader;
    HeadDigits(s[0], s[1], s[2], 0, 0, 1);
  }

  lemma EmptyLastWalk(s: seq<byte>)
    requires HeadIs(s, BlockHeader(true, Raw, 0))
    ensures WalkBlocks(s, false) == End(3, 1) && LastIsEmpty(s)
  {
    hide ReadBlockHeader, WalkBlocks;
    WalkUnfold(s, false);
  }

  lemma OneEmpty(c: Codec, f: Frame, s: seq<byte>)
    requires HeadIs(s, BlockHeader(true, Raw, 0))
    ensures ScanBlocks(c, f, [], s) == Behind([], 3, ScanTrailer(c, f, [], s[3..]))
    ensures WholeBlocks(c, f, [], s) == Behind([], 3, WholeTrailer(c, f, [], s[3..]))
  {
    hide ReadBlockHeader, ScanTrailer, WholeTrailer;
    assert Feed([], s[..3]) == [];
  }

  lemma CheckedTrailer(c: Codec, f: Frame, t: seq<byte>)
    requires |t| == 4 && f.checksum
    ensures ScanTrailer(c, f, [], t) == (if StrayTaken(c, f, [], t) then Scan([], Done(4)) else Scan([], Bad(DecodeFailed)))
    ensures WholeTrailer(c, f, [], t) == (if c.trailerOk([], t) then Scan([], Done(4)) else Scan([], Bad(DecodeFailed)))
  {
    hide ReadBlockHeader, StrayTaken;
    assert t[..4] == t;
  }

  /** The engine takes the trailer behind an empty last block for a block, so that the
      block-by-block path passes this frame by what its trailer looks like as a block header,
      and the shortcut by whether it is the checksum of no content. */
  lemma CheckedEmptyRead(c: Codec, trailer: seq<byte>)
    requires |trailer| == 4 && c.opens(CHECKED_START[..6])
    ensures var s := CHECKED_START + trailer;
            && TakesShortcut(FRESH, s, 0)
            && ScanFrame(c, s) ==
               (if StrayTaken(c, Frame(CHECKED_START[..6], 0, true), [], trailer) then Scan([], Done(13)) else Scan([], Bad(DecodeFailed)))
            && OneShot(c, s) == if c.trailerOk([], trailer) then Some([]) else None
  {
    hide ScanFrame, WholeFrame, ParseFullHeader, ScanBlocks, WholeBlocks, ReadBlockHeader, WalkBody, TakesShortcut,
      ChainedSize, OneShot, StrayTaken, LastIsEmpty, HeadIs;
    var s := CHECKED_START + trailer;
    assert s[..9] == CHECKED_START && s[..6] == CHECKED_START[..6] && s[6..][3..] == trailer;
    CheckedHeader(s);
    CheckedHeader(s[..6]);
    LastHead(s[6..]);
    CheckedBlocks(c, Frame(CHECKED_START[..6], 0, true), s[6..], trailer);
    StreamOpens(c, s);
    if c.trailerOk([], trailer) {
      WholeBySize(c, s, [], 7);
    } else {
      WholeZstd(c, s);
      RefusedWhole(c, s);
    }
    TakenWholesale(s, 6, 0);
  }

  /** So the right checksum of no content is refused block by block, and a wrong one may
      pass. */
  lemma EmptyChecksumMisread(c: Codec)
    requires c.opens(CHECKED_START[..6])
    requires c.trailerOk([], [0x99, 0xe9, 0xd8, 0x51]) && !c.trailerOk([], [0x10, 0, 0, 0])
    ensures var right, wrong := CHECKED_START + [0x99, 0xe9, 0xd8, 0x51], CHECKED_START + [0x10, 0, 0, 0];
            && ScanFrame(c, right).verdict.Bad? && OneShot(c, right) == Some([])
            && ScanFrame(c, wrong) == Scan([], Done(13)) && OneShot(c, wrong) == None
  {
    hide ScanFrame, OneShot, TakesShortcut;
    var f := Frame(CHECKED_START[..6], 0, true);
    CheckedEmptyRead(c, [0x99, 0xe9, 0xd8, 0x51]);
    CheckedEmptyRead(c, [0x10, 0, 0, 0]);
    StrayHeads();
    assert !StrayTaken(c, f, [], [0x99, 0xe9, 0xd8, 0x51]);
    assert StrayTaken(c, f, [], [0x10, 0, 0, 0]);
  }

  lemma StrayHeads()
    ensures ReadBlockHeader(0x99, 0xe9, 0xd8) == BlockHeader(true, Raw, 1_776_947)
    ensures ReadBlockHeader(0x10, 0, 0) == BlockHeader(false, Raw, 2)
  {
  }

  /** A window of 1 KiB and 2000 declared bytes. */
  const WIDE_START: seq<byte> := [0x28, 0xb5, 0x2f, 0xfd, 0x40, 0, 0xd0, 6]

  lemma WideHeader(s: seq<byte>)
    requires |s| >= 8 && s[..8] == WIDE_START
    ensures ParseFullHeader(s) == Ok(Complete(FullHeader(ZstdFrame, Some(2000), 1024, 1024, 8, 0, false)))
  {
    assert s[..4] == WIDE_START[..4] == MAGIC_BYTES;
    LeFour(MAGIC_BYTES);
    assert s[4] == s[..8][4] == 0x40 && s[5] == s[..8][5] == 0 && s[5..5] == [];
    var field := s[6..8];
    assert field[0] == s[..8][6] && field[1] == s[..8][7] && field[1..][1..] == [];
    assert LeValue(field) == field[0] + 256 * LeValue(field[1..]) && LeValue(field[1..]) == field[1..][0] + 256 * LeValue([]);
    WideWindow();
  }

  lemma WideWindow()
    ensures WindowFromDescriptor(0) == 1024
  {
    assert Pow2(10) == 1024;
  }

  /** One block of 2000 bytes in such a frame is decoded by the shortcut and refused by
      the block-by-block path. */
  lemma WideParts(c: Codec, s: seq<byte>, out: seq<byte>)
    requires |s| >= 8 && s[..8] == WIDE_START && c.opens(WIDE_START) && |out| == 2000
    requires var f, b := Frame(WIDE_START, 1024, false), s[8..];
             && ScanBlocks(c, f, [], b).verdict.Bad? && WholeBlocks(c, f, [], b) == Scan(out, Done(|b|))
             && WalkBody(b, false, false) == End(|b|, 1)
    ensures TakesShortcut(FRESH, s, 2000)
    ensures ScanFrame(c, s).verdict.Bad? && OneShot(c, s) == Some(out)
  {
    hide ScanFrame, WholeFrame, ParseFullHeader, ScanBlocks, WholeBlocks, ReadBlockHeader, WalkBody, TakesShortcut,
      ChainedSize, OneShot;
    WideHeader(s);
    assert s[..8][..8] == WIDE_START;
    WideHeader(s[..8]);
    StreamOpens(c, s);
    WholeBySize(c, s, out, |s| - 8);
    TakenWholesale(s, 8, 2000);
  }

  /** As a run. */
  lemma WideRunParts(c: Codec)
    requires c.opens(WIDE_START) && c.dictionary(WIDE_START).None?
    ensures var s := WIDE_START + [0x83, 0x3e, 0, 0x78];
            && TakesShortcut(FRESH, s, 2000) && !AllCapped(Frame(WIDE_START, 1024, false), s[8..])
            && ScanFrame(c, s).verdict.Bad? && OneShot(c, s) == Some(Repeat<byte>(0x78, 2000))
  {
    hide ScanBlocks, WholeBlocks, ReadBlockHeader, TakesShortcut, OneShot, ScanFrame;
    var f := Frame(WIDE_START, 1024, false);
    var s := WIDE_START + [0x83, 0x3e, 0, 0x78];
    var b := s[8..];
    assert s[..8] == WIDE_START && b == [0x83, 0x3e, 0, 0x78];
    HeadDigits(b[0], b[1], b[2], 16, 1, 1);
    OneRun(c, f, b, 2000);
    WalkUnfold(b, false);
    assert b[3] == 0x78;
    WideParts(c, s, Repeat(b[3], 2000));
  }

  /** As a raw block, whatever its bytes. */
  lemma WideRawParts(c: Codec, content: seq<byte>)
    requires c.opens(WIDE_START) && c.dictionary(WIDE_START).None? && |content| == 2000
    ensures var s := WIDE_START + [0x81, 0x3e, 0] + content;
            && TakesShortcut(FRESH, s, 2000) && !AllCapped(Frame(WIDE_START, 1024, false), s[8..])
            && ScanFrame(c, s).verdict.Bad? && OneShot(c, s) == Some(content)
  {
    hide ScanBlocks, WholeBlocks, ReadBlockHeader, TakesShortcut, OneShot, ScanFrame;
    var f := Frame(WIDE_START, 1024, false);
    var s := WIDE_START + [0x81, 0x3e, 0] + content;
    var b := s[8..];
    assert s[..8] == WIDE_START && b == [0x81, 0x3e, 0] + content && b[3..] == content;
    HeadDigits(b[0], b[1], b[2], 16, 0, 1);
    OneRaw(c, f, b);
    WalkUnfold(b, false);
    WideParts(c, s, content);
  }

  /** A frame's only block is raw and longer than its block limit. */
  lemma OneRaw(c: Codec, f: Frame, s: seq<byte>)
    requires |s| >= 3 && HeadIs(s, BlockHeader(true, Raw, |s| - 3)) && !f.checksum
    requires f.blockSizeMax < |s| - 3 <= MAX_BLOCK_CONTENT && c.dictionary(f.header).None?
    ensures ScanBlocks(c, f, [], s).verdict.Bad?
    ensures WholeBlocks(c, f, [], s) == Scan(s[3..], Done(|s|))
  {
    hide ReadBlockHeader;
    assert s[..|s|] == s && s[|s|..] == [];
    assert ScanTrailer(c, f, Feed([], s), []) == Scan([], Done(0));
    assert s[3..] + [] == s[3..];
  }
}
