/** Calls whose header hides a frame: when their answer is right all the same, and what
    they leave behind in staging. */
module HiddenFrames {
  import opened Bytes
  import opened FrameHeader
  import opened FrameWalk
  import opened BlockEngine
  import opened FrameContent
  import opened OneShots
  import opened StreamSpec
  import opened StreamRuns
  import opened StreamDrivers
  import opened StreamLimits
  import opened ShortcutAgreement
  import opened DStreams

  // ------------------------------------------------------------------
  // When the answer is right
  // ------------------------------------------------------------------

  /** On a valid frame a call with a hidden header answers rightly exactly when the
      hidden bytes end where the frame does and decode, on their own, to its content. */
  lemma HiddenAnswerIsRightIff(c: Codec, p: Progress, offered: seq<byte>, room: nat, have: nat,
                               hint: Option<nat>, took: nat, gave: seq<byte>, q: Progress, now: Progress)
    requires Resting(c, p) && ValidFrame(c, p.taken + offered)
    requires CompletesHeader(p, offered, have) && ShortcutAt(p, offered, room, have)
    requires ShortcutAnswer(c, p, offered, room, hint, took, gave, q, now)
    ensures var size, whole := ChainedSize(offered[..have], offered[have..]).value, ScanFrame(c, p.taken + offered);
            Right(c, p, offered, room, hint, took, gave, q)
            <==> |p.taken| + size == whole.verdict.size && OneShot(c, offered[..size]) == Some(whole.out)
  {
    hide ScanFrame, ParseFullHeader, ChainedSize, OneShot, Step, NoneHollow, Faithful, ChecksumHolds, SizeAgrees;
    var s := p.taken + offered;
    var size, whole := ChainedSize(offered[..have], offered[have..]).value, ScanFrame(c, s);
    assert offered[..have] + offered[have..] == offered;
    assert !Rejected(c, s);
    DeclaredFits(s, whole.out, room);
    if hint.Some? {
      CompletionIsStepIff(c, p, offered, room, took, gave, q);
    }
  }

  // ------------------------------------------------------------------
  // A hidden frame that answers rightly
  // ------------------------------------------------------------------

  /** A frame whose hidden bytes happen to mean the same: a dictionary id that spells the
      magic, 2048 declared bytes, one RLE block of them; read from the dictionary id on,
      a 2 KiB window, two empty blocks and the same RLE block. */
  const TWIN_FRAME: seq<byte> :=
    [0x28, 0xb5, 0x2f, 0xfd, 0xe3, 0x28, 0xb5, 0x2f, 0xfd, 0, 8, 0, 0, 0, 0, 0, 0, 3, 0x40, 0, 0x78]

  const TWIN: seq<byte> := Repeat(0x78, 2048)

  lemma TwinBytes()
    ensures |TWIN_FRAME| == 21
    ensures TWIN_FRAME[..4] == MAGIC_BYTES && TWIN_FRAME[4] == 0xe3 && TWIN_FRAME[5..9] == MAGIC_BYTES
    ensures TWIN_FRAME[9] == 0 && TWIN_FRAME[10] == 8 && forall i :: 11 <= i < 17 ==> TWIN_FRAME[i] == 0
    ensures TWIN_FRAME[17..] == [3, 0x40, 0, 0x78]
  {
    var s := TWIN_FRAME;
    assert s[5] == 0x28 && s[6] == 0xb5 && s[7] == 0x2f && s[8] == 0xfd;
    assert s[11] == 0 && s[12] == 0 && s[13] == 0 && s[14] == 0 && s[15] == 0 && s[16] == 0;
    assert s[17] == 3 && s[18] == 0x40 && s[19] == 0 && s[20] == 0x78;
  }

  lemma TwinStart(s: seq<byte>)
    requires s == TWIN_FRAME[..5]
    ensures ParseFullHeader(s) == Ok(Wanted(17))
  {
    TwinBytes();
    assert s[..4] == TWIN_FRAME[..4];
    LeFour(MAGIC_BYTES);
  }

  lemma TwinHeader(s: seq<byte>)
    requires 17 <= |s| <= 21 && s == TWIN_FRAME[..|s|]
    ensures ParseFullHeader(s) == Ok(Complete(FullHeader(ZstdFrame, Some(2048), 2048, 2048, 17, MAGIC, false)))
  {
    TwinBytes();
    assert s[..4] == TWIN_FRAME[..4] && s[5..9] == TWIN_FRAME[5..9];
    LeFour(MAGIC_BYTES);
    var f := s[9..17];
    LeZeros(f[1..][1..]);
    assert LeValue(f) == f[0] + 256 * LeValue(f[1..]) && LeValue(f[1..]) == f[1..][0] + 256 * LeValue(f[1..][1..]);
    assert s[4] == 0xe3;
  }

  lemma TwinInnerHeader(s: seq<byte>)
    requires 12 <= |s| <= 16 && s == TWIN_FRAME[5..][..|s|]
    ensures ParseFullHeader(s) == Ok(Complete(FullHeader(ZstdFrame, None, 2048, 2048, 6, 0, false)))
  {
    TwinBytes();
    assert s[..4] == TWIN_FRAME[5..9];
    LeFour(MAGIC_BYTES);
    assert s[4] == TWIN_FRAME[9] && s[5] == TWIN_FRAME[10];
    assert s[5..5] == [];
    TwinWindow();
  }

  lemma TwinWindow()
    ensures WindowFromDescriptor(8) == 2048
  {
    assert Pow2(6) == 64;
    assert Pow2(11) == 2048;
  }

  /** The RLE block, whatever header it is read under. */
  lemma TwinLast(c: Codec, f: Frame, s: seq<byte>)
    requires s == [3, 0x40, 0, 0x78] && !f.checksum && f.blockSizeMax == 2048
    requires Declared(f.header).None? || Declared(f.header) == Some(2048)
    ensures ScanBlocks(c, f, [], s) == Scan(TWIN, Done(4)) && WholeBlocks(c, f, [], s) == Scan(TWIN, Done(4))
    ensures NoneHollow(s) && Faithful(c, f, [], s)
    ensures ChecksumHolds(c, f, [], s)
  {
    hide ReadBlockHeader, Undisturbed, Intact;
    HeadDigits(s[0], s[1], s[2], 0, 1, 1);
    assert s[3] == 0x78;
    OneRun(c, f, s, 2048);
  }

  lemma TwinInnerBlocks(c: Codec, f: Frame, s: seq<byte>)
    requires s == [0, 0, 0, 0, 0, 0, 3, 0x40, 0, 0x78] && !f.checksum && f.blockSizeMax == 2048
    requires Declared(f.header).None?
    ensures WholeBlocks(c, f, [], s) == Scan(TWIN, Done(10))
  {
    hide ScanBlocks, WholeBlocks, WalkBlocks, HeadIs, ReadBlockHeader;
    assert s[3..] == [0, 0, 0, 3, 0x40, 0, 0x78] && s[3..][3..] == [3, 0x40, 0, 0x78];
    EmptyHead(s);
    EmptyHead(s[3..]);
    TwinLast(c, f, s[3..][3..]);
    BehindEmpty(c, f, s[3..]);
    BehindEmpty(c, f, s);
    assert [] + TWIN == TWIN;
  }

  lemma TwinInnerWalk(s: seq<byte>)
    requires s == [0, 0, 0, 0, 0, 0, 3, 0x40, 0, 0x78]
    ensures WalkBody(s, false, false) == End(10, 3)
  {
    hide WalkBlocks, HeadIs, ReadBlockHeader;
    assert s[3..] == [0, 0, 0, 3, 0x40, 0, 0x78] && s[3..][3..] == [3, 0x40, 0, 0x78];
    EmptyHead(s);
    EmptyHead(s[3..]);
    TwinLastWalk(s[3..][3..]);
    WalkBehindEmpty(s[3..]);
    WalkBehindEmpty(s);
  }

  lemma TwinLastWalk(s: seq<byte>)
    requires s == [3, 0x40, 0, 0x78]
    ensures WalkBody(s, false, false) == End(4, 1) && WalkBlocks(s, false) == End(4, 1)
  {
    hide ReadBlockHeader, WalkBlocks;
    HeadDigits(s[0], s[1], s[2], 0, 1, 1);
    WalkUnfold(s, false);
  }

  lemma WalkBehindEmpty(s: seq<byte>)
    requires HeadIs(s, BlockHeader(false, Raw, 0)) && WalkBlocks(s[3..], false).End?
    ensures WalkBlocks(s, false) == After(3, WalkBlocks(s[3..], false))
  {
    hide ReadBlockHeader;
    WalkUnfold(s, false);
  }

  const TWIN_BEGUN: Progress := Progress(TWIN_FRAME[..5], [], [], false)

  /** The engine opens the frame, whose dictionary has to be there, and the one hidden
      in it. */
  predicate OpensTwins(c: Codec) {
    c.opens(TWIN_FRAME[..17]) && c.opens(TWIN_FRAME[5..][..6])
  }

  /** The frame, and the bytes of it behind its first five, are both read to the same
      content. */
  lemma TwinsAgree(c: Codec)
    requires OpensTwins(c)
    ensures ScanFrame(c, TWIN_FRAME) == Scan(TWIN, Done(21)) && ValidFrame(c, TWIN_FRAME)
    ensures OneShot(c, TWIN_FRAME[5..]) == Some(TWIN)
  {
    TwinOuter(c);
    TwinInner(c);
  }

  lemma TwinOuter(c: Codec)
    requires OpensTwins(c)
    ensures ScanFrame(c, TWIN_FRAME) == Scan(TWIN, Done(21)) && ValidFrame(c, TWIN_FRAME)
  {
    hide ReadBlockHeader, ParseFullHeader, ScanBlocks, WholeBlocks, ScanFrame, LeValue, NoneHollow, Faithful, ChecksumHolds, WalkBody;
    var s := TWIN_FRAME;
    TwinBytes();
    assert s[..21] == s;
    TwinHeader(s);
    TwinHeader(s[..17]);
    TwinLast(c, FrameOf(s, ParseFullHeader(s).value.header), s[17..]);
    OpenScan(c, s);
    SizeDisagrees(s, TWIN, 2048);
    assert [] + TWIN == TWIN;
  }

  lemma TwinInner(c: Codec)
    requires OpensTwins(c)
    ensures OneShot(c, TWIN_FRAME[5..]) == Some(TWIN)
  {
    hide ReadBlockHeader, ParseFullHeader, ScanBlocks, WholeBlocks, OneShot, LeValue, WalkBody;
    var inner := TWIN_FRAME[5..];
    TwinBytes();
    assert inner[..16] == inner;
    TwinInnerHeader(inner);
    HeaderSelfDelimiting(inner, 6);
    TwinTail();
    TwinInnerBlocks(c, FrameOf(inner, ParseFullHeader(inner).value.header), inner[6..]);
    WholeBySize(c, inner, TWIN, 10);
  }

  lemma TwinTail()
    ensures TWIN_FRAME[5..][6..] == [0, 0, 0, 0, 0, 0, 3, 0x40, 0, 0x78]
  {
    TwinBytes();
    assert forall i :: 0 <= i < 4 ==> TWIN_FRAME[17 + i] == TWIN_FRAME[17..][i];
  }

  /** Offered five bytes and then the rest, it is a hidden frame of all the rest. */
  lemma TwinIsHidden()
    ensures var offered := TWIN_FRAME[5..];
            && CompletesHeader(TWIN_BEGUN, offered, 12) && ShortcutAt(TWIN_BEGUN, offered, 2048, 12)
            && ChainedSize(offered[..12], offered[12..]) == Some(16) && |offered| == 16
  {
    hide ReadBlockHeader, ParseFullHeader, WalkBlocks, LeValue;
    var offered := TWIN_FRAME[5..];
    TwinBytes();
    TwinStart(TWIN_BEGUN.taken);
    assert TWIN_BEGUN.taken + offered == TWIN_FRAME == TWIN_FRAME[..21];
    TwinHeader(TWIN_FRAME);
    TwinInnerHeader(offered[..12]);
    TwinTail();
    TwinInnerWalk(offered[6..]);
    assert offered[..12] + offered[12..] == offered;
  }

  /** And its hidden answer, the only one there is, is right. */
  lemma TwinAnswersRightly(c: Codec, hint: Option<nat>, took: nat, gave: seq<byte>, q: Progress, now: Progress)
    requires OpensTwins(c)
    requires Answered(c, TWIN_BEGUN, TWIN_FRAME[5..], 2048, hint, took, gave, q, now)
    ensures HiddenFrame(TWIN_BEGUN, TWIN_FRAME[5..], 2048)
    ensures hint == Some(0) && took == 16 && gave == TWIN && now == FRESH
    ensures Right(c, TWIN_BEGUN, TWIN_FRAME[5..], 2048, hint, took, gave, q)
  {
    hide ParseFullHeader, ChainedSize, ScanFrame, OneShot, Right, ValidFrame;
    var offered := TWIN_FRAME[5..];
    TwinIsHidden();
    TwinsAgree(c);
    assert offered[..16] == offered;
    TwinStart(TWIN_BEGUN.taken);
    assert TWIN_BEGUN.taken + offered == TWIN_FRAME;
    WantedScan(c, TWIN_BEGUN.taken);
    HiddenAnswerIsRightIff(c, TWIN_BEGUN, offered, 2048, 12, hint, took, gave, q, now);
  }

  // ------------------------------------------------------------------
  // What hidden frames leave in staging
  // ------------------------------------------------------------------

  /** The first call takes the five bytes. */
  lemma TwinBegins(c: Codec, hint: Option<nat>, took: nat, gave: seq<byte>, q: Progress, now: Progress)
    requires OpensTwins(c)
    requires Answered(c, FRESH, TWIN_FRAME[..5], 2048, hint, took, gave, q, now)
    ensures hint.Some? && hint != Some(0) && took == 5 && now == TWIN_BEGUN
  {
    hide ScanFrame, Step, ParseFullHeader, Answered;
    var s, five := TWIN_FRAME, TWIN_FRAME[..5];
    TwinsAgree(c);
    TwinStart(five);
    FreshOnTrack(c, s);
    SettledHidesNothing(FRESH, five, 2048);
    TryIsStep(c, s, 0, FRESH, Attempt(five, 2048, hint, took, gave, q, now));
    TwinReads(c, took, gave, q, hint.value);
  }

  lemma TwinReads(c: Codec, took: nat, gave: seq<byte>, q: Progress, hint: nat)
    requires Step(c, FRESH, Call(TWIN_FRAME[..5], 2048, took, gave, hint), q)
    requires ScanFrame(c, TWIN_FRAME) == Scan(TWIN, Done(21))
    requires ParseFullHeader(TWIN_FRAME[..5]) == Ok(Wanted(17))
    ensures hint != 0 && took == 5 && q == TWIN_BEGUN
  {
    hide ScanFrame, ParseFullHeader;
    var five := TWIN_FRAME[..5];
    assert FRESH.taken + five[..|q.taken|] == q.taken && q.taken + five[|q.taken|..] == five;
    assert q.taken <= TWIN_FRAME;
    if q.owed != [] || ScanFrame(c, q.taken).verdict.Done? {
      ReadShort(c, TWIN_FRAME, q);
      FullHeaderLatches(q.taken, five[|q.taken|..]);
    }
    assert q.taken == five;
    WantedScan(c, five);
  }

  /** Staging is not bounded when headers hide frames, whatever the engine: each such call leaves the bytes
      its header began with spent but staged, so a run of them grows without limit. */
  method HiddenRunGrows(s: DStream, n: nat)
    requires s.Valid() && OpensTwins(s.codec) && s.Progressed() == FRESH
    modifies s
    ensures s.Valid() && s.Progressed() == FRESH
    ensures |s.staging| == old(|s.staging|) + 5 * n
  {
    for i := 0 to n
      invariant s.Valid() && s.Progressed() == FRESH
      invariant |s.staging| == old(|s.staging|) + 5 * i
    {
      HiddenCall(s);
    }
  }

  method HiddenCall(s: DStream)
    requires s.Valid() && OpensTwins(s.codec) && s.Progressed() == FRESH
    modifies s
    ensures s.Valid() && s.Progressed() == FRESH
    ensures |s.staging| == old(|s.staging|) + 5
  {
    hide Step, TakesShortcut, ShortcutAnswer, ScanFrame, DStream.Valid, ParseFullHeader;
    var out := new byte[2048];
    var five, rest := TWIN_FRAME[..5], TWIN_FRAME[5..];
    BeginTwin(s, out, five);
    FinishTwin(s, out, rest);
  }

  method BeginTwin(s: DStream, out: array<byte>, five: seq<byte>)
    requires s.Valid() && OpensTwins(s.codec) && s.Progressed() == FRESH
    requires out.Length == 2048 && five == TWIN_FRAME[..5]
    modifies s, out
    ensures s.Valid() && s.Progressed() == TWIN_BEGUN && |s.staging| == old(|s.staging|) + 5
  {
    hide Step, TakesShortcut, ShortcutAnswer, ScanFrame, ParseFullHeader;
    TwinBytes();
    TwinStart(five);
    var res, outPos, inPos, committed, q := s.Advance(out, 0, five, 0);
    assert five[0..] == five;
    TwinBegins(s.codec, if res.Ok? then Some(res.value.hint) else None, inPos, out[0..outPos], q, s.Progressed());
    assert s.taken == five;
    assert five[0..inPos] == five;
  }

  method FinishTwin(s: DStream, out: array<byte>, rest: seq<byte>)
    requires s.Valid() && OpensTwins(s.codec) && s.Progressed() == TWIN_BEGUN
    requires out.Length == 2048 && rest == TWIN_FRAME[5..]
    modifies s, out
    ensures s.Valid() && s.Progressed() == FRESH && |s.staging| == old(|s.staging|)
  {
    hide Answered, TakesShortcut, Right, DStream.Valid, DStream.SpentAs;
    assert rest[0..] == rest;
    var res, outPos, inPos, committed, q := s.Advance(out, 0, rest, 0);
    TwinAnswersRightly(s.codec, if res.Ok? then Some(res.value.hint) else None, inPos, out[0..outPos], q, s.Progressed());
  }
}
