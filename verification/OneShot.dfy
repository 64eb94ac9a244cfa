/** One-shot decoding: a series of frames, all there, written straight into one buffer;
    and where its verdict on a frame parts from the block-by-block reader's. */
module OneShots {
  import opened Bytes
  import opened FrameHeader
  import opened FrameWalk
  import opened BlockEngine
  import opened FrameContent

  /** Blocks that are all there. Every one of them goes through the engine, the empty
      ones too; there is nothing to wait for. */
  function WholeBlocks(c: Codec, f: Frame, fed: seq<seq<byte>>, s: seq<byte>): (r: Scan)
    ensures !r.verdict.More?
    ensures r.verdict.Done? ==> 3 <= r.verdict.size <= |s|
    decreases |s|
  {
    if |s| < 3 || |s| < 3 + HeaderAt(s).BodySize() then Scan([], Bad(DecodeFailed))
    else
      var h := HeaderAt(s);
      var n := 3 + h.BodySize();
      var block, rest := s[..n], s[n..];
      if !WholeOk(c, f, fed, block) then Scan([], Bad(DecodeFailed))
      else Behind(WholeOut(c, f, fed, block), n,
                  if h.last then WholeTrailer(c, f, Feed(fed, block), rest)
                  else WholeBlocks(c, f, Feed(fed, block), rest))
  }

  function WholeTrailer(c: Codec, f: Frame, fed: seq<seq<byte>>, s: seq<byte>): Scan {
    if !f.checksum then Scan([], Done(0))
    else if |s| >= 4 && WholeTrailerTaken(c, f, fed, s[..4]) then Scan([], Done(4))
    else Scan([], Bad(DecodeFailed))
  }

  /** One frame. Its declared size is checked whatever its last block is. */
  function WholeFrame(c: Codec, s: seq<byte>): (r: Scan)
    ensures !r.verdict.More?
    ensures r.verdict.Done? ==> 3 <= r.verdict.size <= |s|
  {
    hide ParseFullHeader;
    match ParseFullHeader(s)
    case Ok(Complete(h)) =>
      HeaderFits(s);
      CompleteShape(s);
      if h.frameType.SkippableFrame? then
        var total := SKIPPABLE_HEADER + h.contentSize.value;
        if |s| < total then Scan([], Bad(DecodeFailed)) else Scan([], Done(total))
      else if !c.opens(s[..h.headerSize]) then Scan([], Bad(DecodeFailed))
      else
        var r := Behind([], h.headerSize, WholeBlocks(c, FrameOf(s, h), [], s[h.headerSize..]));
        if SizeAgrees(s, r.out) then r else Scan([], Bad(DecodeFailed))
    case _ => Scan([], Bad(DecodeFailed))
  }

  /** A series of frames that uses up the input. */
  function OneShot(c: Codec, s: seq<byte>): (r: Option<seq<byte>>)
    decreases |s|
  {
    hide WholeFrame;
    if s == [] then Some([])
    else
      var scan := WholeFrame(c, s);
      if !scan.verdict.Done? then None
      else
        var rest := OneShot(c, s[scan.verdict.size..]);
        if rest.None? then None else Some(scan.out + rest.value)
  }

  /** On bytes that are one frame, if any, that is the frame's output. */
  lemma OneShotOfOne(c: Codec, s: seq<byte>)
    requires s != [] && (WholeFrame(c, s).verdict.Done? ==> WholeFrame(c, s).verdict.size == |s|)
    ensures var scan := WholeFrame(c, s);
            OneShot(c, s) == if scan.verdict.Done? then Some(scan.out) else None
  {
    hide WholeFrame;
    var scan := WholeFrame(c, s);
    if scan.verdict.Done? {
      assert s[|s|..] == [] && scan.out + [] == scan.out;
    }
  }

  lemma WholeZstd(c: Codec, s: seq<byte>)
    requires ParseFullHeader(s).Ok? && ParseFullHeader(s).value.Complete?
    requires ParseFullHeader(s).value.header.frameType.ZstdFrame?
    ensures var h := ParseFullHeader(s).value.header;
            && h.headerSize <= |s|
            && WholeFrame(c, s) ==
               if !c.opens(s[..h.headerSize]) then Scan([], Bad(DecodeFailed))
               else
                 var r := Behind([], h.headerSize, WholeBlocks(c, FrameOf(s, h), [], s[h.headerSize..]));
                 if SizeAgrees(s, r.out) then r else Scan([], Bad(DecodeFailed))
  {
    HeaderFits(s);
    hide ParseFullHeader, WholeBlocks;
  }

  // ------------------------------------------------------------------
  // The same end as the size walks
  // ------------------------------------------------------------------

  lemma {:induction false} WholeFollowsWalk(c: Codec, f: Frame, fed: seq<seq<byte>>, s: seq<byte>)
    requires WholeBlocks(c, f, fed, s).verdict.Done?
    ensures var w := WalkBody(s, f.checksum, false);
            w.End? && w.size == WholeBlocks(c, f, fed, s).verdict.size
    decreases |s|
  {
    hide ReadBlockHeader, WholeOut, WholeTrailer, EngineTakes;
    var h := HeaderAt(s);
    var n := 3 + h.BodySize();
    if h.last {
      TrailerSize(c, f, Feed(fed, s[..n]), s[n..]);
    } else {
      WholeFollowsWalk(c, f, Feed(fed, s[..n]), s[n..]);
    }
  }

  lemma TrailerSize(c: Codec, f: Frame, fed: seq<seq<byte>>, s: seq<byte>)
    ensures var r := ScanTrailer(c, f, fed, s);
            r.out == [] && (r.verdict.Done? ==> r.verdict.size == (if f.checksum then 4 else 0) <= |s|)
    ensures var r := WholeTrailer(c, f, fed, s);
            r.out == [] && !r.verdict.More?
            && (r.verdict.Done? ==> r.verdict.size == (if f.checksum then 4 else 0) <= |s|)
  {
    hide TrailerTaken, WholeTrailerTaken;
  }

  lemma WholeMatchesSizeInfo(c: Codec, s: seq<byte>)
    requires ParseFullHeader(s).Ok? && ParseFullHeader(s).value.Complete?
    requires ParseFullHeader(s).value.header.frameType.ZstdFrame?
    requires WholeFrame(c, s).verdict.Done?
    ensures SizeInfo(s).Ok? && SizeInfo(s).value.compressedSize == WholeFrame(c, s).verdict.size
  {
    ZstdNotSkippable(s);
    hide ParseFullHeader, WholeBlocks, WalkBody, IsSkippable;
    var h := ParseFullHeader(s).value.header;
    HeaderFits(s);
    WholeFollowsWalk(c, FrameOf(s, h), [], s[h.headerSize..]);
  }

  // ------------------------------------------------------------------
  // Where the two readers part
  // ------------------------------------------------------------------

  lemma OneWholeBlock(c: Codec, f: Frame, fed: seq<seq<byte>>, block: seq<byte>, x: seq<byte>)
    requires |block| >= 3 && |block| == 3 + HeaderAt(block).BodySize() && WholeOk(c, f, fed, block)
    ensures WholeBlocks(c, f, fed, block + x) ==
            Behind(WholeOut(c, f, fed, block), |block|,
                   if HeaderAt(block).last then WholeTrailer(c, f, Feed(fed, block), x)
                   else WholeBlocks(c, f, Feed(fed, block), x))
  {
    var s := block + x;
    assert HeaderAt(s) == HeaderAt(block);
    assert s[..|block|] == block && s[|block|..] == x;
    hide ScanTrailer, WholeTrailer, WholeOut, WholeOk, Feed, ReadBlockHeader;
  }

  /** From the block headers alone: every block is within the limits that only the
      block-by-block path checks. */
  predicate AllCapped(f: Frame, s: seq<byte>)
    decreases |s|
  {
    |s| >= 3 ==>
      var h := HeaderAt(s);
      var n := 3 + h.BodySize();
      Capped(f, h) && (!h.last && |s| >= n ==> AllCapped(f, s[n..]))
  }

  /** From the block headers alone: no compressed block is without a body. */
  predicate NoneHollow(s: seq<byte>)
    decreases |s|
  {
    |s| >= 3 ==>
      var h := HeaderAt(s);
      var n := 3 + h.BodySize();
      !Hollow(h) && (!h.last && |s| >= n ==> NoneHollow(s[n..]))
  }

  /** From the block headers alone: the last block has no body. */
  predicate LastIsEmpty(s: seq<byte>)
    decreases |s|
  {
    && |s| >= 3
    && var h := HeaderAt(s);
       if h.last then h.BodySize() == 0
       else |s| >= 3 + h.BodySize() && LastIsEmpty(s[3 + h.BodySize()..])
  }

  /** No compressed block matches further back than the block-by-block path keeps. */
  predicate KeepsUp(c: Codec, f: Frame, fed: seq<seq<byte>>, s: seq<byte>)
    decreases |s|
  {
    |s| >= 3 && |s| >= 3 + HeaderAt(s).BodySize() ==>
      var h := HeaderAt(s);
      var n := 3 + h.BodySize();
      KeepsUpWith(c, f, fed, s[..n]) && (!h.last ==> KeepsUp(c, f, Feed(fed, s[..n]), s[n..]))
  }

  /** Every block regenerates what it does with all of its history. */
  predicate Faithful(c: Codec, f: Frame, fed: seq<seq<byte>>, s: seq<byte>)
    decreases |s|
  {
    |s| >= 3 && |s| >= 3 + HeaderAt(s).BodySize() ==>
      var h := HeaderAt(s);
      var n := 3 + h.BodySize();
      && BlockOut(c, f, fed, s[..n]) == WholeOut(c, f, fed, s[..n])
      && (!h.last ==> Faithful(c, f, Feed(fed, s[..n]), s[n..]))
  }

  lemma SameParts(a: seq<byte>, x: seq<byte>, b: seq<byte>, y: seq<byte>)
    requires |a| == |b|
    ensures a + x == b + y <==> a == b && x == y
  {
    assert (a + x)[..|a|] == a && (a + x)[|a|..] == x;
    assert (b + y)[..|b|] == b && (b + y)[|b|..] == y;
  }

  /** The trailer is the checksum of the whole content. */
  predicate ChecksumHolds(c: Codec, f: Frame, fed: seq<seq<byte>>, s: seq<byte>)
    decreases |s|
  {
    && |s| >= 3 && |s| >= 3 + HeaderAt(s).BodySize()
    && var n := 3 + HeaderAt(s).BodySize();
       var shown := Feed(fed, s[..n]);
       if HeaderAt(s).last then
         f.checksum ==> |s| >= n + 4 && WholeTrailerTaken(c, f, shown, s[n..][..4])
       else ChecksumHolds(c, f, shown, s[n..])
  }

  /** Both paths judge the trailer alike. */
  predicate TrailerHeard(c: Codec, f: Frame, fed: seq<seq<byte>>, s: seq<byte>)
    decreases |s|
  {
    |s| >= 3 && |s| >= 3 + HeaderAt(s).BodySize() ==>
      var n := 3 + HeaderAt(s).BodySize();
      var shown := Feed(fed, s[..n]);
      if HeaderAt(s).last then
        f.checksum && |s| >= n + 4 ==>
          (TrailerTaken(c, f, shown, s[n..][..4]) <==> WholeTrailerTaken(c, f, shown, s[n..][..4]))
      else TrailerHeard(c, f, shown, s[n..])
  }

  /** They do without a checksum, and behind a last block with a body, if blocks had their
      history. */
  lemma {:induction false} FaithfulIsHeard(c: Codec, f: Frame, fed: seq<seq<byte>>, s: seq<byte>)
    requires Faithful(c, f, fed, s) && StreamedContent(c, f, fed) == WholeContent(c, f, fed)
    requires !f.checksum || !LastIsEmpty(s)
    ensures TrailerHeard(c, f, fed, s)
    decreases |s|
  {
    hide ReadBlockHeader, BlockOut, WholeOut, Feed, StrayTaken, StreamedContent, WholeContent, Closed;
    if |s| >= 3 && |s| >= 3 + HeaderAt(s).BodySize() {
      var n := 3 + HeaderAt(s).BodySize();
      var block := s[..n];
      assert HeaderAt(block) == HeaderAt(s);
      ContentBlock(c, f, fed, block);
      if !HeaderAt(s).last {
        FaithfulIsHeard(c, f, Feed(fed, block), s[n..]);
      } else if n > 3 {
        ClosedBlock(fed, block);
      }
    }
  }

  /** Blocks read one by one to their end are within that path's limits. One-shot reads them
      to the same end exactly when none is hollow and the trailer is the checksum of the
      whole content, and to the same content exactly when each had its history. */
  lemma {:induction false} ReadIsWhole(c: Codec, f: Frame, fed: seq<seq<byte>>, s: seq<byte>)
    requires ScanBlocks(c, f, fed, s).verdict.Done? && f.blockSizeMax <= MAX_BLOCK_CONTENT
    ensures AllCapped(f, s) && KeepsUp(c, f, fed, s)
    ensures if NoneHollow(s) && ChecksumHolds(c, f, fed, s)
            then && WholeBlocks(c, f, fed, s).verdict == ScanBlocks(c, f, fed, s).verdict
                 && |WholeBlocks(c, f, fed, s).out| == |ScanBlocks(c, f, fed, s).out|
                 && (WholeBlocks(c, f, fed, s) == ScanBlocks(c, f, fed, s) <==> Faithful(c, f, fed, s))
            else WholeBlocks(c, f, fed, s).verdict.Bad?
    ensures TrailerHeard(c, f, fed, s) <==> ChecksumHolds(c, f, fed, s)
    decreases |s|
  {
    hide ReadBlockHeader, BlockOut, WholeOut, BlockOk, BlockHeaderOk, WholeOk, Capped, Hollow, KeepsUpWith, Feed,
      TrailerTaken, WholeTrailerTaken;
    var h := HeaderAt(s);
    var n := 3 + h.BodySize();
    var block, rest := s[..n], s[n..];
    TakenWhole(c, f, fed, s);
    TakenBoth(c, f, fed, block);
    TrailerSize(c, f, Feed(fed, block), rest);
    if h.last {
      SameParts(BlockOut(c, f, fed, block), [], WholeOut(c, f, fed, block), []);
    } else {
      ReadIsWhole(c, f, Feed(fed, block), rest);
      SameParts(BlockOut(c, f, fed, block), ScanBlocks(c, f, Feed(fed, block), rest).out,
                WholeOut(c, f, fed, block), WholeBlocks(c, f, Feed(fed, block), rest).out);
    }
  }

  lemma TakenWhole(c: Codec, f: Frame, fed: seq<seq<byte>>, s: seq<byte>)
    requires ScanBlocks(c, f, fed, s).verdict.Done?
    ensures |s| >= 3 && |s| >= 3 + HeaderAt(s).BodySize()
    ensures var h, n := HeaderAt(s), 3 + HeaderAt(s).BodySize();
            && HeaderAt(s[..n]) == h && BlockHeaderOk(f, h) && BlockOk(c, f, fed, s[..n])
            && (if h.last then ScanTrailer(c, f, Feed(fed, s[..n]), s[n..]).verdict.Done?
                else ScanBlocks(c, f, Feed(fed, s[..n]), s[n..]).verdict.Done?)
  {
    hide ReadBlockHeader, BlockOut, ScanTrailer, BlockOk, BlockHeaderOk, Feed;
  }

  /** Blocks read one-shot to their end have no hollow one among them, and are read one by
      one to that end if they are within that path's limits, meet the size, and both paths
      judge the trailer alike. */
  lemma {:induction false} WholeIsRead(c: Codec, f: Frame, fed: seq<seq<byte>>, s: seq<byte>)
    requires WholeBlocks(c, f, fed, s).verdict.Done?
    requires Declared(f.header).Some? ==>
               Produced(c, f, fed) + |WholeBlocks(c, f, fed, s).out| == Declared(f.header).value
    ensures NoneHollow(s) && ChecksumHolds(c, f, fed, s)
    ensures AllCapped(f, s) && KeepsUp(c, f, fed, s) && TrailerHeard(c, f, fed, s) ==>
              ScanBlocks(c, f, fed, s).verdict == WholeBlocks(c, f, fed, s).verdict
    decreases |s|
  {
    hide ReadBlockHeader, BlockOut, WholeOut, BlockOk, BlockHeaderOk, WholeOk, Capped, Hollow, KeepsUpWith, Feed,
      TrailerTaken, WholeTrailerTaken,
      Produced, Declared, Missized;
    var h := HeaderAt(s);
    var n := 3 + h.BodySize();
    var block, rest := s[..n], s[n..];
    assert HeaderAt(block) == h;
    ProducedBlock(c, f, fed, block);
    TrailerSize(c, f, Feed(fed, block), rest);
    if h.last {
      LastMeetsSize(c, f, fed, block);
    } else {
      NotLast(c, f, fed, block);
      WholeIsRead(c, f, Feed(fed, block), rest);
    }
    WholeBoth(c, f, fed, block);
  }

  lemma NotLast(c: Codec, f: Frame, fed: seq<seq<byte>>, block: seq<byte>)
    requires |block| >= 3 && !HeaderAt(block).last
    ensures !Missized(c, f, fed, block)
  {
    hide ReadBlockHeader;
  }

  lemma LastMeetsSize(c: Codec, f: Frame, fed: seq<seq<byte>>, block: seq<byte>)
    requires Declared(f.header).Some? ==> Produced(c, f, Feed(fed, block)) == Declared(f.header).value
    ensures !Missized(c, f, fed, block)
  {
    hide ReadBlockHeader, Produced, Declared;
  }

  /** Blocks read one by one past a last block with a body have the declared size. */
  lemma {:induction false} LastBlockChecks(c: Codec, f: Frame, fed: seq<seq<byte>>, s: seq<byte>)
    requires ScanBlocks(c, f, fed, s).verdict.Done? && !LastIsEmpty(s)
    requires Declared(f.header).Some?
    ensures Produced(c, f, fed) + |ScanBlocks(c, f, fed, s).out| == Declared(f.header).value
    decreases |s|
  {
    hide ReadBlockHeader, ScanTrailer, Declared, BlockOk, BlockHeaderOk, BlockOut, Produced, Feed;
    var h := HeaderAt(s);
    var block, rest := s[..3 + h.BodySize()], s[3 + h.BodySize()..];
    TakenWhole(c, f, fed, s);
    ProducedBlock(c, f, fed, block);
    TrailerSize(c, f, Feed(fed, block), rest);
    if h.last {
      LastAccepted(c, f, fed, block);
    } else {
      LastBlockChecks(c, f, Feed(fed, block), rest);
    }
  }

  lemma LastAccepted(c: Codec, f: Frame, fed: seq<seq<byte>>, block: seq<byte>)
    requires WholeBlock(block) && HeaderAt(block).last && BlockOk(c, f, fed, block)
    requires Declared(f.header).Some?
    ensures Produced(c, f, Feed(fed, block)) == Declared(f.header).value
  {
    hide ReadBlockHeader, Declared, Produced, Kept;
  }

  /** What follows the last block and its trailer is not read. */
  lemma {:induction false} WholeCut(c: Codec, f: Frame, fed: seq<seq<byte>>, s: seq<byte>, n: nat)
    requires WalkBody(s, f.checksum, false).End? && WalkBody(s, f.checksum, false).size == n
    ensures n <= |s| && WholeBlocks(c, f, fed, s[..n]) == WholeBlocks(c, f, fed, s)
    decreases |s|
  {
    hide ReadBlockHeader, WholeOut, WholeOk, Feed, WalkBlocks, WholeTrailerTaken;
    WalkAccepted(s, false);
    var b := 3 + HeaderAt(s).BodySize();
    var block := s[..b];
    assert s[..n][..b] == block && HeaderAt(s[..n]) == HeaderAt(s);
    assert s[..n][b..] == s[b..][..n - b];
    if HeaderAt(s).last {
      assert f.checksum ==> s[b..][..n - b][..4] == s[b..][..4];
    } else {
      WholeCut(c, f, Feed(fed, block), s[b..], n - b);
    }
  }

  /** While the buffer cannot wrap, what is read one-shot never matches too far back. */
  lemma {:induction false} UnwrappedKeepsUp(c: Codec, f: Frame, fed: seq<seq<byte>>, s: seq<byte>)
    requires WholeBlocks(c, f, fed, s).verdict.Done? && !Wraps(f)
    ensures KeepsUp(c, f, fed, s)
    decreases |s|
  {
    hide ReadBlockHeader, WholeOut, WholeTrailer, Feed, Wraps, Kept, History, Intact;
    KeptCoversWindow(c, f, fed);
    var h := HeaderAt(s);
    var n := 3 + h.BodySize();
    if !h.last {
      UnwrappedKeepsUp(c, f, Feed(fed, s[..n]), s[n..]);
    }
  }

  /** No compressed block matches further back than the window and the frame's start. */
  predicate InWindow(c: Codec, f: Frame, fed: seq<seq<byte>>, s: seq<byte>)
    decreases |s|
  {
    |s| >= 3 && |s| >= 3 + HeaderAt(s).BodySize() ==>
      var h := HeaderAt(s);
      var block := s[..3 + h.BodySize()];
      && (h.wire.Compressed? ==>
            && c.distance(f.header, fed, block) <= Window(f.header)
            && c.reach(f.header, fed, block) <= Min(Window(f.header), Produced(c, f, fed)))
      && (!h.last ==> InWindow(c, f, Feed(fed, block), s[|block|..]))
  }

  /** Such matches are always kept. */
  lemma {:induction false} InWindowKeepsUp(c: Codec, f: Frame, fed: seq<seq<byte>>, s: seq<byte>)
    requires InWindow(c, f, fed, s)
    ensures KeepsUp(c, f, fed, s)
    decreases |s|
  {
    hide ReadBlockHeader, BlockOut, ScanTrailer, Feed, Wraps, Kept, History, Produced, Window, Intact;
    KeptCoversWindow(c, f, fed);
    if |s| >= 3 && |s| >= 3 + HeaderAt(s).BodySize() {
      var n := 3 + HeaderAt(s).BodySize();
      assert HeaderAt(s[..n]) == HeaderAt(s);
      if !HeaderAt(s).last {
        InWindowKeepsUp(c, f, Feed(fed, s[..n]), s[n..]);
      }
    }
  }

  /** And where the buffer cannot wrap or matches stay in the window, blocks regenerate what
      they do with all of their history. */
  lemma {:induction false} NearIsFaithful(c: Codec, f: Frame, fed: seq<seq<byte>>, s: seq<byte>)
    requires Undisturbed(c, f, fed) && (!Wraps(f) || InWindow(c, f, fed, s))
    ensures Faithful(c, f, fed, s)
    decreases |s|
  {
    hide ReadBlockHeader, BlockOut, WholeOut, ScanTrailer, Feed, Wraps, Kept, History, Produced, Window, Undisturbed,
      Intact;
    if |s| >= 3 && |s| >= 3 + HeaderAt(s).BodySize() {
      var n := 3 + HeaderAt(s).BodySize();
      assert HeaderAt(s[..n]) == HeaderAt(s);
      KeptCoversWindow(c, f, fed);
      IntactBlock(c, f, fed, s[..n]);
      if !HeaderAt(s).last {
        NearIsFaithful(c, f, Feed(fed, s[..n]), s[n..]);
      }
    }
  }

  lemma IntactBlock(c: Codec, f: Frame, fed: seq<seq<byte>>, block: seq<byte>)
    requires |block| >= 3 && |block| == 3 + HeaderAt(block).BodySize()
    requires Undisturbed(c, f, fed) && (HeaderAt(block).wire.Compressed? ==> Intact(c, f, fed, block))
    ensures Undisturbed(c, f, Feed(fed, block))
    ensures BlockOut(c, f, fed, block) == WholeOut(c, f, fed, block)
  {
    hide ReadBlockHeader, Intact;
    assert (fed + [block])[..|fed|] == fed;
  }

  /** A start of blocks none of which is hollow has no hollow one either. */
  lemma {:induction false} NoneHollowPrefix(s: seq<byte>, t: seq<byte>)
    requires NoneHollow(s + t)
    ensures NoneHollow(s)
    decreases |s|
  {
    hide ReadBlockHeader, Hollow;
    if |s| >= 3 {
      assert HeaderAt(s + t) == HeaderAt(s);
      var n := 3 + HeaderAt(s).BodySize();
      if |s| >= n && !HeaderAt(s).last {
        assert (s + t)[n..] == s[n..] + t;
        NoneHollowPrefix(s[n..], t);
      }
    }
  }

  lemma {:induction false} FaithfulPrefix(c: Codec, f: Frame, fed: seq<seq<byte>>, s: seq<byte>, t: seq<byte>)
    requires Faithful(c, f, fed, s + t)
    ensures Faithful(c, f, fed, s)
    decreases |s|
  {
    hide ReadBlockHeader, BlockOut, WholeOut, Feed;
    if |s| >= 3 && |s| >= 3 + HeaderAt(s).BodySize() {
      assert HeaderAt(s + t) == HeaderAt(s);
      var n := 3 + HeaderAt(s).BodySize();
      assert (s + t)[..n] == s[..n];
      if !HeaderAt(s).last {
        assert (s + t)[n..] == s[n..] + t;
        FaithfulPrefix(c, f, Feed(fed, s[..n]), s[n..], t);
      }
    }
  }

  lemma {:induction false} HeardPrefix(c: Codec, f: Frame, fed: seq<seq<byte>>, s: seq<byte>, t: seq<byte>)
    requires TrailerHeard(c, f, fed, s + t)
    ensures TrailerHeard(c, f, fed, s)
    decreases |s|
  {
    hide ReadBlockHeader, TrailerTaken, WholeTrailerTaken, Feed;
    if |s| >= 3 && |s| >= 3 + HeaderAt(s).BodySize() {
      assert HeaderAt(s + t) == HeaderAt(s);
      var n := 3 + HeaderAt(s).BodySize();
      assert (s + t)[..n] == s[..n] && (s + t)[n..] == s[n..] + t;
      if !HeaderAt(s).last {
        HeardPrefix(c, f, Feed(fed, s[..n]), s[n..], t);
      } else if |s| >= n + 4 {
        assert (s[n..] + t)[..4] == s[n..][..4];
      }
    }
  }

  /** Behind an empty last block of a frame that one-shot decoding accepts, the other path
      accepts the trailer exactly when it passes for a block. */
  lemma {:induction false} HeardAsBlock(c: Codec, f: Frame, fed: seq<seq<byte>>, s: seq<byte>)
    requires WholeBlocks(c, f, fed, s).verdict.Done? && f.checksum && LastIsEmpty(s) && !Closed(fed)
    requires Declared(f.header).Some? ==>
               Produced(c, f, fed) + |WholeBlocks(c, f, fed, s).out| == Declared(f.header).value
    ensures var n := WholeBlocks(c, f, fed, s).verdict.size;
            7 <= n <= |s| && (TrailerHeard(c, f, fed, s) <==> PassesAsBlock(f, s[n - 4..n]))
    decreases |s|
  {
    hide ReadBlockHeader, WholeOut, WholeOk, Feed, Declared, Produced, Closed, WholeTrailerTaken, TrailerTaken, PassesAsBlock;
    var n := 3 + HeaderAt(s).BodySize();
    var block, rest := s[..n], s[n..];
    assert HeaderAt(block) == HeaderAt(s);
    ProducedBlock(c, f, fed, block);
    TrailerSize(c, f, Feed(fed, block), rest);
    if HeaderAt(s).last {
      HeardAtEnd(c, f, fed, s);
    } else {
      OpenStays(fed, block);
      HeardAsBlock(c, f, Feed(fed, block), rest);
      var m := WholeBlocks(c, f, Feed(fed, block), rest).verdict.size;
      assert rest[m - 4..m] == s[n + m - 4..n + m];
    }
  }

  lemma HeardAtEnd(c: Codec, f: Frame, fed: seq<seq<byte>>, s: seq<byte>)
    requires |s| >= 3 && HeaderAt(s).last && HeaderAt(s).BodySize() == 0
    requires WholeBlocks(c, f, fed, s).verdict.Done? && f.checksum && !Closed(fed)
    requires Declared(f.header).Some? ==> Produced(c, f, fed) == Declared(f.header).value
    ensures WholeBlocks(c, f, fed, s) == Scan([], Done(7)) && 7 <= |s|
    ensures TrailerHeard(c, f, fed, s) <==> PassesAsBlock(f, s[3..7])
  {
    hide ReadBlockHeader, WholeOk, Declared, Produced, Closed, WholeTrailerTaken, StrayTaken, PassesAsBlock;
    assert Feed(fed, s[..3]) == fed && s[3..][..4] == s[3..7];
    StrayPasses(c, f, fed, s[3..7]);
  }

  lemma StrayPasses(c: Codec, f: Frame, fed: seq<seq<byte>>, trailer: seq<byte>)
    requires |trailer| == 4 && (Declared(f.header).Some? ==> Produced(c, f, fed) == Declared(f.header).value)
    ensures StrayTaken(c, f, fed, trailer) <==> PassesAsBlock(f, trailer)
  {
    hide ReadBlockHeader, Declared, Produced;
  }

  lemma OpenStays(fed: seq<seq<byte>>, block: seq<byte>)
    requires |block| >= 3 && !HeaderAt(block).last && !Closed(fed)
    ensures !Closed(Feed(fed, block))
  {
    hide ReadBlockHeader;
    if |block| > 3 {
      ClosedBlock(fed, block);
    }
  }
}
