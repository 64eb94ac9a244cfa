/** The streaming decoder's stage machine: input claimed piece by piece into a
    staging buffer, output released one flush round per block. */
module DStreams {
  import opened Bytes
  import opened FrameHeader
  import opened FrameWalk
  import opened BlockEngine
  import opened FrameContent
  import opened OneShots
  import opened StreamSpec

  const COMPACT_LIMIT: nat := 4096

  datatype Stage =
    | FrameHeaderStage
    | BlockHeaderStage
    | BlockBody(wire: WireType, last: bool, size: nat, remaining: nat)
    | ChecksumStage
    | SkipContent(rest: nat)
    | FrameEnded

  datatype Engine = Engine(header: seq<byte>, fed: seq<seq<byte>>)

  datatype CallOutcome = CallOutcome(hint: nat, guardExempt: bool)

  datatype ArmResult = Continue | Break | Return(outcome: CallOutcome) | Fail(code: ErrorCode)

  /** How many spent bytes a compaction drops. */
  function CompactCut(cursor: nat, len: nat, keep: nat): (cut: nat)
    requires cursor <= len
    ensures cut <= cursor
  {
    if cursor < COMPACT_LIMIT && cursor < len then 0 else Max(cursor - keep, 0)
  }

  /** Queueing a decoded block, minus what was already released of it, leaves the
      output at the block's whole output. */
  lemma OwedGrows(c: Codec, f: Frame, fed: seq<seq<byte>>, block: seq<byte>, given: seq<byte>, owed: seq<byte>,
                  pending: seq<byte>, delivered: nat, released: nat, out: seq<byte>)
    requires |block| > 3 && |block| == 3 + HeaderAt(block).BodySize()
    requires delivered <= |pending| && owed == pending[delivered..]
    requires HeaderAt(block).wire.Raw? ==> released == |block| - 3 && given + owed == out + block[3..]
    requires !HeaderAt(block).wire.Raw? ==> released == 0 && given + owed == out
    ensures var o := Regenerate(c, f, fed, block);
            given + (pending + o[Min(released, |o|)..])[delivered..] == out + BlockOut(c, f, fed, block)
  {
    hide HeaderAt;
    var o := Regenerate(c, f, fed, block);
    var fresh' := o[Min(released, |o|)..];
    assert (pending + fresh')[delivered..] == owed + fresh';
    assert given + (owed + fresh') == (given + owed) + fresh';
    if HeaderAt(block).wire.Raw? {
      assert fresh' == [] && (given + owed) + [] == given + owed;
    } else {
      assert fresh' == o;
    }
  }

  lemma SuffixGrows(s: seq<byte>, n: nat, t: seq<byte>)
    requires n <= |s|
    ensures (s + t)[n..] == s[n..] + t
  {
  }

  lemma WholeSlice(s: seq<byte>, n: nat)
    requires n <= |s|
    ensures s[n..|s|] == s[n..]
  {
  }

  lemma JoinRead(before: seq<byte>, input: seq<byte>, a: nat, b: nat, c: nat)
    requires a <= b <= c <= |input|
    ensures (before + input[a..b]) + input[b..c] == before + input[a..c]
    ensures c > a ==> input[a..c] != []
  {
  }

  lemma PieceJoins(base: seq<byte>, out: seq<byte>, part: seq<byte>, x: seq<byte>)
    requires |part| >= 3
    ensures (part + x)[3..] == part[3..] + x && HeaderAt(part + x) == HeaderAt(part)
    ensures (base + part) + x == base + (part + x)
    ensures (out + part[3..]) + x == out + (part + x)[3..]
  {
    hide ReadBlockHeader;
    assert (part + x)[3..] == part[3..] + x;
  }

  predicate HeaderComplete(s: seq<byte>) {
    ParseFullHeader(s).Ok? && ParseFullHeader(s).value.Complete?
  }

  lemma Regroup(given: seq<byte>, owed: seq<byte>, n: nat)
    requires n <= |owed|
    ensures (given + owed[..n]) + owed[n..] == given + owed
  {
    assert owed[..n] + owed[n..] == owed;
  }

  /** The stages in the order a call can pass them without reading input. */
  function StageRank(stage: Stage): nat {
    match stage case FrameHeaderStage => 2 case SkipContent(_) => 1 case _ => 0
  }

  /** The staged header, of which this call claimed `mine`, lets the shortcut decode a
      frame that begins at `mine`. */
  ghost predicate Shortens(staged: seq<byte>, mine: seq<byte>, rest: seq<byte>, room: nat) {
    && HeaderComplete(staged)
    && var h := ParseFullHeader(staged).value.header;
       && h.frameType.ZstdFrame? && h.contentSize.Some? && h.contentSize.value <= room
       && h.headerSize == |staged|
       && ChainedSize(mine, rest).Some? && ChainedSize(mine, rest).value >= |mine|
  }

  /** A call that takes the shortcut either still waits for its header or takes it now. */
  lemma WhenShortcut(p: Progress, input: seq<byte>, start: nat, inPos: nat, staged: seq<byte>, room: nat)
    requires start <= inPos <= |input| && staged == p.taken + input[start..inPos]
    requires HeaderComplete(staged) ==> ParseFullHeader(staged).value.header.headerSize == |staged|
    requires ParseFullHeader(p.taken).Ok? && ParseFullHeader(p.taken).value.Wanted?
    ensures TakesShortcut(p, input[start..], room) && HeaderComplete(staged) ==>
              Shortens(staged, input[start..inPos], input[inPos..], room)
    ensures TakesShortcut(p, input[start..], room) ==> HeaderComplete(p.taken + input[start..])
  {
    hide ParseFullHeader, ChainedSize;
    var offered := input[start..];
    if TakesShortcut(p, offered, room) && HeaderComplete(staged) {
      var have: nat :| CompletesHeader(p, offered, have) && ShortcutAt(p, offered, room, have);
      assert p.taken + offered == staged + input[inPos..];
      HeaderLatched(p.taken, offered, staged, input[inPos..]);
      assert have == inPos - start;
      assert offered[..have] == input[start..inPos] && offered[have..] == input[inPos..];
    }
  }

  lemma ShortcutStartsInHeader(p: Progress, offered: seq<byte>, room: nat)
    ensures TakesShortcut(p, offered, room) ==> !HeaderComplete(p.taken)
  {
  }

  /** Taking it answers as a call that takes the shortcut may. */
  lemma ShortcutCase(c: Codec, p: Progress, input: seq<byte>, start: nat, inPos: nat, staged: seq<byte>, room: nat,
                     hint: Option<nat>, took: nat, gave: seq<byte>, q: Progress, now: Progress)
    requires start <= inPos <= |input| && staged == p.taken + input[start..inPos]
    requires ParseFullHeader(p.taken).Ok? && ParseFullHeader(p.taken).value.Wanted?
    requires Shortens(staged, input[start..inPos], input[inPos..], room)
    requires DecodesWhole(c, p, input[start..inPos] + input[inPos..],
                          ChainedSize(input[start..inPos], input[inPos..]).value, room, hint, took, gave, q, now)
    ensures TakesShortcut(p, input[start..], room)
    ensures ShortcutAnswer(c, p, input[start..], room, hint, took, gave, q, now)
  {
    hide ParseFullHeader, ChainedSize, DecodesWhole;
    var offered := input[start..];
    var have := inPos - start;
    assert p.taken + offered == staged + input[inPos..];
    HeaderLatched(p.taken, offered, staged, input[inPos..]);
    assert offered[..have] == input[start..inPos] && offered[have..] == input[inPos..];
    assert input[start..inPos] + input[inPos..] == offered;
    assert CompletesHeader(p, offered, have);
    assert ShortcutAt(p, offered, room, have);
  }

  lemma Decoded(c: Codec, p: Progress, mine: seq<byte>, rest: seq<byte>, size: nat, room: nat, hint: Option<nat>,
                took: nat, gave: seq<byte>, q: Progress, now: Progress)
    requires size <= |mine + rest|
    requires var inner := OneShot(c, (mine + rest)[..size]);
             && (hint.Some? <==> inner.Some? && |inner.value| <= room)
             && (hint.Some? ==> hint == Some(0) && took == size && gave == inner.value
                                && q == Whole(p, (mine + rest)[..size], gave) && now == FRESH)
    ensures DecodesWhole(c, p, mine + rest, size, room, hint, took, gave, q, now)
  {
  }

  lemma DirectSpan(input: seq<byte>, start: nat, inPos: nat, size: nat)
    requires start <= inPos <= |input| && start + size <= |input|
    ensures (input[start..inPos] + input[inPos..])[..size] == input[start..start + size]
  {
    assert input[start..inPos] + input[inPos..] == input[start..];
  }

  /** The frame a call that takes the shortcut reports. */
  function Whole(p: Progress, mine: seq<byte>, gave: seq<byte>): Progress {
    Progress(p.taken + mine, gave, [], false)
  }

  /** What one-shot decoding of the span the shortcut found makes of the call. */
  lemma DirectAnswer(c: Codec, p: Progress, input: seq<byte>, start: nat, inPos: nat, staged: seq<byte>, size: nat,
                     room: nat, ok: bool, gave: seq<byte>)
    requires start <= inPos <= |input| && staged == p.taken + input[start..inPos]
    requires ParseFullHeader(p.taken).Ok? && ParseFullHeader(p.taken).value.Wanted?
    requires Shortens(staged, input[start..inPos], input[inPos..], room)
    requires size == ChainedSize(input[start..inPos], input[inPos..]).value && start + size <= |input|
    requires var inner := OneShot(c, (input[start..inPos] + input[inPos..])[..size]);
             && ok == (inner.Some? && |inner.value| <= room)
             && (ok ==> gave == inner.value)
    ensures TakesShortcut(p, input[start..], room)
    ensures if ok then ShortcutAnswer(c, p, input[start..], room, Some(0), size, gave,
                                      Whole(p, input[start..start + size], gave), FRESH)
            else ShortcutAnswer(c, p, input[start..], room, None, 0, [], p, p)
  {
    hide ParseFullHeader, ChainedSize, OneShot, Shortens, TakesShortcut, ShortcutAnswer, DecodesWhole;
    DirectSpan(input, start, inPos, size);
    var mine, rest := input[start..inPos], input[inPos..];
    if ok {
      var q := Whole(p, input[start..start + size], gave);
      Decoded(c, p, mine, rest, size, room, Some(0), size, gave, q, FRESH);
      ShortcutCase(c, p, input, start, inPos, staged, room, Some(0), size, gave, q, FRESH);
    } else {
      Decoded(c, p, mine, rest, size, room, None, 0, [], p, p);
      ShortcutCase(c, p, input, start, inPos, staged, room, None, 0, [], p, p);
    }
  }

  class DStream {
    const codec: Codec
    var engine: Engine
    var staging: seq<byte>
    var cursor: nat
    var stage: Stage
    var checksummed: bool
    var blockSizeMax: nat
    var pending: seq<byte>
    var delivered: nat
    var preReleased: nat
    var hostage: bool
    /** The current frame so far, its delivered output, and the part of it whose
        pieces are complete, with that part's output. */
    ghost var taken: seq<byte>
    ghost var given: seq<byte>
    ghost var base: seq<byte>
    ghost var baseOut: seq<byte>

    function Staged(): seq<byte>
      requires cursor <= |staging|
      reads this`staging, this`cursor
    {
      staging[cursor..]
    }

    function Owed(): seq<byte>
      reads this`pending, this`delivered
    {
      if delivered <= |pending| then pending[delivered..] else []
    }

    ghost function TheFrame(): Frame
      reads this`engine, this`blockSizeMax, this`checksummed
    {
      Frame(engine.header, blockSizeMax, checksummed)
    }

    /** Where the block in flight starts in staging: its three header bytes stay
        below the cursor until its body decodes. */
    ghost function BodyStart(wire: WireType, size: nat, remaining: nat): int
      reads this`cursor
    {
      if wire.Raw? then cursor - (size - remaining) - 3 else cursor - 3
    }

    ghost predicate BodyInv(wire: WireType, last: bool, size: nat, remaining: nat, output: seq<byte>)
      requires cursor <= |staging|
      reads this`staging, this`cursor, this`engine, this`blockSizeMax, this`checksummed, this`preReleased,
        this`taken, this`base, this`baseOut
    {
      var start := BodyStart(wire, size, remaining);
      && !wire.Reserved?
      && 0 < remaining <= size <= blockSizeMax
      && AtBlocks(codec, base, baseOut, TheFrame(), engine.fed)
      && 0 <= start <= |staging| - 3
      && taken == base + staging[start..]
      && HeaderAt(staging[start..]).wire == wire
      && HeaderAt(staging[start..]).last == last
      && HeaderAt(staging[start..]).BodySize() == size
      && (wire.Raw? ==> cursor == |staging| && preReleased == size - remaining
                        && output == baseOut + staging[start + 3..])
      && (!wire.Raw? ==> remaining == size && |Staged()| < size && preReleased == 0
                         && output == baseOut)
    }

    /** What each stage knows about the bytes taken and the output they gave. */
    ghost predicate StageInv(output: seq<byte>)
      requires cursor <= |staging|
      reads this`stage, this`staging, this`cursor, this`engine, this`blockSizeMax, this`checksummed,
        this`preReleased, this`taken, this`base, this`baseOut
    {
      match stage
      case FrameHeaderStage =>
        && taken == Staged() && output == [] && preReleased == 0
        && (ParseFullHeader(taken).Ok? && ParseFullHeader(taken).value.Complete? ==>
              ParseFullHeader(taken).value.header.headerSize == |taken|)
      case BlockHeaderStage =>
        && AtBlocks(codec, base, baseOut, TheFrame(), engine.fed)
        && taken == base + Staged() && |Staged()| < 3
        && output == baseOut && preReleased == 0
      case BlockBody(wire, last, size, remaining) => BodyInv(wire, last, size, remaining, output)
      case ChecksumStage =>
        && checksummed && AtTrailer(codec, base, baseOut, TheFrame(), engine.fed)
        && taken == base + Staged() && |Staged()| < 4
        && output == baseOut && preReleased == 0
      case SkipContent(rest) =>
        && Staged() == [] && output == [] && preReleased == 0
        && |taken| >= SKIPPABLE_HEADER
        && ParseFullHeader(taken).Ok? && ParseFullHeader(taken).value.Complete?
        && ParseFullHeader(taken).value.header.frameType.SkippableFrame?
        && |taken| + rest == SKIPPABLE_HEADER + ParseFullHeader(taken).value.header.contentSize.value
      case FrameEnded =>
        && ScanFrame(codec, taken) == Scan(output, Done(|taken|))
        && Staged() == [] && preReleased == 0
    }

    ghost predicate Inv()
      reads this
    {
      && cursor <= |staging|
      && delivered <= |pending|
      && (delivered == |pending| ==> delivered == 0)
      && (hostage ==> stage.FrameEnded? && given + Owed() != [])
      && StageInv(given + Owed())
    }

    /** Spent staging is at most a kept block header, so staging holds one piece. */
    ghost predicate Bounded()
      reads this`blockSizeMax, this`stage, this`cursor
    {
      && blockSizeMax <= MAX_BLOCK_CONTENT
      && match stage
         case BlockBody(wire, _, size, remaining) => BodyStart(wire, size, remaining) == 0
         case _ => cursor <= 3
    }

    lemma BoundedLimits()
      requires Bounded()
      ensures blockSizeMax <= MAX_BLOCK_CONTENT
    {
    }

    ghost function Progressed(): Progress
      reads this`taken, this`given, this`pending, this`delivered, this`hostage
    {
      Progress(taken, given, Owed(), hostage)
    }

    /** Between calls. */
    ghost predicate Valid()
      reads this
    {
      && Inv()
      && (stage.FrameEnded? ==> hostage)
      && (stage.FrameHeaderStage? ==> ParseFullHeader(taken).Ok? && ParseFullHeader(taken).value.Wanted?)
      && (stage.SkipContent? ==> stage.rest > 0)
      && (!stage.FrameHeaderStage? ==> HeaderComplete(taken))
      && blockSizeMax <= MAX_BLOCK_CONTENT
      && (!stage.FrameHeaderStage? ==> Bounded())
    }

    /** No frame in progress: what a parameter reset asks for. */
    predicate AtBoundary()
      reads this`stage, this`pending, this`cursor, this`staging
    {
      stage.FrameHeaderStage? && pending == [] && cursor == |staging|
    }

    /** The boundary test is exact: nothing of a frame has been read or is owed. */
    lemma BoundaryIsFresh()
      requires Valid()
      ensures AtBoundary() <==> Progressed() == FRESH
    {
      hide AtBlocks, AtTrailer, ScanFrame, ReadBlockHeader;
      EmptyIsWanted();
      hide ParseFullHeader;
    }

    /** Between calls staging is short of one full block with its header, except in a
        frame header behind enough spent bytes; there, and only there, it is not. */
    lemma StagingBound()
      requires Valid()
      ensures stage.FrameHeaderStage? ==> |staging| == cursor + |taken|
      ensures |staging| >= 131_075 <==> stage.FrameHeaderStage? && cursor + |taken| >= 131_075
      ensures Bounded() ==> |staging| < 131_075
    {
      hide AtBlocks, AtTrailer, ScanFrame, ReadBlockHeader;
      if stage.FrameHeaderStage? {
        WantedAtMost(taken);
      }
      hide ParseFullHeader;
    }

    /** What a call leaves in front of a frame header, `spent` being what it found there:
        a frame that was opened leaves at most a block header, a header still being read
        leaves what was there, and the shortcut adds what earlier calls read of the header
        it was taken from. */
    ghost predicate SpentAs(p: Progress, offered: seq<byte>, room: nat, spent: nat, hint: nat)
      reads this`stage, this`cursor
    {
      stage.FrameHeaderStage? ==>
        if TakesShortcut(p, offered, room) then cursor == spent + |p.taken|
        else if hint == 0 then cursor <= 3
        else cursor == spent
    }

    /** Between calls: what has been handed out and is owed is what the bytes
        read determine, and a finished frame is held hostage. */
    lemma Rests()
      requires Valid()
      ensures Resting(codec, Progressed())
    {
      hide ScanFrame, AtBlocks, AtTrailer, ReadBlockHeader, ParseFullHeader;
      match stage
      case FrameHeaderStage =>
        WantedScan(codec, taken);
      case BlockHeaderStage =>
        BlockHeaderArriving(codec, base, baseOut, TheFrame(), engine.fed, Staged());
      case BlockBody(wire, _, size, remaining) =>
        BlockArriving(codec, base, baseOut, TheFrame(), engine.fed, staging[BodyStart(wire, size, remaining)..]);
      case ChecksumStage =>
        TrailerArriving(codec, base, baseOut, TheFrame(), engine.fed, Staged());
      case SkipContent(_) =>
        SkippableArriving(codec, taken);
      case FrameEnded =>
    }

    constructor (codec: Codec)
      ensures Valid() && this.codec == codec
      ensures Progressed() == FRESH
      ensures staging == [] && cursor == 0 && Bounded()
    {
      this.codec := codec;
      engine := Engine([], []);
      staging, cursor := [], 0;
      stage := FrameHeaderStage;
      checksummed, blockSizeMax := false, 0;
      pending, delivered, preReleased := [], 0, 0;
      hostage := false;
      taken, given, base, baseOut := [], [], [], [];
    }

    /** The next `n` bytes of the input are read: they join staging and the frame. */
    method Claim(input: seq<byte>, inPos: nat, n: nat) returns (inPos': nat)
      requires inPos + n <= |input|
      modifies this`staging, this`taken
      ensures inPos' == inPos + n
      ensures staging == old(staging) + input[inPos..inPos + n]
      ensures taken == old(taken) + input[inPos..inPos + n]
    {
      staging := staging + input[inPos..inPos + n];
      taken := taken + input[inPos..inPos + n];
      inPos' := inPos + n;
    }

    /** Drop spent staging below the cursor, keeping the last `keep` bytes. */
    method Compact(keep: nat)
      requires cursor <= |staging|
      modifies this`staging, this`cursor
      ensures var cut := CompactCut(old(cursor), old(|staging|), keep);
              staging == old(staging)[cut..] && cursor == old(cursor) - cut
      ensures if old(cursor) < 4096 && old(cursor < |staging|) then staging == old(staging) && cursor == old(cursor)
              else cursor == Min(keep, old(cursor)) && |staging| - cursor == old(|staging| - cursor)
    {
      if cursor < COMPACT_LIMIT && cursor < |staging| {
        return;
      }
      var cut := Max(cursor - keep, 0);
      if cut == 0 {
        return;
      }
      staging := staging[cut..];
      cursor := cursor - cut;
    }

    /** Output still owed goes out as far as there is room for it. */
    method Deliver(out: array<byte>, pos: nat) returns (pos': nat)
      requires delivered <= |pending| && pos <= out.Length
      modifies this`pending, this`delivered, this`given, out
      ensures delivered <= |pending|
      ensures pos' == pos + Min(|old(Owed())|, out.Length - pos)
      ensures out[..] == old(out[..pos]) + old(Owed())[..pos' - pos] + old(out[..])[pos'..]
      ensures Owed() == old(Owed())[pos' - pos..]
      ensures given == old(given) + old(Owed())[..pos' - pos]
      ensures Owed() == [] ==> pending == [] && delivered == 0
    {
      var take := Min(|pending| - delivered, out.Length - pos);
      forall i | pos <= i < pos + take {
        out[i] := pending[delivered + (i - pos)];
      }
      given := given + pending[delivered..delivered + take];
      pos' := pos + take;
      delivered := delivered + take;
      if delivered == |pending| {
        pending := [];
        delivered := 0;
      }
    }

    method FinishFrame()
      modifies this`stage
      ensures stage == FrameEnded
    {
      stage := FrameEnded;
    }

    /** Feed one whole staged block to the engine and queue its output, minus
        what a raw body already released piecewise. */
    method DecodeBlock(headerPos: nat, bodyEnd: nat) returns (ok: bool)
      requires headerPos + 3 < bodyEnd <= |staging| && delivered <= |pending|
      requires bodyEnd - headerPos == 3 + HeaderAt(staging[headerPos..bodyEnd]).BodySize()
      modifies this`engine, this`pending, this`preReleased
      ensures ok == BlockOk(codec, TheFrame(), old(engine.fed), staging[headerPos..bodyEnd])
      ensures engine.header == old(engine.header)
      ensures !ok ==> engine == old(engine)
      ensures ok ==> engine.fed == old(engine.fed) + [staging[headerPos..bodyEnd]]
      ensures ok ==> preReleased == 0
      ensures ok ==> var released := Regenerate(codec, TheFrame(), old(engine.fed), staging[headerPos..bodyEnd]);
                     pending == old(pending) + released[Min(old(preReleased), |released|)..]
    {
      var source := staging[headerPos..bodyEnd];
      var frame := Frame(engine.header, blockSizeMax, checksummed);
      var h := HeaderAt(source);
      if h.wire.Compressed? {
        ok := codec.decodes(engine.header, engine.fed, source)
              && codec.reach(engine.header, engine.fed, source) <= Kept(codec, frame, engine.fed);
      } else {
        ok := h.size <= blockSizeMax;
      }
      if h.last && Declared(engine.header).Some? {
        ok := ok && Produced(codec, frame, engine.fed + [source]) == Declared(engine.header).value;
      }
      if !ok {
        return;
      }
      var released := Regenerate(codec, frame, engine.fed, source);
      engine := engine.(fed := engine.fed + [source]);
      var skip := Min(preReleased, |released|);
      pending := pending + released[skip..];
      preReleased := 0;
    }

    // ----------------------------------------------------------------
    // The stages
    // ----------------------------------------------------------------

    /** Between flush rounds: a stage may run. */
    ghost predicate Ready()
      reads this
    {
      Inv() && !hostage && pending == [] && delivered == 0
    }

    method BlockHeaderArm(input: seq<byte>, inPos: nat) returns (r: ArmResult, inPos': nat)
      requires Ready() && stage.BlockHeaderStage? && inPos <= |input|
      modifies this
      ensures inPos <= inPos' <= |input|
      ensures taken == old(taken) + input[inPos..inPos'] && given == old(given)
      ensures r.Continue? || r.Break? ==> Ready() && (old(Bounded()) ==> Bounded())
      ensures r.Continue? ==> inPos < inPos' && !stage.FrameHeaderStage? && !stage.SkipContent?
      ensures r.Break? ==> stage.BlockHeaderStage? && inPos' == |input|
      ensures r.Fail? ==> ScanFrame(codec, taken).verdict == Bad(r.code)
      ensures !r.Return?
    {
      hide ScanFrame, AtBlocks, AtTrailer, ParseFullHeader, ReadBlockHeader, BlockOk, LeValue;
      assert given + Owed() == given;
      var need := 3 - |Staged()|;
      var available := |input| - inPos;
      if need > available {
        inPos' := Claim(input, inPos, available);
        return Break, inPos';
      }
      assert given == baseOut && taken == base + Staged();
      var ok;
      ok, inPos' := ReadHeader(input, inPos, need);
      return if ok then Continue else Fail(CorruptionDetected), inPos';
    }

    /** Complete and judge the block header at the cursor. */
    method ReadHeader(input: seq<byte>, inPos: nat, need: nat) returns (ok: bool, inPos': nat)
      requires cursor <= |staging| && 0 < need && |Staged()| + need == 3 && inPos + need <= |input|
      requires pending == [] && delivered == 0 && !hostage && preReleased == 0
      requires AtBlocks(codec, base, baseOut, TheFrame(), engine.fed)
      requires taken == base + Staged() && given == baseOut
      modifies this
      ensures inPos < inPos' <= |input|
      ensures taken == old(taken) + input[inPos..inPos'] && given == old(given)
      ensures ok ==> Ready() && !stage.FrameHeaderStage? && !stage.SkipContent?
      ensures ok && old(cursor) <= 3 && old(blockSizeMax) <= MAX_BLOCK_CONTENT ==> Bounded()
      ensures !ok ==> ScanFrame(codec, taken).verdict == Bad(CorruptionDetected)
    {
      hide ScanFrame, AtBlocks, AtTrailer, ParseFullHeader, ReadBlockHeader, BlockOk, LeValue, StageInv, BodyInv, Bounded;
      inPos' := Claim(input, inPos, need);
      ghost var head := Staged();
      assert |head| == 3 && taken == base + head;
      var h := ReadBlockHeader(Staged()[0], Staged()[1], Staged()[2]);
      var cSize := if h.wire.Rle? then 1 else h.size;
      if h.wire.Reserved? || cSize > blockSizeMax {
        BadBlockHeader(codec, base, baseOut, TheFrame(), engine.fed, head);
        return false, inPos';
      }
      cursor := cursor + 3;
      assert cursor == |staging| && staging[cursor - 3..] == head;
      Compact(3);
      assert staging == head && cursor == 3;
      if cSize == 0 {
        PassEmptyBlock(h.last, head);
      } else {
        AwaitBody(h, cSize, head);
      }
      return true, inPos';
    }

    /** An empty block carries no body piece and gives no output. */
    method PassEmptyBlock(last: bool, ghost head: seq<byte>)
      requires cursor == |staging| && pending == [] && delivered == 0 && !hostage && preReleased == 0
      requires |head| == 3 && HeaderAt(head).last == last && HeaderAt(head).BodySize() == 0
      requires BlockHeaderOk(TheFrame(), HeaderAt(head))
      requires AtBlocks(codec, base, baseOut, TheFrame(), engine.fed)
      requires taken == base + head && given == baseOut
      modifies this`stage, this`base
      ensures Ready() && !stage.FrameHeaderStage? && !stage.SkipContent? && !stage.BlockBody?
      ensures cursor <= 3 && blockSizeMax <= MAX_BLOCK_CONTENT ==> Bounded()
    {
      hide ScanFrame, AtBlocks, AtTrailer, ParseFullHeader, ReadBlockHeader, BlockOk, LeValue;
      assert given + Owed() == given;
      EmptyBlockLeadsOn(codec, base, baseOut, TheFrame(), engine.fed, head);
      base := base + head;
      assert taken == base + Staged();
      if !last {
        stage := BlockHeaderStage;
      } else if checksummed {
        stage := ChecksumStage;
      } else {
        NoTrailer(codec, base, baseOut, TheFrame(), engine.fed);
        FinishFrame();
      }
    }

    /** Await a body, its header kept in staging. */
    method AwaitBody(h: BlockHeader, cSize: nat, ghost head: seq<byte>)
      requires cursor == 3 && pending == [] && delivered == 0 && !hostage && preReleased == 0
      requires staging == head && |head| == 3 && HeaderAt(head) == h
      requires h.BodySize() == cSize > 0 && BlockHeaderOk(TheFrame(), h)
      requires AtBlocks(codec, base, baseOut, TheFrame(), engine.fed)
      requires taken == base + head && given == baseOut
      modifies this`stage
      ensures Ready() && stage == BlockBody(h.wire, h.last, cSize, cSize)
      ensures blockSizeMax <= MAX_BLOCK_CONTENT ==> Bounded()
    {
      hide ScanFrame, AtBlocks, AtTrailer, ParseFullHeader, ReadBlockHeader, BlockOk, LeValue;
      assert given + Owed() == given && baseOut + [] == baseOut;
      assert staging[0..] == head;
      stage := BlockBody(h.wire, h.last, cSize, cSize);
    }

    /** The block in flight is complete and decoded: on to what follows it. */
    method LeaveBlock(last: bool, ghost block: seq<byte>)
      requires cursor == |staging| && delivered <= |pending| && !hostage && preReleased == 0
      requires delivered == |pending| ==> delivered == 0
      requires taken == base + block
      requires if last then AtTrailer(codec, base + block, given + Owed(), TheFrame(), engine.fed)
               else AtBlocks(codec, base + block, given + Owed(), TheFrame(), engine.fed)
      modifies this`stage, this`staging, this`cursor, this`base, this`baseOut
      ensures Inv() && !stage.FrameHeaderStage? && !stage.SkipContent? && !hostage
      ensures blockSizeMax <= MAX_BLOCK_CONTENT ==> Bounded()
    {
      hide ScanFrame, AtBlocks, AtTrailer, ParseFullHeader;
      Compact(0);
      base, baseOut := base + block, given + Owed();
      if last {
        if checksummed {
          stage := ChecksumStage;
        } else {
          NoTrailer(codec, base, baseOut, TheFrame(), engine.fed);
          FinishFrame();
        }
      } else {
        stage := BlockHeaderStage;
      }
    }

    /** Decode the complete block in flight and leave it. */
    method CompleteBody(headerPos: nat, bodyEnd: nat, last: bool) returns (ok: bool)
      requires cursor <= bodyEnd == |staging| && headerPos + 3 < bodyEnd && !hostage && delivered == 0
      requires AtBlocks(codec, base, baseOut, TheFrame(), engine.fed)
      requires var block := staging[headerPos..];
               && taken == base + block
               && |block| == 3 + HeaderAt(block).BodySize() && HeaderAt(block).last == last
               && BlockHeaderOk(TheFrame(), HeaderAt(block))
               && (HeaderAt(block).wire.Raw? ==> preReleased == |block| - 3 && given + Owed() == baseOut + block[3..])
               && (!HeaderAt(block).wire.Raw? ==> preReleased == 0 && given + Owed() == baseOut)
      modifies this
      ensures taken == old(taken) && given == old(given)
      ensures ok ==> Inv() && !stage.FrameHeaderStage? && !stage.SkipContent? && !hostage
      ensures ok && old(blockSizeMax) <= MAX_BLOCK_CONTENT ==> Bounded()
      ensures !ok ==> ScanFrame(codec, taken).verdict == Bad(DecodeFailed)
    {
      hide ScanFrame, AtBlocks, AtTrailer, ParseFullHeader, ReadBlockHeader, LeValue;
      ghost var block := staging[headerPos..];
      WholeSlice(staging, headerPos);
      ok := DecodeBlock(headerPos, bodyEnd);
      if !ok {
        BadBlock(codec, base, baseOut, TheFrame(), engine.fed, block);
        return;
      }
      BlockLeadsOn(codec, base, baseOut, TheFrame(), old(engine.fed), block);
      cursor := bodyEnd;
      OwedGrows(codec, TheFrame(), old(engine.fed), block, given, old(Owed()), old(pending), delivered,
                old(preReleased), baseOut);
      LeaveBlock(last, block);
    }

    /** Raw bodies stream: every byte that arrives is output already. */
    method RawBodyArm(input: seq<byte>, inPos: nat) returns (r: ArmResult, inPos': nat)
      requires Ready() && stage.BlockBody? && stage.wire.Raw? && inPos <= |input|
      modifies this
      ensures inPos <= inPos' <= |input|
      ensures taken == old(taken) + input[inPos..inPos'] && given == old(given)
      ensures r.Continue? || r.Break? ==> Inv() && !hostage && (old(Bounded()) ==> Bounded())
      ensures r.Continue? ==> inPos < inPos' && !stage.FrameHeaderStage? && !stage.SkipContent?
      ensures r.Break? ==> stage.BlockBody? && inPos' == |input| && Ready()
      ensures r.Fail? ==> ScanFrame(codec, taken).verdict == Bad(r.code)
      ensures !r.Return?
    {
      hide ScanFrame, AtBlocks, AtTrailer, ParseFullHeader, ReadBlockHeader;
      var BlockBody(_, last, size, remaining) := stage;
      if |input| == inPos {
        return Break, inPos;
      }
      assert given + Owed() == given;
      var ok;
      ok, inPos' := RawPiece(last, size, remaining, input, inPos);
      return if ok then Continue else Fail(DecodeFailed), inPos';
    }

    /** Release as much of a raw body as has arrived. */
    method RawPiece(last: bool, size: nat, remaining: nat, input: seq<byte>, inPos: nat)
      returns (ok: bool, inPos': nat)
      requires inPos < |input| && 0 < remaining <= size <= blockSizeMax
      requires cursor == |staging| && cursor - (size - remaining) - 3 >= 0
      requires pending == [] && delivered == 0 && !hostage && preReleased == size - remaining
      requires AtBlocks(codec, base, baseOut, TheFrame(), engine.fed)
      requires var part := staging[cursor - (size - remaining) - 3..];
               && HeaderAt(part).wire.Raw? && HeaderAt(part).last == last && HeaderAt(part).BodySize() == size
               && taken == base + part && given == baseOut + part[3..]
      modifies this
      ensures inPos < inPos' <= |input|
      ensures taken == old(taken) + input[inPos..inPos'] && given == old(given)
      ensures ok ==> Inv() && !stage.FrameHeaderStage? && !stage.SkipContent? && !hostage
      ensures ok && old(cursor - (size - remaining) - 3 == 0 && blockSizeMax <= MAX_BLOCK_CONTENT) ==> Bounded()
      ensures !ok ==> ScanFrame(codec, taken).verdict == Bad(DecodeFailed)
    {
      hide ScanFrame, AtBlocks, AtTrailer, ParseFullHeader, ReadBlockHeader, StageInv, BodyInv, Bounded, Inv, HeaderAt;
      ghost var begin := cursor - (size - remaining) - 3;
      ghost var part := staging[begin..];
      var piece := Min(remaining, |input| - inPos);
      ghost var before := staging;
      inPos' := ReleasePiece(input, inPos, piece);
      SuffixGrows(before, begin, input[inPos..inPos']);
      PieceJoins(base, baseOut, part, input[inPos..inPos']);
      ok := AfterPiece(last, size, remaining - piece);
    }

    /** Claim a piece of a raw body and queue it as output at once. */
    method ReleasePiece(input: seq<byte>, inPos: nat, piece: nat) returns (inPos': nat)
      requires inPos + piece <= |input| && cursor == |staging| && pending == [] && delivered == 0
      modifies this`staging, this`taken, this`pending, this`preReleased, this`cursor
      ensures inPos' == inPos + piece
      ensures staging == old(staging) + input[inPos..inPos'] && cursor == |staging|
      ensures taken == old(taken) + input[inPos..inPos']
      ensures pending == input[inPos..inPos'] && Owed() == pending
      ensures preReleased == old(preReleased) + piece
    {
      inPos' := Claim(input, inPos, piece);
      var start := |staging| - piece;
      pending := pending + staging[start..];
      preReleased := preReleased + piece;
      cursor := cursor + piece;
    }

    /** A piece of a raw body was released: the body is complete, or goes on. */
    method AfterPiece(last: bool, size: nat, rest: nat) returns (ok: bool)
      requires rest < size <= blockSizeMax && cursor == |staging| && cursor - (size - rest) - 3 >= 0
      requires delivered == 0 && !hostage && preReleased == size - rest
      requires AtBlocks(codec, base, baseOut, TheFrame(), engine.fed)
      requires var part := staging[cursor - (size - rest) - 3..];
               && HeaderAt(part).wire.Raw? && HeaderAt(part).last == last && HeaderAt(part).BodySize() == size
               && taken == base + part && given + pending == baseOut + part[3..]
      modifies this
      ensures taken == old(taken) && given == old(given)
      ensures ok ==> Inv() && !stage.FrameHeaderStage? && !stage.SkipContent? && !hostage
      ensures ok && old(cursor - (size - rest) - 3 == 0 && blockSizeMax <= MAX_BLOCK_CONTENT) ==> Bounded()
      ensures !ok ==> ScanFrame(codec, taken).verdict == Bad(DecodeFailed)
    {
      hide ScanFrame, AtBlocks, AtTrailer, ParseFullHeader, ReadBlockHeader, StageInv, BodyInv, Bounded;
      assert Owed() == pending;
      if rest == 0 {
        ok := CompleteBody(cursor - size - 3, cursor, last);
      } else {
        AwaitRest(last, size, rest);
        ok := true;
      }
    }

    method AwaitRest(last: bool, size: nat, rest: nat)
      requires 0 < rest < size <= blockSizeMax && cursor == |staging| && cursor - (size - rest) - 3 >= 0
      requires delivered == 0 && !hostage && preReleased == size - rest
      requires AtBlocks(codec, base, baseOut, TheFrame(), engine.fed)
      requires var part := staging[cursor - (size - rest) - 3..];
               && HeaderAt(part).wire.Raw? && HeaderAt(part).last == last && HeaderAt(part).BodySize() == size
               && taken == base + part && given + Owed() == baseOut + part[3..]
      modifies this`stage
      ensures Inv() && stage == BlockBody(Raw, last, size, rest)
      ensures cursor - (size - rest) - 3 == 0 && blockSizeMax <= MAX_BLOCK_CONTENT ==> Bounded()
    {
      hide AtBlocks, AtTrailer, ScanFrame, ParseFullHeader, ReadBlockHeader;
      stage := BlockBody(Raw, last, size, rest);
    }

    /** Compressed and RLE bodies decode whole. */
    method WholeBodyArm(input: seq<byte>, inPos: nat) returns (r: ArmResult, inPos': nat)
      requires Ready() && stage.BlockBody? && !stage.wire.Raw? && inPos <= |input|
      modifies this
      ensures inPos <= inPos' <= |input|
      ensures taken == old(taken) + input[inPos..inPos'] && given == old(given)
      ensures r.Continue? || r.Break? ==> Inv() && !hostage && (old(Bounded()) ==> Bounded())
      ensures r.Continue? ==> inPos < inPos' && !stage.FrameHeaderStage? && !stage.SkipContent?
      ensures r.Break? ==> stage.BlockBody? && inPos' == |input| && Ready()
      ensures r.Fail? ==> ScanFrame(codec, taken).verdict == Bad(r.code)
      ensures !r.Return?
    {
      hide ScanFrame, AtBlocks, AtTrailer, ParseFullHeader, ReadBlockHeader;
      var BlockBody(_, last, size, remaining) := stage;
      ghost var part := staging[cursor - 3..];
      var need := remaining - |Staged()|;
      var available := |input| - inPos;
      if need > available {
        inPos' := Claim(input, inPos, available);
        assert staging[cursor - 3..] == part + input[inPos..inPos'];
        assert HeaderAt(staging[cursor - 3..]) == HeaderAt(part);
        return Break, inPos';
      }
      inPos' := Claim(input, inPos, need);
      ghost var whole := staging[cursor - 3..];
      assert whole == part + input[inPos..inPos'];
      assert HeaderAt(whole) == HeaderAt(part);
      assert taken == base + whole;
      var ok := CompleteBody(cursor - 3, cursor + size, last);
      if !ok {
        return Fail(DecodeFailed), inPos';
      }
      return Continue, inPos';
    }

    method ChecksumArm(input: seq<byte>, inPos: nat) returns (r: ArmResult, inPos': nat)
      requires Ready() && stage.ChecksumStage? && inPos <= |input|
      modifies this
      ensures inPos <= inPos' <= |input|
      ensures taken == old(taken) + input[inPos..inPos'] && given == old(given)
      ensures r.Continue? || r.Break? ==> Ready() && (old(Bounded()) ==> Bounded())
      ensures r.Continue? ==> inPos < inPos' && stage.FrameEnded?
      ensures r.Break? ==> stage.ChecksumStage? && inPos' == |input|
      ensures r.Fail? ==> ScanFrame(codec, taken).verdict == Bad(r.code)
      ensures !r.Return?
    {
      hide ScanFrame, AtBlocks, AtTrailer, ParseFullHeader;
      var need := 4 - |Staged()|;
      var available := |input| - inPos;
      if need > available {
        inPos' := Claim(input, inPos, available);
        return Break, inPos';
      }
      var ok;
      ok, inPos' := ReadTrailer(input, inPos, need);
      return if ok then Continue else Fail(DecodeFailed), inPos';
    }

    /** Hand the trailer to the engine. One that has not been shown the last block goes on
        reading blocks: four bytes are a block header and at most one byte of body. */
    method DecodeTrailer(source: seq<byte>) returns (ok: bool)
      requires |source| == 4
      ensures ok == TrailerTaken(codec, TheFrame(), engine.fed, source)
    {
      hide ReadBlockHeader, StreamedContent, Produced, Declared;
      var frame := Frame(engine.header, blockSizeMax, checksummed);
      if Closed(engine.fed) {
        return codec.trailerOk(StreamedContent(codec, frame, engine.fed), source);
      }
      var h := HeaderAt(source);
      if h.wire.Reserved? || h.size > MAX_BLOCK_CONTENT {
        return false;
      }
      if h.BodySize() > 1 {
        return true;
      }
      if h.wire.Compressed? || h.size > blockSizeMax {
        return false;
      }
      var declared := Declared(engine.header);
      return !h.last || declared.None? || Produced(codec, frame, engine.fed) + h.size == declared.value;
    }

    /** Complete and judge the trailer at the cursor. */
    method ReadTrailer(input: seq<byte>, inPos: nat, need: nat) returns (ok: bool, inPos': nat)
      requires cursor <= |staging| && 0 < need && |Staged()| + need == 4 && inPos + need <= |input|
      requires pending == [] && delivered == 0 && !hostage && preReleased == 0 && checksummed
      requires AtTrailer(codec, base, baseOut, TheFrame(), engine.fed)
      requires taken == base + Staged() && given == baseOut
      modifies this
      ensures inPos < inPos' <= |input|
      ensures taken == old(taken) + input[inPos..inPos'] && given == old(given)
      ensures ok ==> Ready() && stage.FrameEnded?
      ensures ok && old(blockSizeMax) <= MAX_BLOCK_CONTENT ==> Bounded()
      ensures !ok ==> ScanFrame(codec, taken).verdict == Bad(DecodeFailed)
    {
      hide ScanFrame, AtBlocks, AtTrailer, ParseFullHeader, BodyInv, TrailerTaken, HeaderAt;
      inPos' := Claim(input, inPos, need);
      var source := staging[cursor..cursor + 4];
      assert source == Staged() && taken == base + source;
      TrailerArriving(codec, base, baseOut, TheFrame(), engine.fed, source);
      ok := DecodeTrailer(source);
      if !ok {
        return;
      }
      cursor := cursor + 4;
      Compact(0);
      FinishFrame();
      assert given + Owed() == given;
    }

    method SkipContentArm(input: seq<byte>, inPos: nat) returns (r: ArmResult, inPos': nat)
      requires Ready() && stage.SkipContent? && inPos <= |input|
      modifies this
      ensures inPos <= inPos' <= |input|
      ensures taken == old(taken) + input[inPos..inPos'] && given == old(given)
      ensures Ready() && (old(Bounded()) ==> Bounded())
      ensures r.Continue? || r.Break?
      ensures r.Continue? ==> if stage.FrameEnded? then inPos < inPos' || old(stage) == SkipContent(0)
                              else stage.SkipContent? && stage.rest > 0 && inPos < inPos'
      ensures r.Break? ==> stage.SkipContent? && stage.rest > 0 && inPos' == |input|
    {
      hide ParseFullHeader;
      var rest := stage.rest;
      if rest == 0 {
        SkippableArriving(codec, taken);
        FinishFrame();
        return Continue, inPos;
      }
      var take := Min(rest, |input| - inPos);
      if take == 0 {
        return Break, inPos;
      }
      FullHeaderLatches(taken, input[inPos..inPos + take]);
      taken := taken + input[inPos..inPos + take];
      inPos' := inPos + take;
      if take == rest {
        SkippableArriving(codec, taken);
        FinishFrame();
      } else {
        stage := SkipContent(rest - take);
      }
      return Continue, inPos';
    }

    /** The header is not complete: claim what it wants, or all there is. */
    method WantedArm(want: nat, input: seq<byte>, inPos: nat) returns (r: ArmResult, inPos': nat, committed: bool)
      requires Ready() && stage.FrameHeaderStage? && inPos <= |input|
      requires ParseFullHeader(taken) == Ok(Wanted(want))
      modifies this
      ensures inPos <= inPos' <= |input|
      ensures taken == old(taken) + input[inPos..inPos'] && given == old(given)
      ensures staging == old(staging) + input[inPos..inPos'] && cursor == old(cursor)
      ensures r.Continue? || r.Return? ==> Ready() && stage.FrameHeaderStage? && blockSizeMax == old(blockSizeMax)
      ensures r.Continue? ==> inPos < inPos' && |taken| >= HEADER_PREFIX
      ensures committed == r.Fail?
      ensures r.Fail? ==> inPos' == |input| && |taken| < HEADER_PREFIX
      ensures r.Return? ==> inPos' == |input| && r.outcome.guardExempt
                            && ParseFullHeader(taken).Ok? && ParseFullHeader(taken).value.Wanted?
                            && ScanFrame(codec, taken) == Scan([], More(r.outcome.hint))
      ensures r.Fail? ==> ScanFrame(codec, taken).verdict == Bad(r.code) && ParseFullHeader(taken).Err?
      ensures !r.Break?
    {
      hide ParseFullHeader, ScanFrame, AtBlocks, AtTrailer, ParseErrorCode;
      var staged := |Staged()|;
      WantedScan(codec, taken);
      var toLoad := want - staged;
      var available := |input| - inPos;
      committed := false;
      if toLoad > available {
        inPos' := Claim(input, inPos, available);
        WantedIsNecessary(old(taken), input[inPos..inPos']);
        assert Staged() == taken;
        var again := ParseFullHeader(Staged());
        if again.Err? {
          RefusedHeader(codec, taken);
          ShortRefusal(old(taken), input[inPos..inPos']);
          committed := true;
          return Fail(ParseErrorCode(again.error)), inPos', committed;
        }
        var want' := if again.value.Wanted? then again.value.want else want;
        WantedScan(codec, taken);
        return Return(CallOutcome(Max(want', FRAME_HEADER_MIN) - |Staged()| + 3, true)), inPos', committed;
      }
      inPos' := Claim(input, inPos, toLoad);
      WantedAtMost(old(taken));
      HeaderEndsAtWant(old(taken), input[inPos..inPos']);
      assert Staged() == taken;
      return Continue, inPos', committed;
    }

    method SkippableHeaderArm(full: FullHeader)
      requires Ready() && stage.FrameHeaderStage?
      requires ParseFullHeader(taken) == Ok(Complete(full)) && full.frameType.SkippableFrame?
      requires blockSizeMax <= MAX_BLOCK_CONTENT
      modifies this
      ensures taken == old(taken) && given == old(given)
      ensures Ready() && stage.SkipContent? && Bounded() && staging == [] && cursor == 0
    {
      hide ParseFullHeader, ScanFrame, BodyInv, LeValue;
      CompleteShape(taken);
      SkipHeader(full.headerSize, full.contentSize.value);
    }

    method SkipHeader(headerSize: nat, content: nat)
      requires cursor + headerSize == |staging| && pending == [] && delivered == 0 && !hostage && preReleased == 0
      requires given == [] && headerSize == SKIPPABLE_HEADER == |taken|
      requires ParseFullHeader(taken).Ok? && ParseFullHeader(taken).value.Complete?
      requires ParseFullHeader(taken).value.header.frameType.SkippableFrame?
      requires ParseFullHeader(taken).value.header.contentSize == Some(content)
      modifies this
      ensures taken == old(taken) && given == old(given) && blockSizeMax == old(blockSizeMax)
      ensures Ready() && stage.SkipContent? && staging == [] && cursor == 0
      ensures blockSizeMax <= MAX_BLOCK_CONTENT ==> Bounded()
    {
      hide ParseFullHeader, ScanFrame, AtBlocks, AtTrailer, BodyInv, LeValue, HeaderAt;
      ConsumeAll(headerSize);
      checksummed := false;
      stage := SkipContent(content);
      assert given + Owed() == [];
    }

    /** The shortcut has answered: of the frame there is nothing left to account for. */
    ghost predicate Bypassed()
      reads this
    {
      Ready() && stage.FrameEnded? && blockSizeMax <= MAX_BLOCK_CONTENT
    }

    /** The single-pass shortcut: a frame with a declared size that fits the
        caller's buffer and, measured from this call's first byte, arrives whole
        in this call decodes in one step straight into the caller's output. */
    method Shortcut(full: FullHeader, callStart: nat, input: seq<byte>, inPos: nat, out: array<byte>, outPos: nat)
      returns (hit: bool, failed: bool, inPos': nat, outPos': nat)
      requires Ready() && stage.FrameHeaderStage? && inPos <= |input| && outPos <= out.Length
      requires cursor <= callStart <= |staging| && blockSizeMax <= MAX_BLOCK_CONTENT
      modifies this, out
      ensures var have := |old(staging)| - callStart;
              var csize := ChainedSize(old(staging)[callStart..], input[inPos..]);
              && hit == (full.contentSize.Some? && out.Length - outPos >= full.contentSize.value
                         && csize.Some? && csize.value >= have)
              && (hit ==>
                    && inPos' == inPos + (csize.value - have) <= |input|
                    && var frame := old(staging)[callStart..] + input[inPos..inPos'];
                       && |frame| == csize.value
                       && failed == !(OneShot(codec, frame).Some? && |OneShot(codec, frame).value| <= out.Length - outPos)
                       && (!failed ==>
                             && var written := OneShot(codec, frame).value;
                             && outPos' == outPos + |written|
                             && out[..] == old(out[..outPos]) + written + old(out[..])[outPos'..]
                             && Bypassed()
                             && staging == old(staging)[..callStart] && cursor == callStart))
      ensures !hit ==> unchanged(this) && unchanged(out)
    {
      hide ParseFullHeader, WalkBody, ScanFrame, AtBlocks, AtTrailer, ChainedSize, SizeAgrees, OneShot;
      hit, failed, inPos', outPos' := false, false, inPos, outPos;
      if full.contentSize.Some? && out.Length - outPos >= full.contentSize.value {
        var have := |staging| - callStart;
        var rest := input[inPos..];
        var csize := ChainedFrameSize(staging[callStart..], rest);
        if csize.Some? && csize.value >= have && csize.value - have <= |input| - inPos {
          hit := true;
          ghost var before := staging;
          inPos' := Claim(input, inPos, csize.value - have);
          var frameEnd := callStart + csize.value;
          var frame := staging[callStart..frameEnd];
          assert frame == before[callStart..] + input[inPos..inPos'];
          var written := OneShot(codec, frame);
          if written.None? || |written.value| > out.Length - outPos {
            failed := true;
            return;
          }
          outPos' := PlaceWhole(written.value, callStart, out, outPos);
          assert staging == before[..callStart];
        }
      }
    }

    /** Output decoded straight into the caller's buffer: drop its staged bytes and
        end the frame. */
    method PlaceWhole(written: seq<byte>, callStart: nat, out: array<byte>, outPos: nat) returns (outPos': nat)
      requires callStart <= |staging| && outPos + |written| <= out.Length
      requires pending == [] && delivered == 0 && !hostage && preReleased == 0
      requires blockSizeMax <= MAX_BLOCK_CONTENT
      modifies this, out
      ensures outPos' == outPos + |written|
      ensures out[..] == old(out[..outPos]) + written + old(out[..])[outPos'..]
      ensures Bypassed()
      ensures staging == old(staging)[..callStart] && cursor == callStart
    {
      hide ScanFrame;
      forall i | outPos <= i < outPos + |written| {
        out[i] := written[i - outPos];
      }
      outPos' := outPos + |written|;
      staging := staging[..callStart];
      cursor := callStart;
      FinishFrame();
      EmptyFrameScan(codec);
      taken, given := EMPTY_FRAME, [];
      assert given + Owed() == given;
    }

    /** Hand the header to the engine and go on to the first block. */
    method OpenFrameArm(full: FullHeader) returns (ok: bool)
      requires Ready() && stage.FrameHeaderStage?
      requires ParseFullHeader(taken) == Ok(Complete(full)) && full.frameType.ZstdFrame?
      modifies this
      ensures taken == old(taken) && given == old(given)
      ensures ok ==> Ready() && stage.BlockHeaderStage? && Bounded() && staging == [] && cursor == 0
      ensures !ok ==> ScanFrame(codec, taken).verdict == Bad(DecodeFailed)
    {
      hide ParseFullHeader, ScanBlocks, ScanFrame, AtBlocks, AtTrailer;
      HeaderOutcome(codec, taken);
      var source := Staged();
      ok := codec.opens(source);
      if !ok {
        return;
      }
      OpenFrame(full, source);
    }

    method OpenFrame(full: FullHeader, header: seq<byte>)
      requires cursor + full.headerSize == |staging| && taken == header
      requires pending == [] && delivered == 0 && !hostage && preReleased == 0 && given == []
      requires full.blockSizeMax <= MAX_BLOCK_CONTENT
      requires AtBlocks(codec, taken, [], Frame(taken, full.blockSizeMax, full.checksum), [])
      modifies this
      ensures taken == old(taken) && given == old(given)
      ensures Ready() && stage.BlockHeaderStage? && Bounded() && staging == [] && cursor == 0
    {
      hide ParseFullHeader, ScanFrame, AtBlocks, AtTrailer, BodyInv;
      ConsumeAll(full.headerSize);
      engine := Engine(header, []);
      checksummed, blockSizeMax := full.checksum, full.blockSizeMax;
      base, baseOut := taken, [];
      stage := BlockHeaderStage;
      assert taken + [] == taken;
    }

    /** Everything staged is used up. */
    method ConsumeAll(n: nat)
      requires cursor + n == |staging|
      modifies this`staging, this`cursor
      ensures staging == [] && cursor == 0
    {
      cursor := cursor + n;
      Compact(0);
    }

    // ----------------------------------------------------------------
    // One call
    // ----------------------------------------------------------------

    /** What a piece that is still arriving wants next. */
    method PieceHint() returns (hint: nat)
      requires Inv() && !stage.FrameHeaderStage? && !stage.FrameEnded?
      requires stage.SkipContent? ==> stage.rest > 0
      ensures ScanFrame(codec, taken).verdict == More(hint)
      ensures ScanFrame(codec, taken).out == given + Owed()
    {
      hide ScanFrame, AtBlocks, AtTrailer, ParseFullHeader, ReadBlockHeader;
      var staged := |Staged()|;
      match stage
      case BlockHeaderStage =>
        BlockHeaderArriving(codec, base, baseOut, TheFrame(), engine.fed, Staged());
        hint := 3 - staged;
      case BlockBody(wire, last, size, remaining) =>
        ghost var part := staging[BodyStart(wire, size, remaining)..];
        BlockArriving(codec, base, baseOut, TheFrame(), engine.fed, part);
        hint := if last then remaining - staged else remaining + 3 - staged;
      case ChecksumStage =>
        TrailerArriving(codec, base, baseOut, TheFrame(), engine.fed, Staged());
        hint := 4 - staged;
      case SkipContent(rest) =>
        SkippableArriving(codec, taken);
        hint := rest;
    }

    /** The answer once the loop has stopped. */
    method Answer(input: seq<byte>, inPos: nat) returns (outcome: CallOutcome, inPos': nat, ghost q: Progress)
      requires Inv() && !stage.FrameHeaderStage? && inPos <= |input|
      requires stage.SkipContent? ==> stage.rest > 0
      requires Owed() == [] ==> pending == [] && delivered == 0
      requires stage.FrameEnded? && Owed() != [] && !hostage ==> inPos > 0
      requires (HeaderComplete(taken) && Bounded()) || (stage.FrameEnded? && pending == [] && !hostage)
      requires blockSizeMax <= MAX_BLOCK_CONTENT
      modifies this
      ensures q.taken == old(taken) && q.given == old(given) && q.owed == old(Owed())
      ensures Consistent(codec, q) && Hints(codec, q, outcome.hint) && !outcome.guardExempt
      ensures Valid() && (old(Bounded()) ==> Bounded())
      ensures Progressed() == if outcome.hint == 0 then FRESH else q
      ensures old(stage).FrameEnded? ==> ScanFrame(codec, q.taken).verdict.Done?
      ensures !old(stage).FrameEnded? ==> ScanFrame(codec, q.taken).verdict.More? && !q.hostage && inPos' == inPos
      ensures old(stage).FrameEnded? ==>
                && q.hostage == (q.owed != [] || (old(hostage) && inPos == |input|))
                && inPos' == inPos + (if old(hostage) then 1 else 0) - (if q.hostage then 1 else 0)
                && inPos' <= |input|
      ensures stage.FrameHeaderStage? ==> outcome.hint == 0
      ensures old(stage).FrameEnded? && old(pending) == [] && !old(hostage) ==>
                outcome.hint == 0 && stage.FrameHeaderStage? && staging == old(staging) && cursor == old(cursor)
    {
      hide ScanFrame, AtBlocks, AtTrailer, ParseFullHeader, ReadBlockHeader, HeaderComplete;
      inPos' := inPos;
      if stage.FrameEnded? {
        if pending == [] {
          if hostage {
            if inPos >= |input| {
              q := Progressed();
              return CallOutcome(1, false), inPos', q;
            }
            inPos' := inPos + 1;
            hostage := false;
          }
          q := Progressed();
          stage := FrameHeaderStage;
          taken, given := [], [];
          EmptyIsWanted();
          return CallOutcome(0, false), inPos', q;
        }
        if !hostage {
          inPos' := inPos - 1;
          if cursor > 0 {
            staging := staging[..|staging| - 1];
            cursor := cursor - 1;
          }
          hostage := true;
        }
        q := Progressed();
        return CallOutcome(1, false), inPos', q;
      }
      q := Progressed();
      var hint := PieceHint();
      return CallOutcome(hint, false), inPos', q;
    }

    /** A block header, block body, trailer or skippable-content piece. */
    method PieceArm(input: seq<byte>, inPos: nat) returns (r: ArmResult, inPos': nat)
      requires Ready() && inPos <= |input| && !stage.FrameHeaderStage? && !stage.FrameEnded?
      modifies this
      ensures inPos <= inPos' <= |input|
      ensures taken == old(taken) + input[inPos..inPos'] && given == old(given)
      ensures r.Continue? || r.Break? ==>
                Inv() && !hostage && !stage.FrameHeaderStage? && (old(Bounded()) ==> Bounded())
      ensures r.Continue? ==> inPos < inPos' || (stage.FrameEnded? && Owed() == [] && old(stage) == SkipContent(0))
      ensures r.Continue? ==> stage != SkipContent(0)
      ensures r.Break? ==> Ready() && inPos' == |input| && !stage.FrameEnded? && stage != SkipContent(0)
      ensures r.Fail? ==> Refuses(codec, old(taken) + input[inPos..], r.code)
      ensures !r.Return?
    {
      hide ScanFrame, AtBlocks, AtTrailer, ParseFullHeader, ReadBlockHeader, Refuses, BodyInv, HeaderAt;
      match stage {
        case BlockHeaderStage =>
          r, inPos' := BlockHeaderArm(input, inPos);
        case BlockBody(wire, _, _, _) =>
          if wire.Raw? {
            r, inPos' := RawBodyArm(input, inPos);
          } else {
            r, inPos' := WholeBodyArm(input, inPos);
          }
        case ChecksumStage =>
          r, inPos' := ChecksumArm(input, inPos);
        case SkipContent(_) =>
          r, inPos' := SkipContentArm(input, inPos);
      }
      if r.Fail? {
        assert old(taken) + input[inPos..] == taken + input[inPos'..];
        RejectedExtends(codec, old(taken), input[inPos..], taken, input[inPos'..]);
      }
    }

    /** The frame-header stage: claim, skip, shortcut or open. */
    method HeaderArm(callStart: nat, input: seq<byte>, inPos: nat, out: array<byte>, outPos: nat)
      returns (r: ArmResult, inPos': nat, outPos': nat, toCommit: bool, ghost direct: bool)
      requires Ready() && stage.FrameHeaderStage? && inPos <= |input| && outPos <= out.Length
      requires cursor <= callStart <= |staging|
      requires ParseFullHeader(taken).Ok? || |taken| >= HEADER_PREFIX
      requires blockSizeMax <= MAX_BLOCK_CONTENT
      modifies this, out
      ensures inPos <= inPos' <= |input| && outPos <= outPos' <= out.Length
      ensures toCommit <==> r.Fail? && |old(taken) + input[inPos..]| < HEADER_PREFIX
      ensures toCommit ==> inPos' == |input| && ParseFullHeader(old(taken) + input[inPos..]).Err?
      ensures r.Continue? && stage.FrameHeaderStage? ==> |taken| >= HEADER_PREFIX
      ensures !r.Fail? ==> Wrote(old(out[..]), out[..], outPos, outPos')
      ensures direct == old(Shortens(Staged(), staging[callStart..], input[inPos..], out.Length - outPos))
      ensures !r.Break?
      ensures r.Continue? || r.Return? ==> Ready()
      ensures direct ==>
                var size := ChainedSize(old(staging)[callStart..], input[inPos..]).value;
                var inner := OneShot(codec, (old(staging)[callStart..] + input[inPos..])[..size]);
                && r.Fail? == !(inner.Some? && |inner.value| <= out.Length - outPos)
                && (!r.Fail? ==> r.Continue? && Bypassed() && out[outPos..outPos'] == inner.value
                                 && staging == old(staging)[..callStart] && cursor == callStart
                                 && inPos' == inPos + (size - (|old(staging)| - callStart)))
      ensures !direct && r.Fail? ==> Refuses(codec, old(taken) + input[inPos..], r.code)
      ensures direct && r.Fail? ==> r.code == DecodeFailed
      ensures !direct && r.Fail? ==> HeaderComplete(old(taken)) || ParseFullHeader(old(taken) + input[inPos..]).Err?
      ensures !direct && !r.Fail? && !stage.FrameHeaderStage? ==> HeaderComplete(old(taken)) && HeaderComplete(taken)
      ensures !direct && !r.Fail? ==>
                && taken == old(taken) + input[inPos..inPos']
                && given == out[outPos..outPos']
                && blockSizeMax <= MAX_BLOCK_CONTENT && (!stage.FrameHeaderStage? ==> Bounded())
      ensures !direct && !r.Fail? && stage.FrameHeaderStage? ==>
                cursor == old(cursor) && staging == old(staging) + input[inPos..inPos'] && outPos' == outPos
      ensures r.Continue? ==> inPos < inPos' || !stage.FrameHeaderStage?
      ensures r.Continue? && inPos' == inPos ==>
                ParseFullHeader(old(taken)).Ok? && ParseFullHeader(old(taken)).value.Complete?
      ensures r.Return? ==> stage.FrameHeaderStage? && inPos' == |input|
                            && ParseFullHeader(taken).Ok? && ParseFullHeader(taken).value.Wanted?
                            && ScanFrame(codec, taken) == Scan([], More(r.outcome.hint)) && r.outcome.guardExempt
    {
      hide ScanFrame, AtBlocks, AtTrailer, ParseFullHeader, ChainedSize, Refuses, OneShot, BodyInv, LeValue;
      inPos', outPos', toCommit := inPos, outPos, false;
      direct := Shortens(Staged(), staging[callStart..], input[inPos..], out.Length - outPos);
      var parse := ParseFullHeader(Staged());
      if parse.Err? {
        RefusedHeader(codec, taken);
        FullHeaderLatches(taken, input[inPos..]);
        RejectedExtends(codec, taken, input[inPos..], taken, input[inPos..]);
        return Fail(ParseErrorCode(parse.error)), inPos', outPos', toCommit, direct;
      }
      if parse.value.Wanted? {
        r, inPos', toCommit := WantedArm(parse.value.want, input, inPos);
        if r.Fail? {
          assert old(taken) + input[inPos..] == taken + input[inPos'..];
          FullHeaderLatches(taken, input[inPos'..]);
          RejectedExtends(codec, old(taken), input[inPos..], taken, input[inPos'..]);
        }
        return r, inPos', outPos', toCommit, direct;
      }
      var full := parse.value.header;
      HeaderFits(taken);
      if full.frameType.SkippableFrame? {
        SkippableHeaderArm(full);
        return Continue, inPos', outPos', toCommit, direct;
      }
      var hit, failed;
      hit, failed, inPos', outPos' := Shortcut(full, callStart, input, inPos, out, outPos);
      if hit {
        assert old(staging)[callStart..] + input[inPos..inPos'] ==
               (old(staging)[callStart..] + input[inPos..])[..|old(staging)| - callStart + (inPos' - inPos)];
        FullHeaderLatches(old(taken), input[inPos..inPos']);
        if failed {
          return Fail(DecodeFailed), inPos, outPos, toCommit, direct;
        }
        return Continue, inPos', outPos', toCommit, direct;
      }
      inPos', outPos' := inPos, outPos;
      var ok := OpenFrameArm(full);
      if !ok {
        RejectedExtends(codec, taken, input[inPos..], taken, input[inPos..]);
        return Fail(DecodeFailed), inPos', outPos', toCommit, direct;
      }
      return Continue, inPos', outPos', toCommit, direct;
    }

    /** Hand pending output to the caller; a round that cannot empty it blocks. */
    method FlushRound(out: array<byte>, outPos: nat) returns (outPos': nat, blocked: bool)
      requires Inv() && outPos <= out.Length
      modifies this`pending, this`delivered, this`given, out
      ensures outPos <= outPos' <= out.Length
      ensures Wrote(old(out[..]), out[..], outPos, outPos')
      ensures Inv() && given == old(given) + out[outPos..outPos']
      ensures Bounded() == old(Bounded())
      ensures blocked ==> Owed() != [] && outPos' == out.Length && !stage.FrameHeaderStage? && !stage.SkipContent?
      ensures !blocked ==> pending == [] && delivered == 0
      ensures stage.FrameHeaderStage? ==> outPos' == outPos
      ensures old(Owed()) == [] ==> !blocked && outPos' == outPos
    {
      hide ScanFrame, AtBlocks, AtTrailer, ParseFullHeader, ReadBlockHeader, LeValue, BodyInv;
      assert stage.FrameHeaderStage? || stage.SkipContent? ==> Owed() == [];
      hide StageInv;
      outPos', blocked := outPos, false;
      if delivered < |pending| {
        ghost var owed := Owed();
        outPos' := Deliver(out, outPos);
        DeliverWrote(old(out[..]), out[..], owed[..outPos' - outPos], outPos, outPos');
        Regroup(old(given), owed, outPos' - outPos);
        if delivered < |pending| {
          blocked := true;
          return;
        }
        pending := [];
        delivered := 0;
      }
    }

    /** In the middle of a call that started from progress `p`, with staging
        `first`, its cursor at `firstCursor`, and has read `x` and written `gave`. */
    ghost predicate Along(p: Progress, first: seq<byte>, firstCursor: nat, x: seq<byte>, gave: seq<byte>)
      reads this
    {
      && Inv()
      && given == p.given + gave && hostage == p.hostage
      && taken == p.taken + x
      && (p.hostage ==> x == [])
      && (stage.FrameHeaderStage? ==>
            && cursor == firstCursor <= |first| && staging == first + x && gave == []
            && p.taken == first[firstCursor..]
            && (ParseFullHeader(taken).Ok? || |taken| >= HEADER_PREFIX)
            && ParseFullHeader(p.taken).Ok? && ParseFullHeader(p.taken).value.Wanted?)
      && blockSizeMax <= MAX_BLOCK_CONTENT
      && (!stage.FrameHeaderStage? ==> HeaderComplete(taken) && Bounded())
      && ((stage.FrameEnded? && !hostage) || stage == SkipContent(0) ==> x != [])
    }

    lemma StartsAlong()
      requires Valid()
      ensures Along(Progressed(), staging, cursor, [], [])
      ensures !stage.FrameHeaderStage? ==> HeaderComplete(taken)
      ensures stage.FrameHeaderStage? ==> |staging| == cursor + |taken|
    {
      hide ScanFrame, AtBlocks, AtTrailer, ParseFullHeader, ReadBlockHeader, BodyInv, Bounded;
      assert taken + [] == taken && given + [] == given && staging + [] == staging;
    }

    /** A call that ends inside the frame header. */
    lemma HeaderStep(p: Progress, first: seq<byte>, firstCursor: nat, x: seq<byte>, gave: seq<byte>, hint: nat, room: nat)
      requires Along(p, first, firstCursor, x, gave) && Ready() && stage.FrameHeaderStage?
      requires ScanFrame(codec, taken) == Scan([], More(hint)) && hint > 0
      requires ParseFullHeader(taken).Ok? && ParseFullHeader(taken).value.Wanted? && !TakesShortcut(p, x, room)
      ensures Valid() && Answered(codec, p, x, room, Some(hint), |x|, gave, Progressed(), Progressed())
      ensures staging == first + x && cursor == firstCursor
      ensures SpentAs(p, x, room, firstCursor, hint) && AwaitsHeader(Progressed(), hint)
    {
      hide ScanFrame, AtBlocks, AtTrailer, ParseFullHeader, BodyInv, Step, TakesShortcut, Answered;
      assert given == [] && Owed() == [] && gave == [];
      StepHolds(codec, p, Call(x, room, |x|, gave, hint), Progressed(), x);
      AnsweredBy(codec, p, Call(x, room, |x|, gave, hint), Progressed(), Progressed(), false);
    }

    /** A finished frame leaves as much as its staging bound allows, or what the shortcut
        found in front of the bytes it decoded. */
    lemma LeavesSpent(p: Progress, offered: seq<byte>, room: nat, spent: nat, hint: nat, direct: bool)
      requires direct <==> TakesShortcut(p, offered, room)
      requires if direct then cursor == spent + |p.taken| else Bounded() && (stage.FrameHeaderStage? ==> hint == 0)
      ensures SpentAs(p, offered, room, spent, hint)
    {
      hide TakesShortcut;
    }

    /** A flush round in the middle of a call. */
    method RunFlush(ghost p: Progress, ghost first: seq<byte>, ghost firstCursor: nat, ghost x: seq<byte>,
                    out: array<byte>, ghost before: seq<byte>, ghost outStart: nat, outPos: nat, ghost direct: bool)
      returns (outPos': nat, blocked: bool)
      requires outStart <= outPos <= out.Length && Wrote(before, out[..], outStart, outPos)
      requires if direct then Bypassed() else Along(p, first, firstCursor, x, out[outStart..outPos])
      modifies this`pending, this`delivered, this`given, out
      ensures outPos <= outPos' <= out.Length && Wrote(before, out[..], outStart, outPos')
      ensures direct ==> Bypassed() && !blocked && out[outStart..outPos'] == old(out[outStart..outPos])
      ensures !direct ==>
                && Along(p, first, firstCursor, x, out[outStart..outPos'])
                && (blocked ==> Owed() != [] && outPos' == out.Length && !stage.FrameHeaderStage? && !stage.SkipContent?)
                && (!blocked ==> Owed() == [])
                && (!blocked && !stage.FrameEnded? ==> Ready())
                && (stage.FrameHeaderStage? ==> outPos' == outStart)
      ensures Bounded() == old(Bounded())
    {
      hide ScanFrame, AtBlocks, AtTrailer, ParseFullHeader, BodyInv, StageInv, Bounded, HeaderComplete;
      ghost var middle := out[..];
      outPos', blocked := FlushRound(out, outPos);
      WroteThen(before, middle, out[..], outStart, outPos, outPos');
      assert out[outStart..outPos'] == middle[outStart..outPos] + out[outPos..outPos'];
    }

    /** A non-header stage of a call, between two flush rounds. */
    method RunPiece(ghost p: Progress, ghost first: seq<byte>, ghost firstCursor: nat,
                    input: seq<byte>, ghost start: nat, inPos: nat, ghost gave: seq<byte>)
      returns (r: ArmResult, inPos': nat)
      requires start <= inPos <= |input|
      requires Along(p, first, firstCursor, input[start..inPos], gave)
      requires Ready() && !stage.FrameEnded? && !stage.FrameHeaderStage?
      modifies this
      ensures inPos <= inPos' <= |input| && !r.Return?
      ensures r.Fail? ==> Refuses(codec, p.taken + input[start..], r.code) && !CommitsRefusal(p, input[start..])
      ensures !r.Fail? ==> Along(p, first, firstCursor, input[start..inPos'], gave) && !hostage
                           && !stage.FrameHeaderStage?
      ensures r.Continue? ==> inPos < inPos' || StageRank(stage) < StageRank(old(stage))
      ensures r.Break? ==> Owed() == [] && inPos' == |input| && !stage.FrameEnded? && stage != SkipContent(0)
    {
      hide ScanFrame, AtBlocks, AtTrailer, ParseFullHeader, Refuses, BodyInv, StageInv, Bounded;
      assert p.taken + input[start..] == taken + input[inPos..];
      HeaderFits(taken);
      r, inPos' := PieceArm(input, inPos);
      if !r.Fail? {
        BoundedLimits();
      }
      JoinRead(p.taken, input, start, inPos, inPos');
      FullHeaderLatches(old(taken), input[inPos..inPos']);
    }

    /** The header stage of a call. */
    method RunHeader(ghost p: Progress, ghost first: seq<byte>, ghost firstCursor: nat, callStart: nat,
                     input: seq<byte>, ghost start: nat, inPos: nat, out: array<byte>, outPos: nat)
      returns (r: ArmResult, inPos': nat, outPos': nat, toCommit: bool, ghost direct: bool)
      requires start <= inPos <= |input| && outPos <= out.Length && callStart == |first|
      requires Along(p, first, firstCursor, input[start..inPos], [])
      requires Ready() && stage.FrameHeaderStage?
      modifies this, out
      ensures inPos <= inPos' <= |input| && !r.Break?
      ensures !r.Fail? ==> outPos <= outPos' && Wrote(old(out[..]), out[..], outPos, outPos')
      ensures toCommit <==> r.Fail? && CommitsRefusal(p, input[start..])
      ensures toCommit ==> inPos' == |input|
      ensures direct ==> TakesShortcut(p, input[start..], out.Length - outPos)
      ensures direct && r.Fail? ==>
                ShortcutAnswer(codec, p, input[start..], out.Length - outPos, None, 0, [], p, p)
      ensures direct && !r.Fail? ==>
                && ShortcutAnswer(codec, p, input[start..], out.Length - outPos, Some(0), inPos' - start,
                                  out[outPos..outPos'], Whole(p, input[start..inPos'], out[outPos..outPos']), FRESH)
                && r.Continue? && Bypassed() && staging == first && cursor == |first|
      ensures !direct && r.Fail? ==> Refuses(codec, p.taken + input[start..], r.code)
      ensures direct && r.Fail? ==> r.code == DecodeFailed
      ensures !direct && !r.Fail? ==>
                Along(p, first, firstCursor, input[start..inPos'], out[outPos..outPos']) && !hostage
      ensures !direct && TakesShortcut(p, input[start..], out.Length - outPos) ==> r.Continue? && stage.FrameHeaderStage?
      ensures r.Continue? ==> inPos < inPos' || StageRank(stage) < StageRank(old(stage))
      ensures r.Return? ==> Ready() && !direct && stage.FrameHeaderStage? && inPos' == |input|
                            && ParseFullHeader(taken).Ok? && ParseFullHeader(taken).value.Wanted?
                            && ScanFrame(codec, taken) == Scan([], More(r.outcome.hint))
                            && r.outcome.hint > 0 && r.outcome.guardExempt
    {
      hide ScanFrame, AtBlocks, AtTrailer, ParseFullHeader, ChainedSize, Refuses, BodyInv, Bounded, OneShot,
        TakesShortcut, ShortcutAnswer, DecodesWhole, Wrote, LeValue;
      assert p.taken + input[start..] == taken + input[inPos..];
      assert staging[callStart..] == input[start..inPos];
      ghost var staged, rest := taken, input[inPos..];
      r, inPos', outPos', toCommit, direct := HeaderArm(callStart, input, inPos, out, outPos);
      JoinRead(p.taken, input, start, inPos, inPos');
      JoinRead(first, input, start, inPos, inPos');
      WhenShortcut(p, input, start, inPos, staged, out.Length - outPos);
      assert input[start..|input|] == input[start..];
      if direct {
        ghost var size := ChainedSize(input[start..inPos], rest).value;
        DirectAnswer(codec, p, input, start, inPos, staged, size, out.Length - outPos, !r.Fail?,
                     if r.Fail? then [] else out[outPos..outPos']);
      }
    }

    /** The end of a call whose loop has stopped. */
    method Conclude(ghost p: Progress, ghost first: seq<byte>, ghost firstCursor: nat, input: seq<byte>,
                    ghost start: nat, inPos: nat, ghost gave: seq<byte>, ghost room: nat, ghost direct: bool)
      returns (outcome: CallOutcome, inPos': nat, ghost q: Progress)
      requires start <= inPos <= |input| && |gave| <= room
      requires direct <==> TakesShortcut(p, input[start..], room)
      requires direct ==>
                 && Bypassed() && cursor == firstCursor + |p.taken|
                 && ShortcutAnswer(codec, p, input[start..], room, Some(0), inPos - start, gave,
                                   Whole(p, input[start..inPos], gave), FRESH)
      requires !direct ==>
                 && Along(p, first, firstCursor, input[start..inPos], gave)
                 && !stage.FrameHeaderStage? && stage != SkipContent(0)
                 && (Owed() == [] || |gave| == room)
                 && (Owed() == [] ==> stage.FrameEnded? || inPos == |input|)
      modifies this
      ensures Valid() && start <= inPos' <= |input|
      ensures stage.FrameHeaderStage? ==> taken == [] && outcome.hint == 0
      ensures direct ==> stage.FrameHeaderStage? && staging == old(staging) && cursor == old(cursor)
      ensures Answered(codec, p, input[start..], room, Some(outcome.hint), inPos' - start, gave, q, Progressed())
      ensures SpentAs(p, input[start..], room, firstCursor, outcome.hint)
      ensures !outcome.guardExempt && !AwaitsHeader(q, outcome.hint)
    {
      hide ScanFrame, AtBlocks, AtTrailer, ParseFullHeader, ReadBlockHeader, BodyInv, StageInv, Bounded, Consistent, Hints,
        Step, TakesShortcut, ShortcutAnswer, Answered, SpentAs;
      outcome, inPos', q := Answer(input, inPos);
      if direct {
        q := Whole(p, input[start..inPos], gave);
      } else {
        assert input[start..][..inPos - start] == input[start..inPos];
        StepHolds(codec, p, Call(input[start..], room, inPos' - start, gave, outcome.hint), q, input[start..inPos]);
      }
      LeavesSpent(p, input[start..], room, firstCursor, outcome.hint, direct);
      AnsweredBy(codec, p, Call(input[start..], room, inPos' - start, gave, outcome.hint), q, Progressed(), direct);
    }

    /** Flush rounds and input pieces until either runs out, the frame ends, or the call is
        refused or waits for its header. */
    method RunRounds(ghost p: Progress, ghost first: seq<byte>, ghost firstCursor: nat, input: seq<byte>, inPos: nat,
                     out: array<byte>, outPos: nat)
      returns (r: ArmResult, inPos': nat, outPos': nat, toCommit: bool, ghost direct: bool)
      requires inPos <= |input| && outPos <= out.Length && |staging| == |first|
      requires Along(p, first, firstCursor, [], [])
      requires TakesShortcut(p, input[inPos..], out.Length - outPos) ==> stage.FrameHeaderStage?
      modifies this, out
      ensures inPos <= inPos' <= |input| && (!r.Fail? ==> outPos <= outPos' <= out.Length)
      ensures r.Fail? ==>
                && toCommit == CommitsRefusal(p, input[inPos..]) && (toCommit ==> inPos' == |input|)
                && direct == TakesShortcut(p, input[inPos..], out.Length - outPos)
                && if direct then ShortcutAnswer(codec, p, input[inPos..], out.Length - outPos, None, 0, [], p, p)
                                  && r.code == DecodeFailed
                   else Refuses(codec, p.taken + input[inPos..], r.code)
      ensures !r.Fail? ==> Wrote(old(out[..]), out[..], outPos, outPos')
      ensures r.Return? ==>
                && inPos' == |input| && Along(p, first, firstCursor, input[inPos..inPos'], out[outPos..outPos'])
                && Ready() && stage.FrameHeaderStage? && !TakesShortcut(p, input[inPos..], out.Length - outPos)
                && ScanFrame(codec, taken) == Scan([], More(r.outcome.hint))
                && r.outcome.hint > 0 && r.outcome.guardExempt
                && ParseFullHeader(taken).Ok? && ParseFullHeader(taken).value.Wanted?
      ensures !r.Fail? && !r.Return? ==>
                && (direct <==> TakesShortcut(p, input[inPos..], out.Length - outPos))
                && (direct ==>
                      && Bypassed() && staging == first && cursor == |first|
                      && ShortcutAnswer(codec, p, input[inPos..], out.Length - outPos, Some(0), inPos' - inPos,
                                        out[outPos..outPos'],
                                        Whole(p, input[inPos..inPos'], out[outPos..outPos']), FRESH))
                && (!direct ==>
                      && Along(p, first, firstCursor, input[inPos..inPos'], out[outPos..outPos'])
                      && !stage.FrameHeaderStage? && stage != SkipContent(0)
                      && (Owed() == [] || outPos' == out.Length)
                      && (Owed() == [] ==> stage.FrameEnded? || inPos' == |input|))
    {
      hide ScanFrame, AtBlocks, AtTrailer, ParseFullHeader, ReadBlockHeader, ChainedSize, Refuses, BodyInv, Bounded,
        TakesShortcut, ShortcutAnswer, StageInv, HeaderComplete, CommitsRefusal, Along, Ready, Inv, Valid, Owed,
        TheFrame, StageRank, CompactCut, Wrote;
      WroteNone(out[..], outPos);
      ghost var room := out.Length - outPos;
      var callStart := |staging|;
      outPos', inPos', toCommit, direct := outPos, inPos, false, false;
      r := Continue;
      var blocked := false;
      assert input[inPos..inPos] == [] && out[outPos..outPos] == [];
      while true
        invariant inPos <= inPos' <= |input| && outPos <= outPos' <= out.Length
        invariant Wrote(old(out[..]), out[..], outPos, outPos')
        invariant direct ==> staging == first && cursor == |first|
        invariant direct ==> Bypassed() && TakesShortcut(p, input[inPos..], room)
                             && ShortcutAnswer(codec, p, input[inPos..], room, Some(0), inPos' - inPos,
                                               out[outPos..outPos'],
                                               Whole(p, input[inPos..inPos'], out[outPos..outPos']), FRESH)
        invariant !direct && TakesShortcut(p, input[inPos..], room) ==> stage.FrameHeaderStage?
        invariant !direct ==> Along(p, first, firstCursor, input[inPos..inPos'], out[outPos..outPos'])
        invariant !toCommit && r.Continue?
        decreases |input| - inPos', StageRank(stage)
      {
        outPos', blocked :=
          RunFlush(p, first, firstCursor, input[inPos..inPos'], out, old(out[..]), outPos, outPos', direct);
        if blocked || stage.FrameEnded? {
          return;
        }
        if stage.FrameHeaderStage? {
          ghost var middle := out[..];
          assert out[outPos..outPos'] == [];
          r, inPos', outPos', toCommit, direct :=
            RunHeader(p, first, firstCursor, callStart, input, inPos, inPos', out, outPos');
          if !r.Fail? {
            WroteThen(old(out[..]), middle, out[..], outPos, outPos, outPos');
          }
        } else {
          r, inPos' := RunPiece(p, first, firstCursor, input, inPos, inPos', out[outPos..outPos']);
        }
        if !r.Continue? {
          return;
        }
      }
    }

    /** One call: flush rounds and input pieces until either runs out or the
        frame ends. `committed` is the input cursor an error leaves behind. */
    method Advance(out: array<byte>, outPos: nat, input: seq<byte>, inPos: nat)
      returns (res: Result<CallOutcome, ErrorCode>, outPos': nat, inPos': nat, committed: nat, ghost q: Progress)
      requires Valid() && inPos <= |input| && outPos <= out.Length
      modifies this, out
      ensures res.Err? ==>
                committed == (if CommitsRefusal(old(Progressed()), input[inPos..]) then |input| else inPos)
                && outPos' == outPos && inPos' == inPos
      ensures outPos <= outPos' <= out.Length && inPos <= inPos' <= |input|
      ensures Answered(codec, old(Progressed()), input[inPos..], out.Length - outPos,
                       if res.Ok? then Some(res.value.hint) else None, inPos' - inPos, out[outPos..outPos'],
                       q, Progressed())
      ensures res.Err? ==>
                RefusedAs(codec, old(Progressed()), input[inPos..], out.Length - outPos, res.error)
      ensures res.Ok? ==> Valid() && Wrote(old(out[..]), out[..], outPos, outPos')
      ensures res.Ok? ==> res.value.guardExempt == AwaitsHeader(q, res.value.hint)
      ensures res.Ok? ==>
                SpentAs(old(Progressed()), input[inPos..], out.Length - outPos, old(cursor), res.value.hint)
      ensures res.Ok? && TakesShortcut(old(Progressed()), input[inPos..], out.Length - outPos) ==>
                staging == old(staging) && cursor == |staging| && stage.FrameHeaderStage?
      ensures res.Ok? && stage.FrameHeaderStage? && taken != [] ==>
                staging == old(staging) + input[inPos..inPos'] && cursor == old(cursor)
    {
      hide ScanFrame, AtBlocks, AtTrailer, ParseFullHeader, ReadBlockHeader, Refuses, BodyInv, Bounded, TakesShortcut,
        ShortcutAnswer, Answered, RefusedAs, AwaitsHeader, StageInv, CommitsRefusal, Along, Ready, Inv, Valid, Owed,
        SpentAs, Wrote;
      q := Progressed();
      committed := inPos;
      ghost var p, first, firstCursor, room := q, staging, cursor, out.Length - outPos;
      StartsAlong();
      ShortcutStartsInHeader(p, input[inPos..], room);
      var r, toCommit;
      ghost var direct;
      r, inPos', outPos', toCommit, direct := RunRounds(p, first, firstCursor, input, inPos, out, outPos);
      if r.Fail? {
        committed := if toCommit then inPos' else inPos;
        assert out[outPos..outPos] == [];
        RefusedFor(codec, p, input[inPos..], room, r.code, direct, q, Progressed());
        return Err(r.code), outPos, inPos, committed, q;
      }
      if r.Return? {
        q := Progressed();
        assert input[inPos..|input|] == input[inPos..];
        HeaderStep(p, first, firstCursor, input[inPos..], out[outPos..outPos'], r.outcome.hint, room);
        return Ok(r.outcome), outPos', inPos', committed, q;
      }
      var outcome;
      outcome, inPos', q :=
        Conclude(p, first, firstCursor, input, inPos, inPos', out[outPos..outPos'], room, direct);
      return Ok(outcome), outPos', inPos', committed, q;
    }
  }
}
