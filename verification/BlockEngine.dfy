/** What the decoder behind the stage machine makes of one block: the limits both of
    its paths check, and how much history each of them keeps. Entropy decoding is
    abstract: its answers are unspecified functions of everything fed so far. */
module BlockEngine {
  import opened Arith
  import opened Bytes
  import opened FrameHeader
  import opened FrameWalk

  /** The unmodelled part. `dictionary` is the length of the dictionary a frame is
      decoded with, if any. Of a compressed block, `decodes` says whether it is well formed
      and within the block limit, `reach` how far in front of itself its matches look,
      `distance` how long they are at most, and `expand` what it regenerates; `smear` is
      the byte it gives at a position when its history has been written over. `trailerOk`
      judges a content and its checksum. */
  datatype Codec = Codec(
    opens: seq<byte> -> bool,
    dictionary: seq<byte> -> Option<nat>,
    decodes: (seq<byte>, seq<seq<byte>>, seq<byte>) -> bool,
    reach: (seq<byte>, seq<seq<byte>>, seq<byte>) -> nat,
    distance: (seq<byte>, seq<seq<byte>>, seq<byte>) -> nat,
    expand: (seq<byte>, seq<seq<byte>>, seq<byte>) -> seq<byte>,
    smear: (seq<byte>, seq<seq<byte>>, seq<byte>, nat) -> byte,
    trailerOk: (seq<byte>, seq<byte>) -> bool)

  /** An open frame: its header bytes and the two facts later pieces need. */
  datatype Frame = Frame(header: seq<byte>, blockSizeMax: nat, checksum: bool)

  /** The content size a frame header declares. */
  function Declared(header: seq<byte>): Option<nat> {
    match ParseFullHeader(header)
    case Ok(Complete(h)) => if h.frameType.ZstdFrame? then h.contentSize else None
    case _ => None
  }

  function Window(header: seq<byte>): nat {
    match ParseFullHeader(header)
    case Ok(Complete(h)) => h.windowSize
    case _ => 0
  }

  /** The whole output of one block with all of its history, as its wire type defines
      it. */
  function WholeRegenerate(c: Codec, f: Frame, fed: seq<seq<byte>>, block: seq<byte>): seq<byte>
    requires |block| >= 3 && |block| == 3 + HeaderAt(block).BodySize()
  {
    match HeaderAt(block).wire
    case Raw => block[3..]
    case Rle => Repeat(block[3], HeaderAt(block).size)
    case _ => c.expand(f.header, fed, block)
  }

  /** Empty blocks give nothing. */
  function WholeOut(c: Codec, f: Frame, fed: seq<seq<byte>>, block: seq<byte>): seq<byte>
    requires |block| >= 3 && |block| == 3 + HeaderAt(block).BodySize()
  {
    if |block| == 3 then [] else WholeRegenerate(c, f, fed, block)
  }

  /** Empty blocks leave no trace. */
  function Feed(fed: seq<seq<byte>>, block: seq<byte>): seq<seq<byte>> {
    if |block| == 3 then fed else fed + [block]
  }

  predicate WholeBlock(block: seq<byte>) {
    |block| > 3 && |block| == 3 + HeaderAt(block).BodySize()
  }

  function Length(c: Codec, f: Frame, fed: seq<seq<byte>>, block: seq<byte>): nat {
    if WholeBlock(block) then |WholeRegenerate(c, f, fed, block)| else 0
  }

  /** How many bytes a history of blocks has regenerated. */
  function Produced(c: Codec, f: Frame, fed: seq<seq<byte>>): nat
    decreases |fed|
  {
    if fed == [] then 0
    else
      var front := fed[..|fed| - 1];
      Produced(c, f, front) + Length(c, f, front, fed[|fed| - 1])
  }

  // ------------------------------------------------------------------
  // The history the block-by-block path keeps
  // ------------------------------------------------------------------

  const MIN_WINDOW: nat := 1024

  /** The output buffer: the length of the generation being written, that of the one
      before it, where in the buffer that one starts, and whether there is one. */
  datatype Ring = Ring(former: nat, current: nat, base: nat, wrapped: bool)

  /** What the buffer is sized for. */
  function BufferNeed(f: Frame): nat {
    Max(Window(f.header), MIN_WINDOW) + 2 * f.blockSizeMax + 64
  }

  /** A buffer that covers the declared content never wraps. */
  predicate Wraps(f: Frame) {
    Declared(f.header).None? || Declared(f.header).value > BufferNeed(f)
  }

  function DictionaryLen(c: Codec, f: Frame): nat {
    var d := c.dictionary(f.header);
    if d.Some? then d.value else 0
  }

  /** A generation that cannot take one more block makes room for the next one, which is
      written over it from the buffer's start; the first one sat behind the dictionary. */
  function MakeRoom(c: Codec, f: Frame, r: Ring): Ring {
    if Wraps(f) && r.current + f.blockSizeMax > BufferNeed(f) then
      Ring(r.current, 0, if r.wrapped then 0 else DictionaryLen(c, f), true)
    else r
  }

  function Filled(c: Codec, f: Frame, fed: seq<seq<byte>>): Ring
    decreases |fed|
  {
    if fed == [] then Ring(0, 0, 0, false)
    else
      var front := fed[..|fed| - 1];
      var r := MakeRoom(c, f, Filled(c, f, front));
      r.(current := r.current + Length(c, f, front, fed[|fed| - 1]))
  }

  /** How far back a block decoded next may match: two generations, the first with the
      dictionary in front of it. */
  function Kept(c: Codec, f: Frame, fed: seq<seq<byte>>): nat {
    var r := MakeRoom(c, f, Filled(c, f, fed));
    r.former + r.current + if r.wrapped then 0 else DictionaryLen(c, f)
  }

  /** A block whose matches read nothing that the generation being written has already
      replaced. Those of a longer distance are not refused while they reach no further than
      what is kept: they read what is there now. */
  predicate Intact(c: Codec, f: Frame, fed: seq<seq<byte>>, block: seq<byte>) {
    var r := MakeRoom(c, f, Filled(c, f, fed));
    r.wrapped ==> c.distance(f.header, fed, block) <= r.base + r.former
  }

  /** No block so far has read such bytes. */
  predicate Undisturbed(c: Codec, f: Frame, fed: seq<seq<byte>>)
    decreases |fed|
  {
    fed == [] ||
    var front, block := fed[..|fed| - 1], fed[|fed| - 1];
    Undisturbed(c, f, front) && (|block| > 3 && HeaderAt(block).wire.Compressed? ==> Intact(c, f, front, block))
  }

  /** The whole output of one block on the block-by-block path. */
  function Regenerate(c: Codec, f: Frame, fed: seq<seq<byte>>, block: seq<byte>): (out: seq<byte>)
    requires |block| >= 3 && |block| == 3 + HeaderAt(block).BodySize()
    ensures |out| == |WholeRegenerate(c, f, fed, block)|
  {
    var whole := WholeRegenerate(c, f, fed, block);
    if !HeaderAt(block).wire.Compressed? || (Undisturbed(c, f, fed) && Intact(c, f, fed, block)) then whole
    else seq(|whole|, i requires 0 <= i < |whole| => c.smear(f.header, fed, block, i))
  }

  function BlockOut(c: Codec, f: Frame, fed: seq<seq<byte>>, block: seq<byte>): (out: seq<byte>)
    requires |block| >= 3 && |block| == 3 + HeaderAt(block).BodySize()
    ensures |out| == |WholeOut(c, f, fed, block)|
  {
    if |block| == 3 then [] else Regenerate(c, f, fed, block)
  }

  /** Decoding into one buffer keeps everything. */
  function History(c: Codec, f: Frame, fed: seq<seq<byte>>): nat {
    Produced(c, f, fed) + DictionaryLen(c, f)
  }

  lemma {:induction false} FilledAccounts(c: Codec, f: Frame, fed: seq<seq<byte>>)
    ensures var r, n := Filled(c, f, fed), Produced(c, f, fed);
            && r.former + r.current <= n
            && (!r.wrapped ==> r.former == 0 && r.current == n && r.base == 0)
            && (r.wrapped ==> Wraps(f) && r.former + f.blockSizeMax > BufferNeed(f))
    decreases |fed|
  {
    hide BufferNeed, Wraps, Length;
    if fed != [] {
      FilledAccounts(c, f, fed[..|fed| - 1]);
    }
  }

  /** Never more than there was; all of it while the buffer cannot wrap; and always the
      frame's window, so that no match within the window is lost or reads what was written
      over. */
  lemma KeptCoversWindow(c: Codec, f: Frame, fed: seq<seq<byte>>)
    ensures Kept(c, f, fed) <= History(c, f, fed)
    ensures !Wraps(f) ==> Kept(c, f, fed) == History(c, f, fed)
    ensures Kept(c, f, fed) >= Min(Window(f.header), Produced(c, f, fed))
    ensures forall block :: !Wraps(f) || c.distance(f.header, fed, block) <= Window(f.header) ==> Intact(c, f, fed, block)
  {
    FilledAccounts(c, f, fed);
    hide Produced, Filled, Wraps, Window;
  }

  /** Every block gives as much as a block may. */
  ghost predicate AllFull(c: Codec, f: Frame, fed: seq<seq<byte>>) {
    forall i :: 0 <= i < |fed| ==> Length(c, f, fed[..i], fed[i]) == f.blockSizeMax
  }

  /** Under full blocks a buffer that wraps is for the window, or 1 KiB, two more blocks and
      64 bytes; a generation is the `m` blocks that fit. The frame keeps all of its history up
      to there, and from then on the generation before and what is written of the new one; a
      match is safe while it stays within the generation before, behind which the dictionary
      still lies the first time. */
  lemma FullHistory(c: Codec, f: Frame, fed: seq<seq<byte>>, block: seq<byte>)
    requires f.blockSizeMax > 0 && AllFull(c, f, fed)
    requires ParseFullHeader(f.header).Ok? && ParseFullHeader(f.header).value.Complete?
    requires ParseFullHeader(f.header).value.header.frameType.ZstdFrame?
    ensures var h, dictionary := ParseFullHeader(f.header).value.header, c.dictionary(f.header);
            var n, l, d := |fed|, f.blockSizeMax, if dictionary.Some? then dictionary.value else 0;
            var need := Max(h.windowSize, 1024) + 2 * l + 64;
            var m := need / l;
            var kept := h.contentSize.Some? && h.contentSize.value <= need;
            && m >= 2
            && Kept(c, f, fed) == (if kept || n < m then l * n + d else l * m + l * (n % m))
            && (Intact(c, f, fed, block) <==>
                kept || n < m || c.distance(f.header, fed, block) <= l * m + if n < 2 * m then d else 0)
  {
    hide ParseFullHeader;
    var l := f.blockSizeMax;
    FitsTwice(l, BufferNeed(f));
    var m := BufferNeed(f) / l;
    if Wraps(f) {
      FullRing(c, f, fed, m);
      if |fed| < m {
        ModUnique(|fed|, m, 0, |fed|);
      }
    } else {
      FilledAccounts(c, f, fed);
      FullProduced(c, f, fed);
    }
  }

  lemma FitsTwice(l: nat, need: nat)
    requires 0 < l && need >= 2 * l
    ensures need / l >= 2
  {
    Euclid(need, l);
    if need / l < 2 {
      MulMono(l, need / l, 1);
    }
  }

  lemma {:induction false} FullProduced(c: Codec, f: Frame, fed: seq<seq<byte>>)
    requires AllFull(c, f, fed)
    ensures Produced(c, f, fed) == f.blockSizeMax * |fed|
  {
    hide Length;
    if fed != [] {
      FrontFull(c, f, fed);
      FullProduced(c, f, fed[..|fed| - 1]);
      MulNext(f.blockSizeMax, |fed| - 1);
    }
  }

  lemma FrontFull(c: Codec, f: Frame, fed: seq<seq<byte>>)
    requires fed != [] && AllFull(c, f, fed)
    ensures AllFull(c, f, fed[..|fed| - 1])
    ensures Length(c, f, fed[..|fed| - 1], fed[|fed| - 1]) == f.blockSizeMax
  {
    hide Length;
    var front := fed[..|fed| - 1];
    forall i | 0 <= i < |front| ensures Length(c, f, front[..i], front[i]) == f.blockSizeMax {
      assert front[..i] == fed[..i];
    }
  }

  /** The buffer after `n` blocks of `l` bytes, `m` of them a generation. */
  function Generations(l: nat, m: nat, n: nat, dictionary: nat): Ring
    requires m > 0
  {
    if n < m then Ring(0, l * (n % m), 0, false)
    else Ring(l * m, l * (n % m), if n < 2 * m then dictionary else 0, true)
  }

  lemma {:induction false} FullRing(c: Codec, f: Frame, fed: seq<seq<byte>>, m: nat)
    requires f.blockSizeMax > 0 && AllFull(c, f, fed) && Wraps(f) && m == BufferNeed(f) / f.blockSizeMax && m >= 2
    ensures MakeRoom(c, f, Filled(c, f, fed)) == Generations(f.blockSizeMax, m, |fed|, DictionaryLen(c, f))
  {
    hide Length, BufferNeed, Wraps, DictionaryLen;
    var n, l := |fed|, f.blockSizeMax;
    if n == 0 {
      ModUnique(0, m, 0, 0);
      GenerationRoom(l, BufferNeed(f), 0);
      MulMono(l, 1, m);
    } else {
      FrontFull(c, f, fed);
      FullRing(c, f, fed[..n - 1], m);
      NextOfGeneration(n, m);
      MulNext(l, (n - 1) % m);
      GenerationRoom(l, BufferNeed(f), (n - 1) % m + 1);
    }
  }

  /** One more block fits behind `k` of them while `k` is short of the quotient. */
  lemma GenerationRoom(l: nat, need: nat, k: nat)
    requires l > 0
    ensures l * k + l > need <==> k >= need / l
  {
    Euclid(need, l);
    MulNext(l, k);
    MulNext(l, need / l);
    if k >= need / l {
      MulMono(l, need / l, k);
    } else {
      MulMono(l, k + 1, need / l);
    }
  }

  lemma NextOfGeneration(n: nat, m: nat)
    requires n > 0 && m > 0
    ensures var t := (n - 1) % m;
            if t + 1 < m then n % m == t + 1 && (n >= m <==> n - 1 >= m) && (n >= 2 * m <==> n - 1 >= 2 * m)
            else n % m == 0 && n >= m && (n >= 2 * m <==> n - 1 >= m)
  {
    var q, t := (n - 1) / m, (n - 1) % m;
    Euclid(n - 1, m);
    MulNext(m, q);
    if t + 1 < m {
      ModUnique(n, m, q, t + 1);
      QuotientSteps(m, q, t);
      QuotientSteps(m, q, t + 1);
    } else {
      ModUnique(n, m, q + 1, 0);
      QuotientSteps(m, q, t);
      QuotientSteps(m, q + 1, 0);
    }
  }

  lemma QuotientSteps(m: nat, q: nat, t: nat)
    requires t < m
    ensures m * q + t >= m <==> q >= 1
    ensures m * q + t >= 2 * m <==> q >= 2
  {
    if q >= 2 {
      MulMono(m, 2, q);
    } else {
      MulMono(m, q, 1);
    }
  }

  // ------------------------------------------------------------------
  // The content and its checksum
  // ------------------------------------------------------------------

  /** What a history of blocks has given on the block-by-block path. */
  function StreamedContent(c: Codec, f: Frame, fed: seq<seq<byte>>): seq<byte>
    decreases |fed|
  {
    if fed == [] then []
    else
      var front, block := fed[..|fed| - 1], fed[|fed| - 1];
      StreamedContent(c, f, front) + if WholeBlock(block) then Regenerate(c, f, front, block) else []
  }

  /** What it gives in one go. */
  function WholeContent(c: Codec, f: Frame, fed: seq<seq<byte>>): seq<byte>
    decreases |fed|
  {
    if fed == [] then []
    else
      var front, block := fed[..|fed| - 1], fed[|fed| - 1];
      WholeContent(c, f, front) + if WholeBlock(block) then WholeRegenerate(c, f, front, block) else []
  }

  /** The compressed block at `i` gives something, and one of those up to it reads bytes that
      have been written over. */
  ghost predicate Disturbed(c: Codec, f: Frame, fed: seq<seq<byte>>, i: nat)
    requires i < |fed|
  {
    && WholeBlock(fed[i]) && HeaderAt(fed[i]).wire.Compressed? && c.expand(f.header, fed[..i], fed[i]) != []
    && exists j :: 0 <= j <= i && |fed[j]| > 3 && HeaderAt(fed[j]).wire.Compressed? && !Intact(c, f, fed[..j], fed[j])
  }

  ghost predicate NeverRight(c: Codec, header: seq<byte>) {
    forall past, block, k: nat :: k < |c.expand(header, past, block)| ==>
      c.smear(header, past, block, k) != c.expand(header, past, block)[k]
  }

  /** Where bytes written over never happen to be right, both contents are the same exactly
      when no compressed block that gives something follows, or is, one that reads such
      bytes. */
  lemma {:induction false} SameContentIff(c: Codec, f: Frame, fed: seq<seq<byte>>)
    requires NeverRight(c, f.header)
    ensures |StreamedContent(c, f, fed)| == |WholeContent(c, f, fed)|
    ensures StreamedContent(c, f, fed) == WholeContent(c, f, fed)
            <==> forall i :: 0 <= i < |fed| ==> !Disturbed(c, f, fed, i)
    decreases |fed|
  {
    hide Intact, ReadBlockHeader, Regenerate, WholeRegenerate, NeverRight;
    if fed != [] {
      var n := |fed| - 1;
      var front, block := fed[..n], fed[n];
      SameContentIff(c, f, front);
      DisturbedAt(c, f, fed);
      assert fed[..n] == front;
      var a := if WholeBlock(block) then Regenerate(c, f, front, block) else [];
      var b := if WholeBlock(block) then WholeRegenerate(c, f, front, block) else [];
      if WholeBlock(block) {
        LastDisturbed(c, f, fed);
      }
      assert a == b <==> !Disturbed(c, f, fed, n);
      JoinEqual(StreamedContent(c, f, front), a, WholeContent(c, f, front), b);
      assert forall i :: 0 <= i < |fed| ==> i == n || (i < |front| && Disturbed(c, f, front, i) == Disturbed(c, f, fed, i));
    }
  }

  lemma JoinEqual(a: seq<byte>, x: seq<byte>, b: seq<byte>, y: seq<byte>)
    requires |a| == |b| && |x| == |y|
    ensures a + x == b + y <==> a == b && x == y
  {
    assert (a + x)[..|a|] == a && (b + y)[..|b|] == b && (a + x)[|a|..] == x && (b + y)[|b|..] == y;
  }

  lemma DisturbedAt(c: Codec, f: Frame, fed: seq<seq<byte>>)
    requires fed != []
    ensures forall i :: 0 <= i < |fed| - 1 ==> Disturbed(c, f, fed[..|fed| - 1], i) == Disturbed(c, f, fed, i)
  {
    hide Intact, ReadBlockHeader, WholeBlock;
    var front := fed[..|fed| - 1];
    assert forall i {:trigger fed[..i]} :: 0 <= i <= |front| ==> front[..i] == fed[..i];
  }

  lemma {:induction false} UndisturbedIff(c: Codec, f: Frame, fed: seq<seq<byte>>)
    ensures Undisturbed(c, f, fed)
            <==> forall j :: 0 <= j < |fed| && |fed[j]| > 3 && HeaderAt(fed[j]).wire.Compressed? ==> Intact(c, f, fed[..j], fed[j])
    decreases |fed|
  {
    hide Intact, ReadBlockHeader;
    if fed != [] {
      var front := fed[..|fed| - 1];
      UndisturbedIff(c, f, front);
      assert forall j {:trigger fed[..j]} :: 0 <= j <= |front| ==> front[..j] == fed[..j];
    }
  }

  lemma LastDisturbed(c: Codec, f: Frame, fed: seq<seq<byte>>)
    requires fed != [] && WholeBlock(fed[|fed| - 1])
    requires NeverRight(c, f.header)
    ensures var n := |fed| - 1;
            Regenerate(c, f, fed[..n], fed[n]) == WholeRegenerate(c, f, fed[..n], fed[n]) <==> !Disturbed(c, f, fed, n)
  {
    hide Intact, ReadBlockHeader, NeverRight;
    UndisturbedIff(c, f, fed);
    var n := |fed| - 1;
    var front, block := fed[..n], fed[n];
    if HeaderAt(block).wire.Compressed? && c.expand(f.header, front, block) != [] {
      SmearShows(c, f.header, front, block);
      assert Undisturbed(c, f, fed) <==> Undisturbed(c, f, front) && Intact(c, f, front, block);
      if !Undisturbed(c, f, fed) {
        assert Regenerate(c, f, front, block)[0] == c.smear(f.header, front, block, 0);
      }
    }
  }

  lemma SmearShows(c: Codec, header: seq<byte>, past: seq<seq<byte>>, block: seq<byte>)
    requires NeverRight(c, header) && c.expand(header, past, block) != []
    ensures c.smear(header, past, block, 0) != c.expand(header, past, block)[0]
  {
  }

  lemma ContentBlock(c: Codec, f: Frame, fed: seq<seq<byte>>, block: seq<byte>)
    requires |block| >= 3 && |block| == 3 + HeaderAt(block).BodySize()
    ensures StreamedContent(c, f, Feed(fed, block)) == StreamedContent(c, f, fed) + BlockOut(c, f, fed, block)
    ensures WholeContent(c, f, Feed(fed, block)) == WholeContent(c, f, fed) + WholeOut(c, f, fed, block)
  {
    hide ReadBlockHeader, Regenerate, WholeRegenerate;
    if |block| > 3 {
      assert (fed + [block])[..|fed|] == fed;
    } else {
      assert StreamedContent(c, f, fed) + [] == StreamedContent(c, f, fed) && WholeContent(c, f, fed) + [] == WholeContent(c, f, fed);
    }
  }

  /** The engine has been shown the last block, so it waits for the checksum. */
  predicate Closed(fed: seq<seq<byte>>) {
    fed != [] && |fed[|fed| - 1]| >= 3 && HeaderAt(fed[|fed| - 1]).last
  }

  lemma ClosedBlock(fed: seq<seq<byte>>, block: seq<byte>)
    requires |block| > 3
    ensures Closed(Feed(fed, block)) <==> HeaderAt(block).last
  {
    assert (fed + [block])[|fed|] == block;
    hide ReadBlockHeader;
  }

  /** An engine that has not takes the checksum for the next block: it passes one whose body
      would be longer than the one byte behind its header, and decodes the others. */
  predicate StrayTaken(c: Codec, f: Frame, fed: seq<seq<byte>>, trailer: seq<byte>)
    requires |trailer| == 4
  {
    var h := HeaderAt(trailer);
    && !h.wire.Reserved? && h.size <= MAX_BLOCK_CONTENT
    && (h.BodySize() <= 1 ==>
          && !h.wire.Compressed? && h.size <= f.blockSizeMax
          && (h.last && Declared(f.header).Some? ==> Produced(c, f, fed) + h.size == Declared(f.header).value))
  }

  /** The same from the trailer and the frame header alone, when the blocks have given the
      declared size. */
  predicate PassesAsBlock(f: Frame, trailer: seq<byte>)
    requires |trailer| == 4
  {
    var h := HeaderAt(trailer);
    && !h.wire.Reserved? && h.size <= MAX_BLOCK_CONTENT
    && (h.BodySize() <= 1 ==>
          && !h.wire.Compressed? && h.size <= f.blockSizeMax
          && (h.last && Declared(f.header).Some? ==> h.size == 0))
  }

  /** The verdict on the trailer of the block-by-block path. */
  predicate TrailerTaken(c: Codec, f: Frame, fed: seq<seq<byte>>, trailer: seq<byte>)
    requires |trailer| == 4
  {
    if Closed(fed) then c.trailerOk(StreamedContent(c, f, fed), trailer) else StrayTaken(c, f, fed, trailer)
  }

  /** And of the one-shot path. */
  predicate WholeTrailerTaken(c: Codec, f: Frame, fed: seq<seq<byte>>, trailer: seq<byte>) {
    c.trailerOk(WholeContent(c, f, fed), trailer)
  }

  // ------------------------------------------------------------------
  // What each path accepts
  // ------------------------------------------------------------------

  /** A last block that leaves the content at another size than declared. */
  predicate Missized(c: Codec, f: Frame, fed: seq<seq<byte>>, block: seq<byte>) {
    && WholeBlock(block) && HeaderAt(block).last
    && Declared(f.header).Some? && Produced(c, f, fed + [block]) != Declared(f.header).value
  }

  /** The block-by-block path's body check: runs within the block limit, matches within
      what is kept, and at the last block the declared size. */
  predicate EngineTakes(c: Codec, f: Frame, fed: seq<seq<byte>>, block: seq<byte>)
    requires |block| >= 3
  {
    var h := HeaderAt(block);
    && (if h.wire.Compressed? then c.decodes(f.header, fed, block) && c.reach(f.header, fed, block) <= Kept(c, f, fed)
        else h.size <= f.blockSizeMax)
    && !Missized(c, f, fed, block)
  }

  /** Empty blocks never reach that check. */
  predicate BlockOk(c: Codec, f: Frame, fed: seq<seq<byte>>, block: seq<byte>)
    requires |block| >= 3
  {
    |block| == 3 || EngineTakes(c, f, fed, block)
  }

  predicate BlockHeaderOk(f: Frame, h: BlockHeader) {
    !h.wire.Reserved? && h.BodySize() <= f.blockSizeMax
  }

  /** The one-shot path's check, which every block passes through. Without a dictionary
      raw blocks and runs only have to respect the format's own limit. */
  predicate WholeOk(c: Codec, f: Frame, fed: seq<seq<byte>>, block: seq<byte>)
    requires |block| >= 3
  {
    var h := HeaderAt(block);
    match h.wire
    case Compressed =>
      && 0 < h.size <= f.blockSizeMax
      && c.decodes(f.header, fed, block) && c.reach(f.header, fed, block) <= History(c, f, fed)
    case Reserved => false
    case _ => h.size <= if c.dictionary(f.header).Some? then f.blockSizeMax else MAX_BLOCK_CONTENT
  }

  /** A block within the limits the block-by-block path adds. */
  predicate Capped(f: Frame, h: BlockHeader) {
    h.BodySize() <= f.blockSizeMax && (!h.wire.Compressed? ==> h.size <= f.blockSizeMax)
  }

  /** A compressed block without a body. */
  predicate Hollow(h: BlockHeader) {
    h.wire.Compressed? && h.size == 0
  }

  predicate KeepsUpWith(c: Codec, f: Frame, fed: seq<seq<byte>>, block: seq<byte>)
    requires |block| >= 3
  {
    HeaderAt(block).wire.Compressed? && |block| > 3 ==> c.reach(f.header, fed, block) <= Kept(c, f, fed)
  }

  /** A block the block-by-block path takes is within its limits, and the one-shot path
      takes it too unless it is a compressed block without a body. */
  lemma TakenBoth(c: Codec, f: Frame, fed: seq<seq<byte>>, block: seq<byte>)
    requires |block| >= 3 && |block| == 3 + HeaderAt(block).BodySize() && f.blockSizeMax <= MAX_BLOCK_CONTENT
    requires BlockHeaderOk(f, HeaderAt(block)) && BlockOk(c, f, fed, block)
    ensures Capped(f, HeaderAt(block)) && KeepsUpWith(c, f, fed, block)
    ensures WholeOk(c, f, fed, block) <==> !Hollow(HeaderAt(block))
  {
    KeptCoversWindow(c, f, fed);
    hide ReadBlockHeader, Kept, History, Missized;
  }

  /** A block the one-shot path takes has a body if it is compressed, and the other path
      takes it too if it is within its limits and, when last, meets the declared size. */
  lemma WholeBoth(c: Codec, f: Frame, fed: seq<seq<byte>>, block: seq<byte>)
    requires |block| >= 3 && |block| == 3 + HeaderAt(block).BodySize() && WholeOk(c, f, fed, block)
    ensures !Hollow(HeaderAt(block))
    ensures Capped(f, HeaderAt(block)) && KeepsUpWith(c, f, fed, block) && !Missized(c, f, fed, block) ==>
              BlockHeaderOk(f, HeaderAt(block)) && BlockOk(c, f, fed, block)
  {
    hide ReadBlockHeader, Kept, History, Missized;
  }

  /** Bytes regenerated, one block at a time. */
  lemma ProducedBlock(c: Codec, f: Frame, fed: seq<seq<byte>>, block: seq<byte>)
    requires |block| >= 3 && |block| == 3 + HeaderAt(block).BodySize()
    ensures Produced(c, f, Feed(fed, block)) == Produced(c, f, fed) + |BlockOut(c, f, fed, block)|
  {
    hide ReadBlockHeader;
    if |block| > 3 {
      assert (fed + [block])[..|fed|] == fed;
    }
  }
}
