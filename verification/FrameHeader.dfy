/** The frame header of RFC 8878 section 3.1.1.1 as the metadata entry points
    read it: the one-shot parse, the incremental parse that answers how many
    bytes it still wants, and the descriptor-only size formula. */
module FrameHeader {
  import opened Bytes

  const MAGIC: nat := 0xfd2f_b528
  const MAGIC_BYTES: seq<byte> := [0x28, 0xb5, 0x2f, 0xfd]
  const SKIPPABLE_MIN: nat := 0x184d_2a50
  const SKIPPABLE_MAX: nat := 0x184d_2a5f
  const SKIPPABLE_MIN_BYTES: seq<byte> := [0x50, 0x2a, 0x4d, 0x18]
  const MAX_BLOCK_CONTENT: nat := 128 * 1024
  const HEADER_PREFIX: nat := 5
  const SKIPPABLE_HEADER: nat := 8
  const WINDOWLOG_MAX: nat := 31
  const WINDOWLOG_BASE: nat := 10

  datatype ParseError = NeedMore | BadMagic | Malformed | ReservedBit | WindowTooLarge

  datatype ErrorCode =
    | SrcSizeWrong
    | PrefixUnknown
    | CorruptionDetected
    | FrameParameterUnsupported
    | FrameParameterWindowTooLarge
    | DstSizeTooSmall
    | ParameterOutOfBound
    | DecodeFailed
    | NoForwardProgressDestFull
    | NoForwardProgressInputEmpty

  datatype HeaderInfo = HeaderInfo(headerLen: nat, contentSize: Option<nat>, checksum: bool)

  datatype Header = Zstd(info: HeaderInfo) | Skippable(total: nat)

  datatype FrameType = ZstdFrame | SkippableFrame

  datatype FullHeader = FullHeader(
    frameType: FrameType,
    contentSize: Option<nat>,
    windowSize: nat,
    blockSizeMax: nat,
    headerSize: nat,
    dictId: nat,
    checksum: bool)

  datatype HeaderParse = Complete(header: FullHeader) | Wanted(want: nat)

  predicate SkippableMagic(magic: nat) {
    SKIPPABLE_MIN <= magic <= SKIPPABLE_MAX
  }

  /** Bytes of the Dictionary_ID field, from the two low descriptor bits. */
  function DictLen(descriptor: byte): nat {
    match descriptor % 4
    case 0 => 0
    case 1 => 1
    case 2 => 2
    case _ => 4
  }

  predicate SingleSegment(descriptor: byte) {
    descriptor / 32 % 2 == 1
  }

  function FcsLen(descriptor: byte): nat {
    match descriptor / 64
    case 0 => if SingleSegment(descriptor) then 1 else 0
    case 1 => 2
    case 2 => 4
    case _ => 8
  }

  function WindowLen(descriptor: byte): nat {
    if SingleSegment(descriptor) then 0 else 1
  }

  /** The header at the start of `src`, whose magic is already known: the whole
      serialized header must be present before its constraints are judged. */
  function ParseZstdHeader(src: seq<byte>): (r: Result<HeaderInfo, ParseError>)
    ensures r.Ok? ==> 6 <= r.value.headerLen <= |src|
  {
    if |src| < HEADER_PREFIX then Err(NeedMore)
    else
      var descriptor := src[4];
      var fcsLen := FcsLen(descriptor);
      var headerLen := HEADER_PREFIX + WindowLen(descriptor) + DictLen(descriptor) + fcsLen;
      if |src| < headerLen then Err(NeedMore)
      else if descriptor / 8 % 2 == 1 then Err(ReservedBit)
      else if !SingleSegment(descriptor) && WINDOWLOG_BASE + src[5] / 8 > WINDOWLOG_MAX then
        Err(WindowTooLarge)
      else
        var pos := HEADER_PREFIX + WindowLen(descriptor) + DictLen(descriptor);
        var value := LeValue(src[pos..pos + fcsLen]);
        var contentSize := if fcsLen == 0 then None else if fcsLen == 2 then Some(value + 256) else Some(value);
        Ok(HeaderInfo(headerLen, contentSize, descriptor / 4 % 2 == 1))
  }

  function ParseHeader(src: seq<byte>): (r: Result<Header, ParseError>)
    ensures r.Ok? && r.value.Zstd? ==> 6 <= r.value.info.headerLen <= |src|
    ensures r.Ok? && r.value.Skippable? ==> 8 <= r.value.total && 8 <= |src|
  {
    if |src| < 4 then Err(NeedMore)
    else
      var magic := LeValue(src[..4]);
      if SkippableMagic(magic) then
        if |src| < 8 then Err(NeedMore)
        else Ok(Skippable(8 + LeValue(src[4..8])))
      else if magic != MAGIC then Err(BadMagic)
      else match ParseZstdHeader(src)
           case Ok(info) => Ok(Zstd(info))
           case Err(e) => Err(e)
  }

  /** A window descriptor byte: a power of two plus eighths of it. */
  function WindowFromDescriptor(b: byte): nat {
    var base := Pow2(WINDOWLOG_BASE + b / 8);
    base + base / 8 * (b % 8)
  }

  /** It has one of eight values between two powers of two: the low three bits count
      eighths above the lower one. */
  lemma WindowIsEighths(b: byte)
    ensures WindowFromDescriptor(b) == (8 + b % 8) * Pow2(7 + b / 8)
  {
    var e := Pow2(7 + b / 8);
    assert Pow2(10 + b / 8) == 2 * Pow2(9 + b / 8) && Pow2(9 + b / 8) == 2 * Pow2(8 + b / 8) && Pow2(8 + b / 8) == 2 * e;
    EighthOf(e);
    EighthsAdd(e, b % 8);
  }

  lemma EighthOf(e: nat)
    ensures 8 * e / 8 == e
  {
  }

  lemma EighthsAdd(e: nat, m: nat)
    ensures 8 * e + e * m == (8 + m) * e
  {
  }

  /** Whether a short input can still become either magic: the visible bytes
      are laid over each magic in turn. */
  predicate MagicPrefixOk(src: seq<byte>) {
    var head := Min(|src|, 4);
    || LeValue(src[..head] + MAGIC_BYTES[head..]) == MAGIC
    || LeValue(src[..head] + SKIPPABLE_MIN_BYTES[head..]) / 16 * 16 == SKIPPABLE_MIN
  }

  /** The header length the descriptor byte implies, from its own tables. */
  function HeaderSizeFormula(descriptor: byte): (n: nat) {
    var didLen := [0, 1, 2, 4][descriptor % 4];
    var single := descriptor / 32 % 2 != 0;
    var fcsId := descriptor / 64;
    var fcsLen := [0, 2, 4, 8][fcsId] + if single && fcsId == 0 then 1 else 0;
    HEADER_PREFIX + (if single then 0 else 1) + didLen + fcsLen
  }

  /** The header, or the total input size the parser still wants. */
  function ParseFullHeader(src: seq<byte>): Result<HeaderParse, ParseError> {
    if |src| < HEADER_PREFIX then
      if src != [] && !MagicPrefixOk(src) then Err(BadMagic) else Ok(Wanted(HEADER_PREFIX))
    else
      var magic := LeValue(src[..4]);
      if SkippableMagic(magic) then
        if |src| < SKIPPABLE_HEADER then Ok(Wanted(SKIPPABLE_HEADER))
        else Ok(Complete(FullHeader(SkippableFrame, Some(LeValue(src[4..8])), 0, 0, SKIPPABLE_HEADER,
                                    magic - SKIPPABLE_MIN, false)))
      else if magic != MAGIC then Err(BadMagic)
      else
        match ParseZstdHeader(src)
        case Err(NeedMore) => Ok(Wanted(HeaderSizeFormula(src[4])))
        case Err(e) => Err(e)
        case Ok(info) =>
          var descriptor := src[4];
          var windowSize := if SingleSegment(descriptor) then info.contentSize.value
                            else WindowFromDescriptor(src[5]);
          var dictPos := HEADER_PREFIX + WindowLen(descriptor);
          Ok(Complete(FullHeader(ZstdFrame, info.contentSize, windowSize,
                                 Min(windowSize, MAX_BLOCK_CONTENT), info.headerLen,
                                 LeValue(src[dictPos..dictPos + DictLen(descriptor)]), info.checksum)))
  }

  // ------------------------------------------------------------------
  // The incremental parse latches
  // ------------------------------------------------------------------

  /** The formula agrees with the parsed length, and bounds it. */
  lemma FormulaIsParsedLength(src: seq<byte>)
    requires ParseZstdHeader(src).Ok?
    ensures ParseZstdHeader(src).value.headerLen == HeaderSizeFormula(src[4])
    ensures 6 <= HeaderSizeFormula(src[4]) <= 18
  {
    DescriptorFields(src[4]);
  }

  lemma DescriptorFields(d: byte)
    ensures HeaderSizeFormula(d) == HEADER_PREFIX + WindowLen(d) + DictLen(d) + FcsLen(d)
    ensures 6 <= HeaderSizeFormula(d) <= 18
  {
    assert d / 64 == 0 || d / 64 == 1 || d / 64 == 2 || d / 64 == 3;
    assert d % 4 == 0 || d % 4 == 1 || d % 4 == 2 || d % 4 == 3;
  }

  /** The skippable family: three fixed bytes above a free low nibble. */
  lemma SkippableBytes(s: seq<byte>)
    requires |s| == 4
    ensures SkippableMagic(LeValue(s)) <==> 0x50 <= s[0] <= 0x5f && s[1..] == SKIPPABLE_MIN_BYTES[1..]
    ensures SkippableMagic(LeValue(s)) <==> LeValue(s) / 16 * 16 == SKIPPABLE_MIN
  {
    var tail := SKIPPABLE_MIN_BYTES[1..];
    LeFour(SKIPPABLE_MIN_BYTES);
    assert LeValue(SKIPPABLE_MIN_BYTES) == 0x50 + 256 * LeValue(tail);
    assert LeValue(s) == s[0] + 256 * LeValue(s[1..]);
    if LeValue(s[1..]) == LeValue(tail) {
      LeInjective(s[1..], tail);
    }
  }

  /** The zstd magic, byte by byte. */
  lemma MagicBytes(s: seq<byte>)
    requires |s| == 4
    ensures LeValue(s) == MAGIC <==> s == [0x28, 0xb5, 0x2f, 0xfd]
  {
    LeFour(MAGIC_BYTES);
    if LeValue(s) == MAGIC {
      LeInjective(s, MAGIC_BYTES);
    }
  }

  /** What eighteen bytes, as many as any header has, are refused for: another magic, the
      reserved bit, a window above 2 GiB and three quarters, and nothing else. */
  lemma HeaderVerdict(s: seq<byte>)
    requires |s| >= 18
    ensures var zstd := s[..4] == [0x28, 0xb5, 0x2f, 0xfd];
            var skippable := 0x50 <= s[0] <= 0x5f && s[1..4] == [0x2a, 0x4d, 0x18];
            match ParseFullHeader(s)
            case Err(BadMagic) => !zstd && !skippable
            case Err(ReservedBit) => zstd && s[4] / 8 % 2 == 1
            case Err(WindowTooLarge) => zstd && s[4] / 8 % 2 == 0 && s[4] / 32 % 2 == 0 && s[5] >= 176
            case Err(NeedMore) => false
            case Ok(p) =>
              && p.Complete? && p.header.frameType.SkippableFrame? == skippable
              && (!skippable ==> zstd && s[4] / 8 % 2 == 0 && (s[4] / 32 % 2 == 1 || s[5] < 176))
  {
    MagicBytes(s[..4]);
    SkippableBytes(s[..4]);
    assert s[..4][1..] == s[1..4];
    DescriptorFields(s[4]);
    hide LeValue;
  }

  /** A prefix the early check refuses is no prefix of either magic family. */
  lemma MagicPrefixNecessary(src: seq<byte>, t: seq<byte>)
    requires |src + t| >= 4
    requires LeValue((src + t)[..4]) == MAGIC || SkippableMagic(LeValue((src + t)[..4]))
    ensures MagicPrefixOk(src)
  {
    var head := Min(|src|, 4);
    var four := (src + t)[..4];
    assert src[..head] == four[..head];
    if LeValue(four) == MAGIC {
      LeFour(MAGIC_BYTES);
      LeInjective(four, MAGIC_BYTES);
      assert src[..head] + MAGIC_BYTES[head..] == MAGIC_BYTES;
    } else {
      var b := src[..head] + SKIPPABLE_MIN_BYTES[head..];
      SkippableBytes(four);
      assert b[0] == if head == 0 then 0x50 else four[0];
      assert forall i :: 1 <= i < 4 ==> four[i] == four[1..][i - 1] == SKIPPABLE_MIN_BYTES[i];
      assert b[1..] == SKIPPABLE_MIN_BYTES[1..];
      SkippableBytes(b);
    }
  }

  /** Parsing the zstd header only looks at the header. */
  lemma ZstdHeaderStable(s: seq<byte>, t: seq<byte>)
    requires ParseZstdHeader(s) != Err(NeedMore)
    ensures ParseZstdHeader(s + t) == ParseZstdHeader(s)
  {
    var d := s[4];
    assert (s + t)[4] == d;
    var n := HEADER_PREFIX + WindowLen(d) + DictLen(d) + FcsLen(d);
    var pos := n - FcsLen(d);
    assert (s + t)[pos..n] == s[pos..n];
    if !SingleSegment(d) {
      assert (s + t)[5] == s[5];
    }
  }

  /** A complete header and every error persist under any extension. */
  lemma FullHeaderLatches(s: seq<byte>, t: seq<byte>)
    requires ParseFullHeader(s).Err? || ParseFullHeader(s).value.Complete?
    ensures ParseFullHeader(s + t) == ParseFullHeader(s)
  {
    if |s| < HEADER_PREFIX {
      if |s + t| < HEADER_PREFIX {
        if MagicPrefixOk(s + t) {
          PrefixOkShrinks(s, t);
        }
      } else if LeValue((s + t)[..4]) == MAGIC || SkippableMagic(LeValue((s + t)[..4])) {
        MagicPrefixNecessary(s, t);
      }
    } else {
      assert (s + t)[..4] == s[..4];
      if SkippableMagic(LeValue(s[..4])) {
        assert (s + t)[4..8] == s[4..8];
      } else if LeValue(s[..4]) == MAGIC {
        ZstdHeaderStable(s, t);
        var d := s[4];
        var p := HEADER_PREFIX + WindowLen(d);
        if ParseZstdHeader(s).Ok? {
          assert (s + t)[p..p + DictLen(d)] == s[p..p + DictLen(d)];
        }
      }
    }
  }

  /** The early check is monotone: once refused, always refused. */
  lemma PrefixOkShrinks(s: seq<byte>, t: seq<byte>)
    requires MagicPrefixOk(s + t)
    ensures MagicPrefixOk(s)
  {
    var head := Min(|s + t|, 4);
    var a := (s + t)[..head] + MAGIC_BYTES[head..];
    var b := (s + t)[..head] + SKIPPABLE_MIN_BYTES[head..];
    var h := Min(|s|, 4);
    if LeValue(a) == MAGIC {
      assert a == s[..h] + a[h..];
      assert (s[..h] + a[h..])[..4] == a;
      MagicPrefixNecessary(s[..h], a[h..]);
    } else {
      SkippableBytes(b);
      assert b == s[..h] + b[h..];
      assert (s[..h] + b[h..])[..4] == b;
      MagicPrefixNecessary(s[..h], b[h..]);
    }
    assert s[..h][..h] == s[..h];
  }

  /** `Wanted(w)` asks for strictly more than is there, and nothing shorter than
      `w` bytes can complete the header. */
  lemma WantedIsNecessary(s: seq<byte>, t: seq<byte>)
    requires ParseFullHeader(s).Ok? && ParseFullHeader(s).value.Wanted?
    requires |s + t| < ParseFullHeader(s).value.want
    ensures |s| < ParseFullHeader(s).value.want
    ensures ParseFullHeader(s + t).Err? || ParseFullHeader(s + t).value.Wanted?
  {
    if |s| >= HEADER_PREFIX {
      assert (s + t)[..4] == s[..4];
      DescriptorFields(s[4]);
    }
  }

  /** A complete header is answered at its own last byte and at none before. */
  lemma HeaderSelfDelimiting(s: seq<byte>, m: nat)
    requires ParseFullHeader(s).Ok? && ParseFullHeader(s).value.Complete?
    requires m <= |s|
    ensures var h := ParseFullHeader(s).value.header;
            && 6 <= h.headerSize <= |s|
            && h.headerSize <= 18
            && (m >= h.headerSize ==> ParseFullHeader(s[..m]) == ParseFullHeader(s))
            && (m < h.headerSize ==> ParseFullHeader(s[..m]).Ok? && ParseFullHeader(s[..m]).value.Wanted?)
  {
    var h := ParseFullHeader(s).value.header;
    DescriptorFields(s[4]);
    assert s[..m] + s[m..] == s;
    if ParseFullHeader(s[..m]).Err? || ParseFullHeader(s[..m]).value.Complete? {
      FullHeaderLatches(s[..m], s[m..]);
    }
    if m >= HEADER_PREFIX {
      assert s[..m][..4] == s[..4];
    }
  }

  /** Feeding exactly what is wanted reaches the one-shot verdict in at most two
      rounds: five bytes first, then the header's own size. */
  lemma HeaderInTwoRounds(src: seq<byte>)
    requires |src| >= HEADER_PREFIX
    ensures var first := ParseFullHeader(src[..HEADER_PREFIX]);
            if first.Err? then ParseFullHeader(src) == first
            else && first.value.Wanted?
                 && HEADER_PREFIX < first.value.want <= 18
                 && var second := if |src| < first.value.want then src else src[..first.value.want];
                    && ParseFullHeader(src) == ParseFullHeader(second)
                    && (|src| >= first.value.want <==>
                        ParseFullHeader(second).Err? || ParseFullHeader(second).value.Complete?)
  {
    var five := src[..HEADER_PREFIX];
    assert src == five + src[HEADER_PREFIX..];
    assert five[..4] == src[..4] && five[4] == src[4];
    DescriptorFields(src[4]);
    if ParseFullHeader(five).Err? {
      FullHeaderLatches(five, src[HEADER_PREFIX..]);
    } else {
      var w := ParseFullHeader(five).value.want;
      if |src| >= w {
        assert src[..w][..4] == src[..4];
        assert src == src[..w] + src[w..];
        FullHeaderLatches(src[..w], src[w..]);
      }
    }
  }

  /** While the wanted size is not reached only a short magic can be refused. */
  lemma ShortRefusal(s: seq<byte>, t: seq<byte>)
    requires ParseFullHeader(s).Ok? && ParseFullHeader(s).value.Wanted?
    requires |s + t| < ParseFullHeader(s).value.want && ParseFullHeader(s + t).Err?
    ensures |s + t| < HEADER_PREFIX
  {
    if |s| >= HEADER_PREFIX {
      assert (s + t)[..4] == s[..4] && (s + t)[4] == s[4];
      DescriptorFields(s[4]);
    }
  }

  lemma WantedAtMost(s: seq<byte>)
    requires ParseFullHeader(s).Ok? && ParseFullHeader(s).value.Wanted?
    ensures |s| < ParseFullHeader(s).value.want <= 18
    ensures ParseFullHeader(s).value.want >= HEADER_PREFIX
  {
    if |s| >= HEADER_PREFIX {
      DescriptorFields(s[4]);
    }
  }
}
