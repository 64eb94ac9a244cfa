/** The block walk behind the frame-size entry points (RFC 8878 section 3.1.1):
    three independent walkers over the same grammar, each proved against one
    recursive reference walk. */
module FrameWalk {
  import opened Bytes
  import opened FrameHeader

  datatype WireType = Raw | Rle | Compressed | Reserved

  /** The three bytes in front of every block. */
  datatype BlockHeader = BlockHeader(last: bool, wire: WireType, size: nat) {
    /** Wire bytes of the body: an RLE block carries one. */
    function BodySize(): nat {
      if wire.Rle? then 1 else size
    }
  }

  function ReadBlockHeader(b0: byte, b1: byte, b2: byte): BlockHeader {
    BlockHeader(
      b0 % 2 == 1,
      match b0 / 2 % 4 case 0 => Raw case 1 => Rle case 2 => Compressed case _ => Reserved,
      b0 / 8 + 32 * b1 as int + 8192 * b2 as int)
  }

  function HeaderAt(s: seq<byte>): BlockHeader
    requires |s| >= 3
  {
    ReadBlockHeader(s[0], s[1], s[2])
  }

  lemma HeaderFits(src: seq<byte>)
    requires ParseFullHeader(src).Ok? && ParseFullHeader(src).value.Complete?
    ensures 6 <= ParseFullHeader(src).value.header.headerSize <= |src|
  {
    HeaderSelfDelimiting(src, 0);
  }

  // ------------------------------------------------------------------
  // The reference walk
  // ------------------------------------------------------------------

  /** A walk over a run of blocks: it ends behind the last block, the input is
      short, or a header is not a block header. */
  datatype Walk = End(size: nat, blocks: nat) | Short | Corrupt

  function After(n: nat, w: Walk): Walk {
    if w.End? then End(n + w.size, w.blocks + 1) else w
  }

  /** Walk blocks up to and including the last; `ceiling` adds the 128 KiB check
      only `FrameCompressedSize` makes. */
  function WalkBlocks(s: seq<byte>, ceiling: bool): (w: Walk)
    ensures w.End? ==> 3 <= w.size <= |s| && w.blocks >= 1
  {
    if |s| < 3 then Short
    else
      var h := HeaderAt(s);
      if h.wire.Reserved? || (ceiling && !h.wire.Rle? && h.size > MAX_BLOCK_CONTENT) then Corrupt
      else
        var n := 3 + h.BodySize();
        if |s| < n then Short
        else if h.last then End(n, 1)
        else After(n, WalkBlocks(s[n..], ceiling))
  }

  /** The blocks and the checksum trailer behind a header. */
  function WalkBody(s: seq<byte>, checksum: bool, ceiling: bool): (w: Walk)
    ensures w.End? ==> 3 <= w.size <= |s|
  {
    var w := WalkBlocks(s, ceiling);
    var trailer := if checksum then 4 else 0;
    if w.End? && |s| < w.size + trailer then Short
    else if w.End? then End(w.size + trailer, w.blocks)
    else w
  }

  /** What `FrameCompressedSize` answers. */
  function CompressedSize(src: seq<byte>): (r: Result<nat, ParseError>)
    ensures r.Ok? ==> 0 < r.value <= |src|
  {
    hide ParseHeader, WalkBody;
    match ParseHeader(src)
    case Err(e) => Err(e)
    case Ok(Skippable(total)) => if |src| >= total then Ok(total) else Err(NeedMore)
    case Ok(Zstd(info)) =>
      match WalkBody(src[info.headerLen..], info.checksum, true)
      case End(n, _) => Ok(info.headerLen + n)
      case Short => Err(NeedMore)
      case Corrupt => Err(Malformed)
  }

  datatype FrameSizeInfo = FrameSizeInfo(
    compressedSize: nat,
    nbBlocks: nat,
    decompressedBound: nat,
    skippable: bool,
    headerSize: nat,
    checksum: bool,
    blockSizeMax: nat)

  function ParseErrorCode(e: ParseError): ErrorCode {
    match e
    case ReservedBit => FrameParameterUnsupported
    case WindowTooLarge => FrameParameterWindowTooLarge
    case _ => PrefixUnknown
  }

  predicate IsSkippable(src: seq<byte>) {
    |src| >= 4 && SkippableMagic(LeValue(src[..4]))
  }

  /** The serialized size of a skippable frame; a size field that would wrap 32
      bits together with the header is refused. */
  function SkippableFrameSize(src: seq<byte>): (r: Result<nat, ErrorCode>)
    requires IsSkippable(src)
    ensures r.Ok? <==> |src| >= SKIPPABLE_HEADER && SKIPPABLE_HEADER + LeValue(src[4..8]) < 0x1_0000_0000
                       && SKIPPABLE_HEADER + LeValue(src[4..8]) <= |src|
    ensures r.Ok? ==> r.value == SKIPPABLE_HEADER + LeValue(src[4..8])
    ensures r.Err? && |src| >= SKIPPABLE_HEADER ==>
              (r.error == FrameParameterUnsupported <==> SKIPPABLE_HEADER + LeValue(src[4..8]) >= 0x1_0000_0000)
  {
    if |src| < SKIPPABLE_HEADER then Err(SrcSizeWrong)
    else
      var content := LeValue(src[4..8]);
      LeValueBound(src[4..8]);
      LeFour(src[4..8]);
      if (content + SKIPPABLE_HEADER) % 0x1_0000_0000 < content then Err(FrameParameterUnsupported)
      else if SKIPPABLE_HEADER + content > |src| then Err(SrcSizeWrong)
      else Ok(SKIPPABLE_HEADER + content)
  }

  /** What the size-info walk answers. */
  function SizeInfo(src: seq<byte>): (r: Result<FrameSizeInfo, ErrorCode>)
    ensures r.Ok? ==> 0 < r.value.compressedSize <= |src|
  {
    if IsSkippable(src) then
      match SkippableFrameSize(src)
      case Err(e) => Err(e)
      case Ok(total) => Ok(FrameSizeInfo(total, 0, 0, true, SKIPPABLE_HEADER, false, 0))
    else
      hide ParseFullHeader;
      match ParseFullHeader(src)
      case Err(e) => Err(ParseErrorCode(e))
      case Ok(Wanted(_)) => Err(SrcSizeWrong)
      case Ok(Complete(h)) =>
        HeaderFits(src);
        match WalkBody(src[h.headerSize..], h.checksum, false)
        case Short => Err(SrcSizeWrong)
        case Corrupt => Err(CorruptionDetected)
        case End(n, blocks) => Ok(ZstdInfo(h, h.headerSize + n, blocks))
  }

  function ZstdInfo(h: FullHeader, size: nat, blocks: nat): FrameSizeInfo {
    FrameSizeInfo(size, blocks, if h.contentSize.Some? then h.contentSize.value else Times(blocks, h.blockSizeMax),
                  false, h.headerSize, h.checksum, h.blockSizeMax)
  }

  function Times(a: nat, b: nat): nat {
    a * b
  }

  /** What the shortcut's walk over a staged prefix and the call's rest answers. */
  function ChainedSize(staged: seq<byte>, rest: seq<byte>): (r: Option<nat>)
    ensures r.Some? ==> r.value <= |staged| + |rest|
  {
    match ParseFullHeader(staged)
    case Ok(Complete(h)) =>
      HeaderFits(staged);
      var w := WalkBody((staged + rest)[h.headerSize..], h.checksum, false);
      if w.End? then Some(h.headerSize + w.size) else None
    case _ => None
  }

  // ------------------------------------------------------------------
  // One step of a walker
  // ------------------------------------------------------------------

  /** A walker that started at `start` and has passed `k` blocks stands at `pos`. */
  ghost predicate WalkedTo(src: seq<byte>, start: nat, pos: nat, k: nat, ceiling: bool)
    requires start <= pos <= |src|
  {
    var whole, rest := WalkBlocks(src[start..], ceiling), WalkBlocks(src[pos..], ceiling);
    if rest.End? then whole == End(pos - start + rest.size, k + rest.blocks) else whole == rest
  }

  /** What the block at `pos` means for the whole walk. */
  lemma WalkStep(src: seq<byte>, start: nat, pos: nat, k: nat, ceiling: bool)
    requires start <= pos <= |src|
    requires WalkedTo(src, start, pos, k, ceiling)
    ensures var whole := WalkBlocks(src[start..], ceiling);
            if |src| < pos + 3 then whole == Short
            else
              var h := ReadBlockHeader(src[pos], src[pos + 1], src[pos + 2]);
              var next := pos + 3 + h.BodySize();
              if h.wire.Reserved? || (ceiling && !h.wire.Rle? && h.size > MAX_BLOCK_CONTENT) then whole == Corrupt
              else if |src| < next then whole == Short
              else if h.last then whole == End(next - start, k + 1)
              else WalkedTo(src, start, next, k + 1, ceiling)
  {
    hide ReadBlockHeader;
    if |src| >= pos + 3 {
      assert HeaderAt(src[pos..]) == ReadBlockHeader(src[pos], src[pos + 1], src[pos + 2]);
      var n := 3 + HeaderAt(src[pos..]).BodySize();
      if |src| >= pos + n {
        assert src[pos..][n..] == src[pos + n..];
      }
    }
  }

  // ------------------------------------------------------------------
  // The walkers
  // ------------------------------------------------------------------

  method FrameCompressedSize(src: seq<byte>) returns (r: Result<nat, ParseError>)
    ensures r == CompressedSize(src)
  {
    hide ParseHeader, WalkBlocks;
    var header := ParseHeader(src);
    if header.Err? {
      return Err(header.error);
    }
    if header.value.Skippable? {
      return if |src| >= header.value.total then Ok(header.value.total) else Err(NeedMore);
    }
    var info := header.value.info;
    var pos := info.headerLen;
    ghost var k := 0;
    while true
      invariant info.headerLen <= pos <= |src|
      invariant WalkedTo(src, info.headerLen, pos, k, true)
      decreases |src| - pos
    {
      WalkStep(src, info.headerLen, pos, k, true);
      if |src| < pos + 3 {
        return Err(NeedMore);
      }
      var h := ReadBlockHeader(src[pos], src[pos + 1], src[pos + 2]);
      var body;
      match h.wire {
        case Raw | Compressed =>
          if h.size > MAX_BLOCK_CONTENT {
            return Err(Malformed);
          }
          body := h.size;
        case Rle => body := 1;
        case Reserved => return Err(Malformed);
      }
      pos := pos + 3 + body;
      k := k + 1;
      if |src| < pos {
        return Err(NeedMore);
      }
      if h.last {
        if info.checksum {
          if |src| < pos + 4 {
            return Err(NeedMore);
          }
          pos := pos + 4;
        }
        return Ok(pos);
      }
    }
  }

  method FrameSizeInfoOf(src: seq<byte>) returns (r: Result<FrameSizeInfo, ErrorCode>)
    ensures r == SizeInfo(src)
  {
    hide SkippableFrameSize, LeValue, ParseFullHeader, WalkBlocks, ReadBlockHeader;
    if IsSkippable(src) {
      var total := SkippableFrameSize(src);
      if total.Err? {
        return Err(total.error);
      }
      return Ok(FrameSizeInfo(total.value, 0, 0, true, SKIPPABLE_HEADER, false, 0));
    }
    hide IsSkippable;
    var parse := ParseFullHeader(src);
    if parse.Err? {
      return Err(ParseErrorCode(parse.error));
    }
    if parse.value.Wanted? {
      return Err(SrcSizeWrong);
    }
    var header := parse.value.header;
    HeaderFits(src);
    var pos := header.headerSize;
    var nbBlocks := 0;
    while true
      invariant header.headerSize <= pos <= |src|
      invariant WalkedTo(src, header.headerSize, pos, nbBlocks, false)
      decreases |src| - pos
    {
      WalkStep(src, header.headerSize, pos, nbBlocks, false);
      if |src| < pos + 3 {
        return Err(SrcSizeWrong);
      }
      var h := ReadBlockHeader(src[pos], src[pos + 1], src[pos + 2]);
      if h.wire.Reserved? {
        return Err(CorruptionDetected);
      }
      var body := h.BodySize();
      pos := pos + 3 + body;
      if |src| < pos {
        return Err(SrcSizeWrong);
      }
      nbBlocks := nbBlocks + 1;
      if h.last {
        break;
      }
    }
    if header.checksum {
      if |src| < pos + 4 {
        return Err(SrcSizeWrong);
      }
      pos := pos + 4;
    }
    return Ok(ZstdInfo(header, pos, nbBlocks));
  }

  /** One address space over the staged prefix and the call's remaining input. */
  function ChainedByte(staged: seq<byte>, rest: seq<byte>, pos: nat): (b: Option<byte>)
    ensures b == if pos < |staged + rest| then Some((staged + rest)[pos]) else None
  {
    if pos < |staged| then Some(staged[pos])
    else if pos - |staged| < |rest| then Some(rest[pos - |staged|])
    else None
  }

  method ChainedFrameSize(staged: seq<byte>, rest: seq<byte>) returns (r: Option<nat>)
    ensures r == ChainedSize(staged, rest)
  {
    hide ParseFullHeader, WalkBlocks;
    var parse := ParseFullHeader(staged);
    if parse.Err? || parse.value.Wanted? {
      return None;
    }
    var full := parse.value.header;
    HeaderFits(staged);
    var total := |staged| + |rest|;
    ghost var src := staged + rest;
    ghost var k := 0;
    var pos := full.headerSize;
    while true
      invariant full.headerSize <= pos <= |src|
      invariant WalkedTo(src, full.headerSize, pos, k, false)
      decreases |src| - pos
    {
      WalkStep(src, full.headerSize, pos, k, false);
      if pos + 3 > total {
        return None;
      }
      var b0 := ChainedByte(staged, rest, pos).value;
      var b1 := ChainedByte(staged, rest, pos + 1).value;
      var b2 := ChainedByte(staged, rest, pos + 2).value;
      var h := ReadBlockHeader(b0, b1, b2);
      if h.wire.Reserved? {
        return None;
      }
      pos := pos + 3 + h.BodySize();
      k := k + 1;
      if pos > total {
        return None;
      }
      if h.last {
        if full.checksum {
          pos := pos + 4;
          if pos > total {
            return None;
          }
        }
        return Some(pos);
      }
    }
  }

  // ------------------------------------------------------------------
  // The walk is self-delimiting
  // ------------------------------------------------------------------

  /** One step of the walk over a block that is present and not refused. */
  lemma WalkUnfold(s: seq<byte>, ceiling: bool)
    requires |s| >= 3 && |s| >= 3 + HeaderAt(s).BodySize()
    requires !HeaderAt(s).wire.Reserved?
    requires ceiling && !HeaderAt(s).wire.Rle? ==> HeaderAt(s).size <= MAX_BLOCK_CONTENT
    ensures var b := 3 + HeaderAt(s).BodySize();
            WalkBlocks(s, ceiling) == if HeaderAt(s).last then End(b, 1) else After(b, WalkBlocks(s[b..], ceiling))
  {
    hide ReadBlockHeader;
  }

  /** What a walk that ends has already accepted. */
  lemma WalkAccepted(s: seq<byte>, ceiling: bool)
    requires WalkBlocks(s, ceiling).End?
    ensures |s| >= 3 && |s| >= 3 + HeaderAt(s).BodySize()
    ensures !HeaderAt(s).wire.Reserved?
    ensures ceiling && !HeaderAt(s).wire.Rle? ==> HeaderAt(s).size <= MAX_BLOCK_CONTENT
    ensures 3 + HeaderAt(s).BodySize() <= WalkBlocks(s, ceiling).size
    ensures !HeaderAt(s).last ==> WalkBlocks(s[3 + HeaderAt(s).BodySize()..], ceiling).End?
    ensures !HeaderAt(s).last ==>
              WalkBlocks(s, ceiling) ==
                After(3 + HeaderAt(s).BodySize(), WalkBlocks(s[3 + HeaderAt(s).BodySize()..], ceiling))
    ensures HeaderAt(s).last ==> WalkBlocks(s, ceiling) == End(3 + HeaderAt(s).BodySize(), 1)
  {
    hide ReadBlockHeader;
  }

  /** What follows the last block cannot change the walk. */
  lemma {:induction false} WalkBlocksExtends(s: seq<byte>, u: seq<byte>, ceiling: bool)
    requires WalkBlocks(s, ceiling).End?
    requires WalkBlocks(s, ceiling).size <= |u|
    requires u[..WalkBlocks(s, ceiling).size] == s[..WalkBlocks(s, ceiling).size]
    ensures WalkBlocks(u, ceiling) == WalkBlocks(s, ceiling)
  {
    hide WalkBlocks, ReadBlockHeader;
    var n := WalkBlocks(s, ceiling).size;
    WalkAccepted(s, ceiling);
    var b := 3 + HeaderAt(s).BodySize();
    assert forall i :: 0 <= i < n ==> u[i] == u[..n][i] && s[i] == s[..n][i];
    assert HeaderAt(u) == HeaderAt(s);
    WalkUnfold(u, ceiling);
    if !HeaderAt(s).last {
      assert u[b..][..n - b] == u[..n][b..] && s[b..][..n - b] == s[..n][b..];
      WalkBlocksExtends(s[b..], u[b..], ceiling);
    }
  }

  /** A walk cut before its end is short, never corrupt. */
  lemma {:induction false} WalkBlocksCut(s: seq<byte>, m: nat, ceiling: bool)
    requires WalkBlocks(s, ceiling).End?
    requires m < WalkBlocks(s, ceiling).size
    ensures WalkBlocks(s[..m], ceiling) == Short
  {
    if m >= 3 {
      var b := 3 + HeaderAt(s).BodySize();
      assert HeaderAt(s[..m]) == HeaderAt(s);
      if m >= b {
        WalkBlocksCut(s[b..], m - b, ceiling);
        assert s[..m][b..] == s[b..][..m - b];
      }
    }
  }

  lemma WalkBodyDelimits(s: seq<byte>, t: seq<byte>, m: nat, checksum: bool, ceiling: bool)
    requires WalkBody(s, checksum, ceiling).End?
    requires m < WalkBody(s, checksum, ceiling).size
    ensures var n := WalkBody(s, checksum, ceiling).size;
            && WalkBody(s[..n] + t, checksum, ceiling) == WalkBody(s, checksum, ceiling)
            && WalkBody(s[..m], checksum, ceiling) == Short
  {
    hide WalkBlocks;
    var n := WalkBody(s, checksum, ceiling).size;
    var e := WalkBlocks(s, ceiling).size;
    assert (s[..n] + t)[..e] == s[..e];
    WalkBlocksExtends(s, s[..n] + t, ceiling);
    if m < e {
      WalkBlocksCut(s, m, ceiling);
    } else {
      assert s[..m][..e] == s[..e];
      WalkBlocksExtends(s, s[..m], ceiling);
    }
  }

  /** The two header parses see the same header. */
  lemma HeadersAgree(src: seq<byte>)
    ensures ParseHeader(src).Ok? && ParseHeader(src).value.Zstd? <==>
            ParseFullHeader(src).Ok? && ParseFullHeader(src).value.Complete? &&
            ParseFullHeader(src).value.header.frameType.ZstdFrame?
    ensures ParseHeader(src).Ok? && ParseHeader(src).value.Zstd? ==>
            var info, h := ParseHeader(src).value.info, ParseFullHeader(src).value.header;
            info.headerLen == h.headerSize && info.contentSize == h.contentSize && info.checksum == h.checksum
    ensures ParseHeader(src).Ok? && ParseHeader(src).value.Skippable? <==>
            ParseFullHeader(src).Ok? && ParseFullHeader(src).value.Complete? &&
            ParseFullHeader(src).value.header.frameType.SkippableFrame?
    ensures ParseHeader(src).Ok? && ParseHeader(src).value.Skippable? ==>
            ParseHeader(src).value.total == 8 + ParseFullHeader(src).value.header.contentSize.value
  {
  }

  /** A header cut short of its own length wants more bytes in both parses. */
  lemma HeaderCut(s: seq<byte>, m: nat)
    requires ParseHeader(s).Ok?
    requires m <= |s|
    ensures var n := if ParseHeader(s).value.Zstd? then ParseHeader(s).value.info.headerLen else 8;
            && n <= |s|
            && (m < n ==> ParseHeader(s[..m]) == Err(NeedMore))
            && (m >= n ==> ParseHeader(s[..m]) == ParseHeader(s))
  {
    if m >= 4 {
      assert s[..m][..4] == s[..4];
      if m >= 8 {
        assert s[..m][4..8] == s[4..8];
      }
      if ParseHeader(s).value.Zstd? && m >= ParseHeader(s).value.info.headerLen {
        assert s[..m] + s[m..] == s;
        ZstdHeaderStable(s[..m], s[m..]);
      }
    }
  }

  lemma HeaderExtends(s: seq<byte>, t: seq<byte>)
    requires ParseHeader(s).Ok?
    ensures ParseHeader(s + t) == ParseHeader(s)
  {
    assert (s + t)[..|s|] == s;
    HeadersAgree(s);
    HeadersAgree(s + t);
    FullHeaderLatches(s, t);
  }

  /** A frame walk never reads past the frame, and no strict prefix of the
      frame satisfies it or is judged malformed. */
  lemma CompressedSizeDelimits(s: seq<byte>, t: seq<byte>, m: nat)
    requires CompressedSize(s).Ok?
    requires m < CompressedSize(s).value
    ensures CompressedSize(s).value <= |s|
    ensures CompressedSize(s[..CompressedSize(s).value] + t) == CompressedSize(s)
    ensures CompressedSize(s[..m]) == Err(NeedMore)
  {
    hide ParseHeader, WalkBody;
    var n := CompressedSize(s).value;
    HeaderCut(s, n);
    HeaderCut(s, m);
    HeaderExtends(s[..n], t);
    if ParseHeader(s).value.Zstd? {
      var info := ParseHeader(s).value.info;
      var k := info.headerLen;
      var m' := if m < k then 0 else m - k;
      WalkBodyDelimits(s[k..], t, m', info.checksum, true);
      assert (s[..n] + t)[k..] == s[k..][..n - k] + t;
      if m >= k {
        assert s[..m][k..] == s[k..][..m - k];
      }
    }
  }

  // ------------------------------------------------------------------
  // The walkers agree
  // ------------------------------------------------------------------

  /** The 128 KiB ceiling is the only difference between the two block walks. */
  lemma {:induction false} CeilingOnlyRejects(s: seq<byte>)
    ensures WalkBlocks(s, true) != Corrupt ==> WalkBlocks(s, true) == WalkBlocks(s, false)
  {
    if |s| >= 3 {
      var n := 3 + HeaderAt(s).BodySize();
      if |s| >= n {
        CeilingOnlyRejects(s[n..]);
      }
    }
  }

  /** On zstd frames the metadata walk and the size-info walk find the same end,
      except that the metadata walk refuses oversized blocks; on skippable
      frames, except that the size-info walk refuses a wrapping size field. */
  lemma SizeWalksAgree(src: seq<byte>)
    requires ParseHeader(src).Ok?
    ensures CompressedSize(src).Ok? && SizeInfo(src).Ok? ==>
            SizeInfo(src).value.compressedSize == CompressedSize(src).value
    ensures ParseHeader(src).value.Zstd? && CompressedSize(src).Ok? ==> SizeInfo(src).Ok?
    ensures ParseHeader(src).value.Zstd? && SizeInfo(src).Ok? ==>
            CompressedSize(src).Ok? || CompressedSize(src) == Err(Malformed)
    ensures ParseHeader(src).value.Skippable? ==>
            (CompressedSize(src).Ok? && ParseHeader(src).value.total < 0x1_0000_0000 <==> SizeInfo(src).Ok?)
  {
    hide WalkBlocks, ParseFullHeader;
    HeadersAgree(src);
    LeFour(src[..4]);
    if ParseHeader(src).value.Zstd? {
      CeilingOnlyRejects(src[ParseHeader(src).value.info.headerLen..]);
    } else {
      LeValueBound(src[4..8]);
      LeFour(src[4..8]);
    }
  }

  /** The shortcut's chained walk accepts exactly what the size-info walk accepts
      on the joined bytes, with the same size. */
  lemma ChainedWalkAgrees(staged: seq<byte>, rest: seq<byte>)
    requires ParseFullHeader(staged).Ok? && ParseFullHeader(staged).value.Complete?
    requires ParseFullHeader(staged).value.header.frameType.ZstdFrame?
    ensures ChainedSize(staged, rest).Some? <==> SizeInfo(staged + rest).Ok?
    ensures ChainedSize(staged, rest).Some? ==>
            ChainedSize(staged, rest).value == SizeInfo(staged + rest).value.compressedSize
  {
    FullHeaderLatches(staged, rest);
    assert (staged + rest)[..4] == staged[..4];
    hide WalkBody;
  }
}
