/** The frame writers the parity shapes are built with, against the parsers: the
    header, blocks, whole frames and skippable frames. */
module Writers {
  import opened Bytes
  import opened FrameHeader
  import opened FrameWalk
  import opened BlockEngine
  import opened FrameContent
  import opened OneShots
  import opened StreamLimits

  // ------------------------------------------------------------------
  // Blocks
  // ------------------------------------------------------------------

  function WireCode(w: WireType): nat {
    match w
    case Raw => 0
    case Rle => 1
    case Compressed => 2
    case Reserved => 3
  }

  /** Three low bytes of a 32-bit header word; a size of 2^21 or more loses its
      high bits. */
  function BlockHead(last: bool, wire: WireType, size: nat): (b: seq<byte>)
    ensures |b| == 3
  {
    LeBytes(size % 0x1_0000_0000 * 8 % 0x1_0000_0000 + WireCode(wire) * 2 + if last then 1 else 0, 3)
  }

  method PushBlock(out: seq<byte>, last: bool, wire: WireType, content: seq<byte>) returns (out': seq<byte>)
    ensures out' == out + BlockHead(last, wire, |content|) + content
    ensures HeaderAt(out'[|out|..]) == BlockHeader(last, wire, |content| % 0x20_0000)
    ensures out'[|out| + 3..] == content
  {
    BlockHeadReadsBack(last, wire, |content|);
    var word := |content| % 0x1_0000_0000 * 8 % 0x1_0000_0000 + WireCode(wire) * 2 + if last then 1 else 0;
    out' := out + LeBytes(word, 3);
    out' := out' + content;
  }

  method PushRleRun(out: seq<byte>, last: bool, value: byte, len: nat) returns (out': seq<byte>)
    ensures out' == out + BlockHead(last, Rle, len) + [value]
    ensures HeaderAt(out'[|out|..]) == BlockHeader(last, Rle, len % 0x20_0000)
    ensures out'[|out| + 3..] == [value]
  {
    BlockHeadReadsBack(last, Rle, len);
    out' := out + LeBytes(len % 0x1_0000_0000 * 8 % 0x1_0000_0000 + WireCode(Rle) * 2 + if last then 1 else 0, 3);
    out' := out' + [value];
  }

  /** The header of a written block reads back, its size modulo 2^21. */
  lemma BlockHeadReadsBack(last: bool, wire: WireType, size: nat)
    ensures var b := BlockHead(last, wire, size);
            ReadBlockHeader(b[0], b[1], b[2]) == BlockHeader(last, wire, size % 0x20_0000)
  {
    var low := WireCode(wire) * 2 + if last then 1 else 0;
    var word := size % 0x1_0000_0000 * 8 % 0x1_0000_0000 + low;
    var b := BlockHead(last, wire, size);
    assert b == [word % 256] + LeBytes(word / 256, 2);
    assert LeBytes(word / 256, 2) == [word / 256 % 256] + LeBytes(word / 256 / 256, 1);
    assert LeBytes(word / 256 / 256, 1) == [word / 256 / 256 % 256] + [];
    WordFields(size, low);
  }

  lemma WordFields(size: nat, low: nat)
    requires low < 8
    ensures var word := size % 0x1_0000_0000 * 8 % 0x1_0000_0000 + low;
            && word % 256 % 2 == low % 2 && word % 256 / 2 % 4 == low / 2
            && word % 256 / 8 + 32 * (word / 256 % 256) + 8192 * (word / 65536 % 256) == size % 0x20_0000
            && word / 256 / 256 == word / 65536
  {
    var n := size % 0x2000_0000;
    ShiftKeeps29(size);
    WordDigits(n / 32, n % 32, low);
    SizeDigits(n);
    assert (32 * (n / 32) + n % 32) * 8 + low == n * 8 + low;
  }

  lemma ShiftKeeps29(size: nat)
    ensures size % 0x1_0000_0000 * 8 % 0x1_0000_0000 == size % 0x2000_0000 * 8
    ensures size % 0x20_0000 == size % 0x2000_0000 % 0x20_0000
  {
    var r := size % 0x1_0000_0000;
    assert r % 0x2000_0000 == size % 0x2000_0000;
    Shifted(r / 0x2000_0000, r % 0x2000_0000);
  }

  lemma Shifted(a: nat, n: nat)
    requires n < 0x2000_0000
    ensures (0x2000_0000 * a + n) * 8 % 0x1_0000_0000 == n * 8
  {
  }

  lemma WordDigits(high: nat, five: nat, low: nat)
    requires five < 32 && low < 8
    ensures var word := (32 * high + five) * 8 + low;
            && word % 256 == five * 8 + low && word / 256 == high && word / 65536 == high / 256
            && word % 256 % 2 == low % 2 && word % 256 / 2 % 4 == low / 2 && word % 256 / 8 == five
            && word / 256 / 256 == word / 65536
  {
  }

  lemma SizeDigits(n: nat)
    ensures n % 0x20_0000 == n % 32 + 32 * (n / 32 % 256) + 8192 * (n / 32 / 256 % 256)
  {
    assert n / 32 / 256 == n / 8192;
    assert n % 8192 == n % 32 + 32 * (n / 32 % 256);
  }

  /** A block as a writer is asked for it. */
  datatype Piece = RawPiece(content: seq<byte>) | RunPiece(value: byte, len: nat) | CodedPiece(content: seq<byte>) {
    function Size(): nat {
      if RunPiece? then len else |content|
    }

    function Wire(): WireType {
      match this
      case RawPiece(_) => Raw
      case RunPiece(_, _) => Rle
      case CodedPiece(_) => Compressed
    }

    function Body(): seq<byte> {
      if RunPiece? then [value] else content
    }
  }

  function PieceBytes(last: bool, p: Piece): (b: seq<byte>)
    ensures |b| == 3 + |p.Body()|
  {
    BlockHead(last, p.Wire(), p.Size()) + p.Body()
  }

  /** Blocks one after the other, the last one flagged. */
  function BodyBytes(pieces: seq<Piece>): seq<byte>
    requires pieces != []
  {
    if |pieces| == 1 then PieceBytes(true, pieces[0])
    else PieceBytes(false, pieces[0]) + BodyBytes(pieces[1..])
  }

  /** Sizes a block header can hold, and under the ceiling those a walker with the
      128 KiB check admits. */
  predicate Fits(pieces: seq<Piece>, ceiling: bool) {
    forall i :: 0 <= i < |pieces| ==>
      && pieces[i].Size() < 0x20_0000
      && (ceiling && !pieces[i].RunPiece? ==> pieces[i].Size() <= MAX_BLOCK_CONTENT)
  }

  lemma PieceReadsBack(last: bool, p: Piece, t: seq<byte>)
    requires p.Size() < 0x20_0000
    ensures var s := PieceBytes(last, p) + t;
            && |s| >= 3 && HeaderAt(s) == BlockHeader(last, p.Wire(), p.Size())
            && 3 + HeaderAt(s).BodySize() == |PieceBytes(last, p)|
            && s[..3 + HeaderAt(s).BodySize()] == PieceBytes(last, p) && s[3 + HeaderAt(s).BodySize()..] == t
            && PieceBytes(last, p)[3..] == p.Body()
  {
    hide BlockHead, ReadBlockHeader;
    BlockHeadReadsBack(last, p.Wire(), p.Size());
  }

  /** Written blocks are walked exactly, whatever follows them. */
  lemma {:induction false} WrittenBlocksWalk(pieces: seq<Piece>, t: seq<byte>, ceiling: bool)
    requires pieces != [] && Fits(pieces, ceiling)
    ensures WalkBlocks(BodyBytes(pieces) + t, ceiling) == End(|BodyBytes(pieces)|, |pieces|)
  {
    hide ReadBlockHeader, PieceBytes;
    var p, rest := pieces[0], pieces[1..];
    var tail := if |pieces| == 1 then t else BodyBytes(rest) + t;
    var s := PieceBytes(|pieces| == 1, p) + tail;
    assert BodyBytes(pieces) + t == s;
    PieceReadsBack(|pieces| == 1, p, tail);
    WalkUnfold(s, ceiling);
    if |pieces| > 1 {
      WrittenBlocksWalk(rest, t, ceiling);
    }
  }

  /** What blocks stand for behind the non-empty blocks `before` of their frame: a raw piece
      its payload, a run its bytes, and a coded piece what the engine expands it to with
      exactly the blocks in front of it. */
  function Content(c: Codec, header: seq<byte>, before: seq<seq<byte>>, pieces: seq<Piece>): seq<byte>
    decreases |pieces|
  {
    if pieces == [] then []
    else
      var p, block := pieces[0], PieceBytes(|pieces| == 1, pieces[0]);
      (match p
       case RawPiece(content) => content
       case RunPiece(value, len) => Repeat(value, len)
       case CodedPiece(_) => c.expand(header, before, block))
      + Content(c, header, if p.Body() == [] then before else before + [block], pieces[1..])
  }

  /** Blocks within the frame's block limit, each coded one with a body. */
  predicate Plain(f: Frame, pieces: seq<Piece>) {
    && f.blockSizeMax <= MAX_BLOCK_CONTENT
    && forall i :: 0 <= i < |pieces| ==>
         && pieces[i].Size() <= f.blockSizeMax && |pieces[i].Body()| <= f.blockSizeMax
         && (pieces[i].CodedPiece? ==> pieces[i].content != [])
  }

  /** Each coded piece is well formed, and its matches stay within the window and the `made`
      bytes of the frame in front of them. */
  predicate Decodable(c: Codec, header: seq<byte>, before: seq<seq<byte>>, made: nat, pieces: seq<Piece>)
    decreases |pieces|
  {
    pieces == [] ||
    var p, block := pieces[0], PieceBytes(|pieces| == 1, pieces[0]);
    var out := match p
               case RawPiece(content) => |content|
               case RunPiece(value, len) => len
               case CodedPiece(_) => |c.expand(header, before, block)|;
    && (p.CodedPiece? ==>
          && c.decodes(header, before, block)
          && c.distance(header, before, block) <= Window(header)
          && c.reach(header, before, block) <= Min(Window(header), made))
    && Decodable(c, header, if p.Body() == [] then before else before + [block], made + out, pieces[1..])
  }

  const ZERO_CHECKSUM: seq<byte> := [0, 0, 0, 0]

  /** The trailer a frame asks for: zeros, which are the checksum of the whole content. */
  predicate TrailerFits(c: Codec, f: Frame, content: seq<byte>, trailer: seq<byte>) {
    if f.checksum then trailer == ZERO_CHECKSUM && c.trailerOk(content, trailer) else trailer == []
  }

  /** Reading written blocks back gives what they stand for, in order, block by block and
      in one go. */
  lemma {:induction false} WrittenBlocksContent(c: Codec, f: Frame, fed: seq<seq<byte>>, pieces: seq<Piece>,
                                                trailer: seq<byte>)
    requires pieces != [] && Plain(f, pieces) && Decodable(c, f.header, fed, Produced(c, f, fed), pieces)
    requires Undisturbed(c, f, fed) && StreamedContent(c, f, fed) == WholeContent(c, f, fed)
    requires TrailerFits(c, f, WholeContent(c, f, fed) + Content(c, f.header, fed, pieces), trailer)
    requires Declared(f.header).Some? ==>
               Produced(c, f, fed) + |Content(c, f.header, fed, pieces)| == Declared(f.header).value
    ensures var s := BodyBytes(pieces) + trailer;
            && ScanBlocks(c, f, fed, s) == Scan(Content(c, f.header, fed, pieces), Done(|s|))
            && WholeBlocks(c, f, fed, s) == Scan(Content(c, f.header, fed, pieces), Done(|s|))
    decreases |pieces|
  {
    hide ReadBlockHeader, PieceBytes, Feed, ScanBlocks, WholeBlocks, BlockOut, WholeOut, BlockOk, WholeOk, Declared, Produced,
      TrailerFits, BlockHeaderOk, StreamedContent, WholeContent, Undisturbed, Window, Content, Decodable, Plain, HeaderAt;
    var last, p, rest := |pieces| == 1, pieces[0], pieces[1..];
    var tail := if last then trailer else BodyBytes(rest) + trailer;
    var block := PieceBytes(last, p);
    assert BodyBytes(pieces) + trailer == block + tail;
    FirstPiece(c, f, fed, pieces);
    var out, next := WholeOut(c, f, fed, block), Feed(fed, block);
    var behind := Content(c, f.header, next, rest);
    ProducedBlock(c, f, fed, block);
    ContentBlock(c, f, fed, block);
    assert WholeContent(c, f, fed) + (out + behind) == (WholeContent(c, f, fed) + out) + behind;
    if last {
      NothingWritten(c, f.header, next);
      assert out + [] == out;
    }
    PieceTaken(c, f, fed, last, p);
    OneBlock(c, f, fed, block, tail);
    OneWholeBlock(c, f, fed, block, tail);
    if last {
      TrailerReads(c, f, next, WholeContent(c, f, fed) + Content(c, f.header, fed, pieces), trailer);
    } else {
      WrittenBlocksContent(c, f, next, rest, trailer);
    }
  }

  lemma NothingWritten(c: Codec, header: seq<byte>, before: seq<seq<byte>>)
    ensures Content(c, header, before, []) == []
  {
  }

  /** The first of some pieces and what is behind it. */
  lemma FirstPiece(c: Codec, f: Frame, fed: seq<seq<byte>>, pieces: seq<Piece>)
    requires pieces != [] && Plain(f, pieces) && Decodable(c, f.header, fed, Produced(c, f, fed), pieces)
    requires Undisturbed(c, f, fed)
    ensures var p, rest, block := pieces[0], pieces[1..], PieceBytes(|pieces| == 1, pieces[0]);
            && p.Size() <= f.blockSizeMax <= MAX_BLOCK_CONTENT && |p.Body()| <= f.blockSizeMax
            && Plain(f, rest) && PieceDecodes(c, f, fed, |pieces| == 1, p)
            && |block| >= 3 && |block| == 3 + HeaderAt(block).BodySize()
            && BlockOut(c, f, fed, block) == WholeOut(c, f, fed, block) && Undisturbed(c, f, Feed(fed, block))
            && Content(c, f.header, fed, pieces)
               == WholeOut(c, f, fed, block) + Content(c, f.header, Feed(fed, block), rest)
            && Decodable(c, f.header, Feed(fed, block), Produced(c, f, Feed(fed, block)), rest)
  {
    hide ReadBlockHeader, PieceBytes, Feed, BlockOut, WholeOut, Produced, Undisturbed, Window;
    var last, p := |pieces| == 1, pieces[0];
    var block := PieceBytes(last, p);
    PieceReadsBack(last, p, []);
    assert block + [] == block;
    PieceFeeds(fed, last, p);
    PieceOut(c, f, fed, last, p);
    ProducedBlock(c, f, fed, block);
  }

  lemma PieceFeeds(fed: seq<seq<byte>>, last: bool, p: Piece)
    ensures Feed(fed, PieceBytes(last, p)) == if p.Body() == [] then fed else fed + [PieceBytes(last, p)]
  {
    hide BlockHead;
  }

  lemma TrailerReads(c: Codec, f: Frame, fed: seq<seq<byte>>, content: seq<byte>, trailer: seq<byte>)
    requires TrailerFits(c, f, content, trailer)
    requires StreamedContent(c, f, fed) == WholeContent(c, f, fed) == content
    ensures ScanTrailer(c, f, fed, trailer) == Scan([], Done(|trailer|))
    ensures WholeTrailer(c, f, fed, trailer) == Scan([], Done(|trailer|))
  {
    hide StreamedContent, WholeContent, Closed, StrayTaken;
    assert trailer[..|trailer|] == trailer;
    ZeroPasses(c, f, fed);
  }

  /** Four zero bytes pass for an empty block, too. */
  lemma ZeroPasses(c: Codec, f: Frame, fed: seq<seq<byte>>)
    ensures StrayTaken(c, f, fed, ZERO_CHECKSUM)
  {
    hide ReadBlockHeader, Produced, Declared;
    HeadDigits(0, 0, 0, 0, 0, 0);
  }

  /** A coded piece that both paths decode with all of its history. */
  predicate PieceDecodes(c: Codec, f: Frame, fed: seq<seq<byte>>, last: bool, p: Piece) {
    var block := PieceBytes(last, p);
    p.CodedPiece? ==>
      && p.content != [] && c.decodes(f.header, fed, block)
      && c.distance(f.header, fed, block) <= Window(f.header)
      && c.reach(f.header, fed, block) <= Min(Window(f.header), Produced(c, f, fed))
  }

  /** Both paths take such a block, the last one when it completes the declared size. */
  lemma PieceTaken(c: Codec, f: Frame, fed: seq<seq<byte>>, last: bool, p: Piece)
    requires p.Size() <= f.blockSizeMax <= MAX_BLOCK_CONTENT && |p.Body()| <= f.blockSizeMax
    requires PieceDecodes(c, f, fed, last, p)
    requires last && Declared(f.header).Some? ==>
               Produced(c, f, Feed(fed, PieceBytes(last, p))) == Declared(f.header).value
    ensures var block := PieceBytes(last, p);
            && |block| == 3 + HeaderAt(block).BodySize() && HeaderAt(block).last == last
            && BlockHeaderOk(f, HeaderAt(block)) && BlockOk(c, f, fed, block) && WholeOk(c, f, fed, block)
  {
    hide ReadBlockHeader, PieceBytes, Produced, Declared, Kept, History, Window, Intact;
    KeptCoversWindow(c, f, fed);
    PieceReadsBack(last, p, []);
    assert PieceBytes(last, p) + [] == PieceBytes(last, p);
  }

  lemma PieceOut(c: Codec, f: Frame, fed: seq<seq<byte>>, last: bool, p: Piece)
    requires p.Size() < 0x20_0000 && PieceDecodes(c, f, fed, last, p) && Undisturbed(c, f, fed)
    ensures var block := PieceBytes(last, p);
            && |block| == 3 + HeaderAt(block).BodySize()
            && BlockOut(c, f, fed, block) == WholeOut(c, f, fed, block)
            && Undisturbed(c, f, Feed(fed, block))
            && WholeOut(c, f, fed, block) == match p
                                            case RawPiece(content) => content
                                            case RunPiece(value, len) => Repeat(value, len)
                                            case CodedPiece(_) => c.expand(f.header, fed, block)
  {
    hide ReadBlockHeader, PieceBytes, Produced, Kept, History, Window, Intact, Undisturbed, BlockOut;
    KeptCoversWindow(c, f, fed);
    PieceReadsBack(last, p, []);
    assert PieceBytes(last, p) + [] == PieceBytes(last, p);
    assert p.RunPiece? ==> PieceBytes(last, p)[3] == PieceBytes(last, p)[3..][0];
    IntactBlock(c, f, fed, PieceBytes(last, p));
  }

  // ------------------------------------------------------------------
  // The frame header
  // ------------------------------------------------------------------

  datatype FcsForm = S1 | S2 | S4 | S8

  datatype HeaderSpec = HeaderSpec(
    fcs: Option<(FcsForm, nat)>,
    singleSegment: bool,
    windowDescriptor: byte,
    dictId: Option<seq<byte>>,
    unusedBit: bool,
    reservedBit: bool,
    zeroChecksum: bool)

  function FormLen(form: FcsForm): nat {
    match form
    case S1 => 1
    case S2 => 2
    case S4 => 4
    case S8 => 8
  }

  function FcsFlag(spec: HeaderSpec): nat {
    match spec.fcs
    case None => 0
    case Some((S1, _)) => 0
    case Some((S2, _)) => 1
    case Some((S4, _)) => 2
    case Some((S8, _)) => 3
  }

  /** What the writer itself insists on: a dictionary field of 1, 2 or 4 bytes, and
      a content size the two-byte form can offset. */
  predicate Writable(spec: HeaderSpec) {
    && (spec.dictId.Some? ==> |spec.dictId.value| in {1, 2, 4})
    && (spec.fcs.Some? && spec.fcs.value.0 == S2 ==> spec.fcs.value.1 >= 256)
  }

  function DictCode(spec: HeaderSpec): (code: nat)
    requires Writable(spec)
    ensures code < 4
  {
    if spec.dictId.None? then 0
    else if |spec.dictId.value| == 1 then 1
    else if |spec.dictId.value| == 2 then 2
    else 3
  }

  function Bit(b: bool): nat {
    if b then 1 else 0
  }

  function Descriptor(spec: HeaderSpec): byte
    requires Writable(spec)
  {
    FcsFlag(spec) * 64 + Bit(spec.singleSegment) * 32 + Bit(spec.unusedBit) * 16 + Bit(spec.reservedBit) * 8
    + Bit(spec.zeroChecksum) * 4 + DictCode(spec)
  }

  function DictBytes(spec: HeaderSpec): seq<byte> {
    if spec.dictId.Some? then spec.dictId.value else []
  }

  function WindowBytes(spec: HeaderSpec): seq<byte> {
    if spec.singleSegment then [] else [spec.windowDescriptor]
  }

  /** The content size on the wire; the two-byte form is offset by 256. */
  function FcsBytes(spec: HeaderSpec): seq<byte>
    requires Writable(spec)
  {
    match spec.fcs
    case None => []
    case Some((form, size)) => WireSize(form, size)
  }

  function WireSize(form: FcsForm, size: nat): seq<byte>
    requires form == S2 ==> size >= 256
  {
    LeBytes(if form == S2 then size - 256 else size, FormLen(form))
  }

  function HeaderBytes(spec: HeaderSpec): seq<byte>
    requires Writable(spec)
  {
    MAGIC_BYTES + [Descriptor(spec)] + DictBytes(spec) + WindowBytes(spec) + FcsBytes(spec)
  }

  /** The writer, field by field: the dictionary field goes in front of the window
      byte. */
  method WriteHeader(spec: HeaderSpec) returns (out: seq<byte>)
    requires Writable(spec)
    ensures out == HeaderBytes(spec)
  {
    var fhd := FcsFlag(spec) * 64 + Bit(spec.singleSegment) * 32 + Bit(spec.unusedBit) * 16
               + Bit(spec.reservedBit) * 8 + DictCode(spec);
    if spec.zeroChecksum {
      fhd := fhd + 4;
    }
    out := MAGIC_BYTES + [fhd];
    assert fhd == Descriptor(spec) && out + [] == out;
    if spec.dictId.Some? {
      out := out + spec.dictId.value;
    }
    assert out == MAGIC_BYTES + [Descriptor(spec)] + DictBytes(spec) && out + [] == out;
    if !spec.singleSegment {
      out := out + [spec.windowDescriptor];
    }
    assert out == MAGIC_BYTES + [Descriptor(spec)] + DictBytes(spec) + WindowBytes(spec) && out + [] == out;
    if spec.fcs.Some? {
      out := out + WireSize(spec.fcs.value.0, spec.fcs.value.1);
    }
  }

  /** Forms the format has: the one-byte size goes with the single-segment flag and
      that flag with some size, and the size fits its field. */
  predicate FormsLegal(spec: HeaderSpec) {
    && Writable(spec)
    && (spec.singleSegment ==> spec.fcs.Some?)
    && (spec.fcs.Some? ==>
          var (form, size) := spec.fcs.value;
          && (form == S1 ==> spec.singleSegment)
          && (if form == S2 then size - 256 else size) < Pow256(FormLen(form)))
  }

  lemma DescriptorReadsBack(spec: HeaderSpec)
    requires FormsLegal(spec)
    ensures var d := Descriptor(spec);
            && SingleSegment(d) == spec.singleSegment
            && DictLen(d) == |DictBytes(spec)| && WindowLen(d) == |WindowBytes(spec)|
            && FcsLen(d) == |FcsBytes(spec)|
            && d / 8 % 2 == Bit(spec.reservedBit) && d / 4 % 2 == Bit(spec.zeroChecksum)
  {
    var d := Descriptor(spec);
    DescriptorDigits(FcsFlag(spec), Bit(spec.singleSegment), Bit(spec.unusedBit), Bit(spec.reservedBit),
                     Bit(spec.zeroChecksum), DictCode(spec));
    assert d % 4 == DictCode(spec);
    assert d / 64 == FcsFlag(spec);
  }

  lemma DescriptorDigits(f: nat, s: nat, u: nat, r: nat, k: nat, c: nat)
    requires f < 4 && s < 2 && u < 2 && r < 2 && k < 2 && c < 4
    ensures var d := f * 64 + s * 32 + u * 16 + r * 8 + k * 4 + c;
            d < 256 && d / 64 == f && d / 32 % 2 == s && d / 8 % 2 == r && d / 4 % 2 == k && d % 4 == c
  {
  }

  /** The two fields behind the descriptor as the parser splits them: it takes the
      window byte first. */
  function MiddleBytes(spec: HeaderSpec): seq<byte> {
    DictBytes(spec) + WindowBytes(spec)
  }

  /** What the parser makes of a written header, whatever follows it: every field,
      with the window and the dictionary read in the parser's order. */
  function ReadAs(spec: HeaderSpec): Result<HeaderParse, ParseError>
    requires FormsLegal(spec)
  {
    var middle := MiddleBytes(spec);
    if spec.reservedBit then Err(ReservedBit)
    else if !spec.singleSegment && WINDOWLOG_BASE + middle[0] / 8 > WINDOWLOG_MAX then Err(WindowTooLarge)
    else
      var size := if spec.fcs.Some? then Some(spec.fcs.value.1) else None;
      var window := if spec.singleSegment then spec.fcs.value.1 else WindowFromDescriptor(middle[0]);
      Ok(Complete(FullHeader(ZstdFrame, size, window, Min(window, MAX_BLOCK_CONTENT), |HeaderBytes(spec)|,
                             LeValue(middle[|WindowBytes(spec)|..]), spec.zeroChecksum)))
  }

  lemma FieldsSit(spec: HeaderSpec, t: seq<byte>)
    requires FormsLegal(spec)
    ensures var s := HeaderBytes(spec) + t;
            var m := 5 + |MiddleBytes(spec)|;
            && |HeaderBytes(spec)| == m + |FcsBytes(spec)|
            && s[..4] == MAGIC_BYTES && s[4] == Descriptor(spec)
            && s[5..m] == MiddleBytes(spec) && s[m..m + |FcsBytes(spec)|] == FcsBytes(spec)
  {
    hide Descriptor, FcsBytes;
  }

  lemma FcsReadsBack(spec: HeaderSpec)
    requires FormsLegal(spec) && spec.fcs.Some?
    ensures LeValue(FcsBytes(spec)) + (if |FcsBytes(spec)| == 2 then 256 else 0) == spec.fcs.value.1
  {
    var (form, size) := spec.fcs.value;
    LeRoundTrip(if form == S2 then size - 256 else size, FormLen(form));
  }

  lemma HeaderReadsBack(spec: HeaderSpec, t: seq<byte>)
    requires FormsLegal(spec)
    ensures ParseFullHeader(HeaderBytes(spec) + t) == ReadAs(spec)
  {
    hide HeaderBytes, Descriptor, FcsBytes, WindowFromDescriptor, LeValue;
    var s := HeaderBytes(spec) + t;
    FieldsSit(spec, t);
    DescriptorReadsBack(spec);
    MagicIsZstd();
    var m := 5 + |MiddleBytes(spec)|;
    var w := |WindowBytes(spec)|;
    assert s[5 + w..m] == s[5..m][w..];
    if !spec.singleSegment {
      assert s[5] == s[5..m][0];
    }
    if spec.fcs.Some? {
      FcsReadsBack(spec);
    }
    assert |FcsBytes(spec)| == 0 <==> spec.fcs.None? by { FcsWidth(spec); }
  }

  lemma FcsWidth(spec: HeaderSpec)
    requires FormsLegal(spec)
    ensures |FcsBytes(spec)| == 0 <==> spec.fcs.None?
  {
  }

  lemma MagicIsZstd()
    ensures LeValue(MAGIC_BYTES) == MAGIC && !SkippableMagic(MAGIC)
  {
    LeFour(MAGIC_BYTES);
  }

  /** Window descriptors name distinct windows. */
  lemma WindowsDistinct(a: byte, b: byte)
    requires a < b
    ensures WindowFromDescriptor(a) < WindowFromDescriptor(b)
  {
    var m, n := WINDOWLOG_BASE + a / 8, WINDOWLOG_BASE + b / 8;
    EightDivides(m);
    EightDivides(n);
    if m == n {
      Scaled(Pow2(m) / 8, a % 8, b % 8);
    } else {
      Pow2Grows(m, n);
      Scaled(Pow2(m) / 8, a % 8, 8);
      NonNegative(Pow2(n) / 8, b % 8);
    }
  }

  lemma Scaled(e: nat, x: nat, y: nat)
    requires e > 0 && x < y
    ensures e * x < e * y
  {
  }

  lemma NonNegative(e: nat, x: nat)
    ensures e * x >= 0
  {
  }

  lemma EightDivides(n: nat)
    requires n >= 10
    ensures Pow2(n) == 8 * Pow2(n - 3) && Pow2(n) / 8 == Pow2(n - 3)
  {
    assert Pow2(n) == 2 * Pow2(n - 1) && Pow2(n - 1) == 2 * Pow2(n - 2);
  }

  /** The parser recovers the header's window and dictionary ID. */
  ghost predicate Recovered(spec: HeaderSpec, t: seq<byte>)
    requires Writable(spec)
  {
    var r := ParseFullHeader(HeaderBytes(spec) + t);
    && r.Ok? && r.value.Complete?
    && (!spec.singleSegment ==> r.value.header.windowSize == WindowFromDescriptor(spec.windowDescriptor))
    && r.value.header.dictId == LeValue(DictBytes(spec))
  }

  /** RFC 8878 section 3.1.1.1 puts the window descriptor in front of the dictionary
      ID; the writer does the opposite. A legal header therefore reads back exactly
      when one of the two fields is absent, or swapping them changes nothing. */
  lemma HeaderRecoveredIff(spec: HeaderSpec, t: seq<byte>)
    requires FormsLegal(spec) && !spec.reservedBit
    requires !spec.singleSegment ==> WINDOWLOG_BASE + spec.windowDescriptor / 8 <= WINDOWLOG_MAX
    ensures Recovered(spec, t) <==>
              || spec.singleSegment || spec.dictId.None?
              || spec.dictId.value + [spec.windowDescriptor] == [spec.windowDescriptor] + spec.dictId.value
  {
    hide HeaderBytes, WindowFromDescriptor, FcsBytes, LeValue, ParseFullHeader;
    HeaderReadsBack(spec, t);
    var middle := MiddleBytes(spec);
    if spec.singleSegment || spec.dictId.None? {
      assert middle[|WindowBytes(spec)|..] == DictBytes(spec);
    } else {
      var dict, w := spec.dictId.value, spec.windowDescriptor;
      if dict + [w] == [w] + dict {
        assert middle[0] == w && middle[1..] == dict;
      } else if Recovered(spec, t) {
        if middle[0] < w {
          WindowsDistinct(middle[0], w);
        } else if w < middle[0] {
          WindowsDistinct(w, middle[0]);
        } else {
          assert middle == [w] + middle[1..];
          LeInjective(middle[1..], dict);
        }
      }
    }
  }

  // ------------------------------------------------------------------
  // Whole frames
  // ------------------------------------------------------------------

  function FrameBytes(spec: HeaderSpec, pieces: seq<Piece>): seq<byte>
    requires Writable(spec) && pieces != []
  {
    HeaderBytes(spec) + BodyBytes(pieces) + if spec.zeroChecksum then [0, 0, 0, 0] else []
  }

  /** A complete frame around one raw block. */
  method RawFrame(spec: HeaderSpec, payload: seq<byte>) returns (out: seq<byte>)
    requires Writable(spec)
    ensures out == FrameBytes(spec, [RawPiece(payload)])
  {
    hide ReadBlockHeader, HeaderBytes, BlockHead;
    out := WriteHeader(spec);
    out := PushBlock(out, true, Raw, payload);
    assert out == HeaderBytes(spec) + PieceBytes(true, RawPiece(payload));
    if spec.zeroChecksum {
      out := out + [0, 0, 0, 0];
    }
  }

  /** A frame of runs in front of one coded block. */
  method RunsThenCoded(spec: HeaderSpec, value: byte, len: nat, pre: nat, block: seq<byte>) returns (out: seq<byte>)
    requires Writable(spec) && !spec.zeroChecksum
    ensures out == FrameBytes(spec, Repeat(RunPiece(value, len), pre) + [CodedPiece(block)])
  {
    hide ReadBlockHeader, HeaderBytes, BlockHead, BodyBytes, HeaderAt;
    out := WriteHeader(spec);
    ghost var all := Repeat(RunPiece(value, len), pre) + [CodedPiece(block)];
    var i := 0;
    assert all[0..] == all;
    while i < pre
      invariant 0 <= i <= pre
      invariant all[i..] != [] && out + BodyBytes(all[i..]) == HeaderBytes(spec) + BodyBytes(all)
    {
      RunInFront(out, all, i, value, len);
      out := PushRleRun(out, false, value, len);
      i := i + 1;
    }
    CodedAlone(out, all[pre..], block);
    out := PushBlock(out, true, Compressed, block);
  }

  lemma RunInFront(out: seq<byte>, all: seq<Piece>, i: nat, value: byte, len: nat)
    requires i + 1 < |all| && all[i] == RunPiece(value, len)
    ensures all[i..] != [] && all[i + 1..] != []
    ensures out + BodyBytes(all[i..]) == (out + BlockHead(false, Rle, len) + [value]) + BodyBytes(all[i + 1..])
  {
    hide BlockHead;
    assert all[i..][1..] == all[i + 1..];
  }

  lemma CodedAlone(out: seq<byte>, rest: seq<Piece>, block: seq<byte>)
    requires rest == [CodedPiece(block)]
    ensures out + BodyBytes(rest) == out + BlockHead(true, Compressed, |block|) + block
  {
    hide BlockHead;
  }

  /** The parser measures a written frame exactly, whatever follows it. */
  lemma WrittenFrameMeasured(spec: HeaderSpec, pieces: seq<Piece>, t: seq<byte>)
    requires FormsLegal(spec) && pieces != [] && ReadAs(spec).Ok?
    requires Fits(pieces, true)
    ensures CompressedSize(FrameBytes(spec, pieces) + t) == Ok(|FrameBytes(spec, pieces)|)
  {
    hide HeaderBytes, BodyBytes, WalkBlocks, ParseFullHeader, ParseHeader;
    var trailer := if spec.zeroChecksum then [0, 0, 0, 0] else [];
    var h, b := HeaderBytes(spec), BodyBytes(pieces);
    var behind := b + (trailer + t);
    var s := FrameBytes(spec, pieces) + t;
    assert s == h + behind;
    HeaderReadsBack(spec, behind);
    ZstdNotSkippable(s);
    HeadersAgree(s);
    assert s[|h|..] == behind;
    WrittenBlocksWalk(pieces, trailer + t, true);
  }

  /** Raw frames: measured exactly when the payload is no larger than a block may
      be, and refused as malformed above that. */
  lemma RawFrameMeasuredIff(spec: HeaderSpec, payload: seq<byte>, t: seq<byte>)
    requires FormsLegal(spec) && ReadAs(spec).Ok? && |payload| < 0x20_0000
    ensures var frame := FrameBytes(spec, [RawPiece(payload)]);
            CompressedSize(frame + t) == if |payload| <= MAX_BLOCK_CONTENT then Ok(|frame|) else Err(Malformed)
  {
    var pieces := [RawPiece(payload)];
    if |payload| <= MAX_BLOCK_CONTENT {
      WrittenFrameMeasured(spec, pieces, t);
    } else {
      hide HeaderBytes, WalkBlocks, ParseFullHeader, ParseHeader, PieceBytes;
      var trailer := if spec.zeroChecksum then [0, 0, 0, 0] else [];
      var h, b := HeaderBytes(spec), PieceBytes(true, pieces[0]);
      var behind := b + (trailer + t);
      var s := FrameBytes(spec, pieces) + t;
      assert s == h + behind;
      HeaderReadsBack(spec, behind);
      ZstdNotSkippable(s);
      HeadersAgree(s);
      assert s[|h|..] == behind;
      OversizeRefused(pieces[0], trailer + t);
    }
  }

  lemma OversizeRefused(p: Piece, t: seq<byte>)
    requires !p.RunPiece? && MAX_BLOCK_CONTENT < p.Size() < 0x20_0000
    ensures WalkBlocks(PieceBytes(true, p) + t, true) == Corrupt
  {
    hide ReadBlockHeader, PieceBytes;
    PieceReadsBack(true, p, t);
  }

  /** The frame a written header opens. */
  function WrittenAs(spec: HeaderSpec): Frame
    requires FormsLegal(spec) && ReadAs(spec).Ok?
  {
    Frame(HeaderBytes(spec), ReadAs(spec).value.header.blockSizeMax, spec.zeroChecksum)
  }

  /** What a written frame stands for. */
  function Written(c: Codec, spec: HeaderSpec, pieces: seq<Piece>): seq<byte>
    requires Writable(spec)
  {
    Content(c, HeaderBytes(spec), [], pieces)
  }

  /** A written frame that keeps what its header says: the block limit, the window and the
      content size, and the checksum, if there is one, is the zero that is written. */
  ghost predicate KeepsWord(c: Codec, spec: HeaderSpec, pieces: seq<Piece>)
    requires FormsLegal(spec) && ReadAs(spec).Ok?
  {
    && Plain(WrittenAs(spec), pieces) && Decodable(c, HeaderBytes(spec), [], 0, pieces)
    && (spec.fcs.Some? ==> spec.fcs.value.1 == |Written(c, spec, pieces)|)
    && (spec.zeroChecksum ==> c.trailerOk(Written(c, spec, pieces), ZERO_CHECKSUM))
  }

  /** Reading such a frame, block by block or in one go, gives back what it stands for. */
  lemma WrittenFrameContent(c: Codec, spec: HeaderSpec, pieces: seq<Piece>)
    requires FormsLegal(spec) && pieces != [] && ReadAs(spec).Ok?
    requires c.opens(HeaderBytes(spec)) && KeepsWord(c, spec, pieces)
    ensures var content := Written(c, spec, pieces);
            && ScanFrame(c, FrameBytes(spec, pieces)) == Scan(content, Done(|FrameBytes(spec, pieces)|))
            && WholeFrame(c, FrameBytes(spec, pieces)) == Scan(content, Done(|FrameBytes(spec, pieces)|))
            && OneShot(c, FrameBytes(spec, pieces)) == Some(content)
  {
    hide HeaderBytes, BodyBytes, ScanBlocks, WholeBlocks, ScanFrame, WholeFrame, ParseFullHeader, Plain, Content,
      OneShot, Decodable;
    var trailer := if spec.zeroChecksum then ZERO_CHECKSUM else [];
    var f, h, b := WrittenAs(spec), HeaderBytes(spec), BodyBytes(pieces) + trailer;
    var s, content := FrameBytes(spec, pieces), Written(c, spec, pieces);
    assert s == h + b;
    HeaderReadsBack(spec, b);
    HeaderReadsBack(spec, []);
    assert h + [] == h;
    assert s[..|h|] == h && s[|h|..] == b;
    NothingProduced(c, f);
    assert WholeContent(c, f, []) + content == content;
    WrittenBlocksContent(c, f, [], pieces, trailer);
    assert [] + content == content;
    OpenScan(c, s);
    WholeBySize(c, s, content, |b|);
  }

  // ------------------------------------------------------------------
  // Skippable frames
  // ------------------------------------------------------------------

  function SkippableFrame(payload: seq<byte>, variant: nat): seq<byte> {
    LeBytes(SKIPPABLE_MIN + variant, 4) + LeBytes(|payload|, 4) + payload
  }

  method WriteSkippableFrame(dst: array<byte>, payload: seq<byte>, variant: nat) returns (r: Result<nat, ErrorCode>)
    modifies dst
    ensures r == if |payload| > 0xFFFF_FFFF then Err(SrcSizeWrong)
                 else if dst.Length < |payload| + 8 then Err(DstSizeTooSmall)
                 else if variant > 15 then Err(ParameterOutOfBound)
                 else Ok(|payload| + 8)
    ensures r.Ok? ==> dst[..] == SkippableFrame(payload, variant) + old(dst[..])[|payload| + 8..]
    ensures r.Err? ==> dst[..] == old(dst[..])
  {
    if |payload| > 0xFFFF_FFFF {
      return Err(SrcSizeWrong);
    }
    if dst.Length < |payload| + 8 {
      return Err(DstSizeTooSmall);
    }
    if variant > 15 {
      return Err(ParameterOutOfBound);
    }
    var head := LeBytes(SKIPPABLE_MIN + variant, 4) + LeBytes(|payload|, 4);
    forall i | 0 <= i < 8 {
      dst[i] := head[i];
    }
    forall i | 8 <= i < 8 + |payload| {
      dst[i] := payload[i - 8];
    }
    return Ok(|payload| + 8);
  }

  /** Its header is recognised in front of anything, by each parser. */
  lemma SkippableReadsBack(payload: seq<byte>, variant: nat, t: seq<byte>)
    requires |payload| <= 0xFFFF_FFFF && variant <= 15
    ensures var s := SkippableFrame(payload, variant) + t;
            && ParseFullHeader(s) == Ok(Complete(FullHeader(FrameType.SkippableFrame, Some(|payload|), 0, 0, 8, variant, false)))
            && ParseHeader(s) == Ok(Skippable(|payload| + 8)) && IsSkippable(s)
  {
    hide LeValue, LeBytes;
    var s := SkippableFrame(payload, variant) + t;
    assert s[..4] == LeBytes(SKIPPABLE_MIN + variant, 4) && s[4..8] == LeBytes(|payload|, 4);
    assert Pow256(4) == 0x1_0000_0000;
    LeRoundTrip(SKIPPABLE_MIN + variant, 4);
    LeRoundTrip(|payload|, 4);
  }

  /** What reading a skippable frame answers: its payload and magic variant. */
  function SkippableRead(src: seq<byte>, capacity: nat): Result<(seq<byte>, nat), ErrorCode> {
    if |src| < 8 then Err(SrcSizeWrong)
    else if !IsSkippable(src) then Err(FrameParameterUnsupported)
    else
      match SkippableFrameSize(src)
      case Err(e) => Err(e)
      case Ok(total) =>
        if total - 8 > capacity then Err(DstSizeTooSmall)
        else Ok((src[8..total], LeValue(src[..4]) - SKIPPABLE_MIN))
  }

  method ReadSkippableFrame(dst: array<byte>, src: seq<byte>) returns (r: Result<(nat, nat), ErrorCode>)
    modifies dst
    ensures match SkippableRead(src, dst.Length)
            case Err(e) => r == Err(e) && dst[..] == old(dst[..])
            case Ok((payload, variant)) =>
              r == Ok((|payload|, variant)) && dst[..] == payload + old(dst[..])[|payload|..]
  {
    hide LeValue;
    if |src| < 8 {
      return Err(SrcSizeWrong);
    }
    if !IsSkippable(src) {
      return Err(FrameParameterUnsupported);
    }
    var total := SkippableFrameSize(src);
    if total.Err? {
      return Err(total.error);
    }
    var content := total.value - 8;
    if content > dst.Length {
      return Err(DstSizeTooSmall);
    }
    forall i | 0 <= i < content {
      dst[i] := src[8 + i];
    }
    return Ok((content, LeValue(src[..4]) - SKIPPABLE_MIN));
  }

  /** Reading inverts writing up to 2^32 - 9 payload bytes; the writer also accepts
      the eight sizes above that, and the reader refuses those frames. */
  lemma SkippableRoundTripIff(payload: seq<byte>, variant: nat, capacity: nat, t: seq<byte>)
    requires |payload| <= 0xFFFF_FFFF && variant <= 15 && capacity >= |payload|
    ensures SkippableRead(SkippableFrame(payload, variant) + t, capacity)
         == if |payload| <= 0xFFFF_FFF7 then Ok((payload, variant)) else Err(FrameParameterUnsupported)
  {
    hide LeValue, LeBytes;
    var s := SkippableFrame(payload, variant) + t;
    assert s[..4] == LeBytes(SKIPPABLE_MIN + variant, 4) && s[4..8] == LeBytes(|payload|, 4);
    assert Pow256(4) == 0x1_0000_0000;
    LeRoundTrip(SKIPPABLE_MIN + variant, 4);
    LeRoundTrip(|payload|, 4);
    assert s[8..8 + |payload|] == payload;
  }
}
