/** Folds over a series of frames: the declared size, the tail a walk leaves, the
    decompression bound, and the margin in-place decoding needs. */
module FrameSeries {
  import opened Bytes
  import opened FrameHeader
  import opened FrameWalk

  const U64: nat := 0x1_0000_0000_0000_0000
  const CONTENTSIZE_ERROR: nat := U64 - 2

  // ------------------------------------------------------------------
  // The declared size of a series
  // ------------------------------------------------------------------

  datatype SeriesSize = Known(size: nat) | Unknown | NotExact

  /** The declared sizes of a series on top of `total`. */
  function DeclaredSize(src: seq<byte>, total: nat): (r: SeriesSize)
    ensures r.Known? ==> total <= r.size
    ensures r.Known? && total < 0x1_0000_0000_0000_0000 ==> r.size < 0x1_0000_0000_0000_0000
    decreases |src|
  {
    if |src| < HEADER_PREFIX then (if src == [] then Known(total) else NotExact)
    else
      hide ParseHeader, CompressedSize;
      match ParseHeader(src)
      case Err(_) => NotExact
      case Ok(Skippable(whole)) => if |src| < whole then NotExact else DeclaredSize(src[whole..], total)
      case Ok(Zstd(info)) =>
        if info.contentSize.None? then Unknown
        else if total + info.contentSize.value >= U64 then NotExact
        else
          var whole := CompressedSize(src);
          if whole.Err? then NotExact
          else
            DeclaredSize(src[whole.value..], total + info.contentSize.value)
  }

  method FindDecompressedSize(src: seq<byte>) returns (r: SeriesSize)
    ensures r == DeclaredSize(src, 0)
  {
    hide ParseHeader, CompressedSize;
    var total: nat := 0;
    var rest := src;
    while true
      invariant DeclaredSize(src, 0) == DeclaredSize(rest, total)
      decreases |rest|
    {
      if |rest| < HEADER_PREFIX {
        return if rest == [] then Known(total) else NotExact;
      }
      var header := ParseHeader(rest);
      if header.Err? {
        return NotExact;
      }
      if header.value.Skippable? {
        if |rest| < header.value.total {
          return NotExact;
        }
        rest := rest[header.value.total..];
        continue;
      }
      var info := header.value.info;
      if |rest| < info.headerLen {
        return NotExact;
      }
      if info.contentSize.None? {
        return Unknown;
      }
      if total + info.contentSize.value >= U64 {
        return NotExact;
      }
      var whole := FrameCompressedSize(rest);
      if whole.Err? {
        return NotExact;
      }
      total := total + info.contentSize.value;
      rest := rest[whole.value..];
    }
  }

  /** A frame at the head of a longer input is measured the same. */
  lemma FrameKept(s: seq<byte>, t: seq<byte>)
    requires CompressedSize(s).Ok?
    ensures ParseHeader(s).Ok? && ParseHeader(s + t) == ParseHeader(s)
    ensures CompressedSize(s + t) == CompressedSize(s)
  {
    hide ParseHeader, WalkBody;
    var n := CompressedSize(s).value;
    HeaderExtends(s, t);
    CompressedSizeDelimits(s, s[n..] + t, 0);
    assert s[..n] + (s[n..] + t) == s + t;
  }

  /** Declared sizes add up: an exact series in front only contributes its own
      total. */
  lemma {:induction false} DeclaredSizeAdds(a: seq<byte>, b: seq<byte>, total: nat)
    requires DeclaredSize(a, total).Known?
    ensures DeclaredSize(a + b, total) == DeclaredSize(b, DeclaredSize(a, total).size)
    decreases |a|
  {
    hide ParseHeader, CompressedSize;
    if a == [] {
      assert a + b == b;
    } else {
      var whole := FirstFrame(a, total);
      FrameKept(a, b);
      var total' := total + if ParseHeader(a).value.Zstd? then ParseHeader(a).value.info.contentSize.value else 0;
      DeclaredSizeAdds(a[whole..], b, total');
      assert (a + b)[whole..] == a[whole..] + b;
    }
  }

  /** The first frame of a known series. */
  lemma FirstFrame(s: seq<byte>, total: nat) returns (whole: nat)
    requires s != [] && DeclaredSize(s, total).Known?
    ensures |s| >= HEADER_PREFIX && ParseHeader(s).Ok? && CompressedSize(s) == Ok(whole) && 0 < whole <= |s|
    ensures ParseHeader(s).value.Skippable? ==>
              ParseHeader(s).value.total == whole && DeclaredSize(s, total) == DeclaredSize(s[whole..], total)
    ensures ParseHeader(s).value.Zstd? ==>
              var size := ParseHeader(s).value.info.contentSize;
              && size.Some? && total + size.value < U64
              && DeclaredSize(s, total) == DeclaredSize(s[whole..], total + size.value)
  {
    hide ParseHeader, WalkBody;
    whole := CompressedSize(s).value;
  }

  /** Behind known frames stands one that declares no size. */
  ghost predicate StopsUnsized(src: seq<byte>, total: nat, n: nat) {
    && n + HEADER_PREFIX <= |src| && DeclaredSize(src[..n], total).Known?
    && ParseHeader(src[n..]).Ok? && ParseHeader(src[n..]).value.Zstd?
    && ParseHeader(src[n..]).value.info.contentSize.None?
  }

  /** A series is of unknown size exactly when known frames lead to one without a declared
      size; whatever else keeps it from being known is an error. */
  lemma UnknownIff(src: seq<byte>, total: nat)
    ensures DeclaredSize(src, total).Unknown? <==> exists n: nat :: StopsUnsized(src, total, n)
  {
    if DeclaredSize(src, total).Unknown? {
      var n := UnsizedAt(src, total);
    }
    if n: nat :| StopsUnsized(src, total, n) {
      DeclaredSizeAdds(src[..n], src[n..], total);
      assert src[..n] + src[n..] == src;
      hide ParseHeader, CompressedSize;
    }
  }

  lemma {:induction false} UnsizedAt(src: seq<byte>, total: nat) returns (n: nat)
    requires DeclaredSize(src, total).Unknown?
    ensures StopsUnsized(src, total, n)
    decreases |src|
  {
    hide ParseHeader, CompressedSize;
    if ParseHeader(src).value.Zstd? && ParseHeader(src).value.info.contentSize.None? {
      n := 0;
      assert src[0..] == src;
    } else {
      var whole, total' := UnknownPast(src, total);
      var k := UnsizedAt(src[whole..], total');
      n := whole + k;
      DeclaredSizeAdds(src[..whole], src[whole..][..k], total);
      assert src[..whole] + src[whole..][..k] == src[..n] && src[whole..][k..] == src[n..];
    }
  }

  /** The first frame of a series that is unknown behind it. */
  lemma UnknownPast(src: seq<byte>, total: nat) returns (whole: nat, total': nat)
    requires DeclaredSize(src, total).Unknown?
    requires ParseHeader(src).Ok? && ParseHeader(src).value.Zstd? ==> ParseHeader(src).value.info.contentSize.Some?
    ensures 0 < whole <= |src| && DeclaredSize(src[..whole], total) == Known(total')
    ensures DeclaredSize(src[whole..], total').Unknown?
  {
    hide ParseHeader, WalkBody;
    whole := CompressedSize(src).value;
    total' := total + if ParseHeader(src).value.Zstd? then ParseHeader(src).value.info.contentSize.value else 0;
    var one := src[..whole];
    CompressedSizeDelimits(src, [], 0);
    assert one + [] == one;
    OneKnown(src, whole, total);
  }

  lemma OneKnown(src: seq<byte>, whole: nat, total: nat)
    requires CompressedSize(src) == Ok(whole) && CompressedSize(src[..whole]) == Ok(whole)
    requires ParseHeader(src).Ok?
    requires ParseHeader(src).value.Zstd? ==>
               ParseHeader(src).value.info.contentSize.Some? && total + ParseHeader(src).value.info.contentSize.value < U64
    ensures DeclaredSize(src[..whole], total)
         == Known(total + if ParseHeader(src).value.Zstd? then ParseHeader(src).value.info.contentSize.value else 0)
  {
    hide ParseHeader, WalkBody;
    var one := src[..whole];
    FrameKept(one, src[whole..]);
    assert one + src[whole..] == src && one[whole..] == [];
    hide CompressedSize;
    LongFrame(one);
  }

  lemma LongFrame(s: seq<byte>)
    requires CompressedSize(s).Ok?
    ensures |s| >= HEADER_PREFIX
  {
  }

  // ------------------------------------------------------------------
  // The tail a series walk leaves
  // ------------------------------------------------------------------

  datatype SeriesTail = SeriesTail(tail: seq<byte>, realFrameDone: bool)

  /** Complete frames are passed until the rest is too short or is no frame. */
  function TailOf(src: seq<byte>): (r: SeriesTail)
    decreases |src|
  {
    hide ParseHeader, CompressedSize;
    if |src| < HEADER_PREFIX || CompressedSize(src).Err? then SeriesTail(src, false)
    else
      var rest := TailOf(src[CompressedSize(src).value..]);
      SeriesTail(rest.tail, rest.realFrameDone || !(ParseHeader(src).Ok? && ParseHeader(src).value.Skippable?))
  }

  method FrameSeriesWalk(src: seq<byte>) returns (tail: seq<byte>, realFrameDone: bool)
    ensures SeriesTail(tail, realFrameDone) == TailOf(src)
  {
    hide ParseHeader, CompressedSize;
    var pos := 0;
    realFrameDone := false;
    while |src| - pos >= HEADER_PREFIX
      invariant 0 <= pos <= |src|
      invariant TailOf(src) == SeriesTail(TailOf(src[pos..]).tail, realFrameDone || TailOf(src[pos..]).realFrameDone)
      decreases |src| - pos
    {
      var size := FrameCompressedSize(src[pos..]);
      if size.Err? || pos + size.value > |src| {
        break;
      }
      var header := ParseHeader(src[pos..]);
      realFrameDone := realFrameDone || !(header.Ok? && header.value.Skippable?);
      assert src[pos..][size.value..] == src[pos + size.value..];
      pos := pos + size.value;
    }
    tail := src[pos..];
  }

  /** The tail is what is left behind whole frames: a suffix on which the walk
      cannot go on. */
  lemma {:induction false} TailIsStuckSuffix(src: seq<byte>)
    ensures var tail := TailOf(src).tail;
            && |tail| <= |src| && tail == src[|src| - |tail|..]
            && (|tail| < HEADER_PREFIX || CompressedSize(tail).Err?)
    decreases |src|
  {
    hide ParseHeader, CompressedSize;
    if |src| >= HEADER_PREFIX && CompressedSize(src).Ok? {
      var n := CompressedSize(src).value;
      TailIsStuckSuffix(src[n..]);
      TailOfTail(src, n, |TailOf(src).tail|);
    }
  }

  lemma TailOfTail(s: seq<byte>, n: nat, k: nat)
    requires n + k <= |s|
    ensures s[n..][|s| - n - k..] == s[|s| - k..]
  {
  }

  /** An exact series of known sizes leaves no tail, and is passed whole in front
      of anything else. */
  lemma {:induction false} KnownSeriesLeavesNoTail(a: seq<byte>, b: seq<byte>, total: nat)
    requires DeclaredSize(a, total).Known?
    ensures TailOf(a).tail == []
    ensures TailOf(a + b).tail == TailOf(b).tail
    decreases |a|
  {
    hide ParseHeader, CompressedSize;
    if a == [] {
      assert a + b == b;
    } else {
      var whole := FirstFrame(a, total);
      FrameKept(a, b);
      var total' := total + if ParseHeader(a).value.Zstd? then ParseHeader(a).value.info.contentSize.value else 0;
      KnownSeriesLeavesNoTail(a[whole..], b, total');
      assert (a + b)[whole..] == a[whole..] + b;
    }
  }

  /** The walk passes a frame that ends at `n`, or starts there. */
  predicate Reaches(src: seq<byte>, n: nat)
    decreases |src|
  {
    hide ParseHeader, CompressedSize;
    n == 0 ||
    (|src| >= HEADER_PREFIX && CompressedSize(src).Ok? && CompressedSize(src).value <= n
     && Reaches(src[CompressedSize(src).value..], n - CompressedSize(src).value))
  }

  /** At `n` the walk passes a frame with content. */
  ghost predicate RealAt(src: seq<byte>, n: nat) {
    && Reaches(src, n) && n + HEADER_PREFIX <= |src| && CompressedSize(src[n..]).Ok?
    && ParseHeader(src[n..]).Ok? && ParseHeader(src[n..]).value.Zstd?
  }

  /** The flag says whether any frame passed was more than a skippable one. */
  lemma {:induction false} RealFrameIff(src: seq<byte>)
    ensures TailOf(src).realFrameDone <==> exists n: nat :: RealAt(src, n)
    decreases |src|
  {
    hide ParseHeader, CompressedSize;
    assert src[0..] == src;
    if |src| >= HEADER_PREFIX && CompressedSize(src).Ok? {
      var size := CompressedSize(src).value;
      RealFrameIff(src[size..]);
      HeaderOfMeasured(src);
      if TailOf(src).realFrameDone && !RealAt(src, 0) {
        var k: nat :| RealAt(src[size..], k);
        assert src[size..][k..] == src[size + k..];
        assert RealAt(src, size + k);
      }
      if n: nat :| RealAt(src, n) {
        if n > 0 {
          assert src[size..][n - size..] == src[n..];
          assert RealAt(src[size..], n - size);
        }
      }
    }
  }

  lemma HeaderOfMeasured(src: seq<byte>)
    requires CompressedSize(src).Ok?
    ensures ParseHeader(src).Ok?
  {
    hide ParseHeader, WalkBody;
  }

  // ------------------------------------------------------------------
  // The decompression bound
  // ------------------------------------------------------------------

  function WrappingAdd(a: nat, b: nat): nat {
    (a + b) % U64
  }

  /** The summed bounds of a series, wrapping at 64 bits; None when any walk
      fails. */
  function BoundFrom(src: seq<byte>, bound: nat): (r: Option<nat>)
    decreases |src|
  {
    if src == [] then Some(bound)
    else
      hide SizeInfo;
      match SizeInfo(src)
      case Err(_) => None
      case Ok(info) => BoundFrom(src[info.compressedSize..], WrappingAdd(bound, info.decompressedBound))
  }

  method DecompressBound(src: seq<byte>) returns (bound: nat)
    ensures bound == match BoundFrom(src, 0) case Some(b) => b case None => 0xFFFF_FFFF_FFFF_FFFE
  {
    hide SizeInfo, WrappingAdd;
    bound := 0;
    var rest := src;
    while rest != []
      invariant BoundFrom(src, 0) == BoundFrom(rest, bound)
      decreases |rest|
    {
      var info := FrameSizeInfoOf(rest);
      if info.Err? {
        return CONTENTSIZE_ERROR;
      }
      bound := WrappingAdd(bound, info.value.decompressedBound);
      rest := rest[info.value.compressedSize..];
    }
  }

  /** No skippable frame of the series has a size field that wraps 32 bits. */
  predicate NoWrappingSkips(src: seq<byte>)
    decreases |src|
  {
    hide ParseHeader, CompressedSize;
    (ParseHeader(src).Ok? && CompressedSize(src).Ok?) ==>
      && (ParseHeader(src).value.Skippable? ==> ParseHeader(src).value.total < 0x1_0000_0000)
      && NoWrappingSkips(src[CompressedSize(src).value..])
  }

  /** On an exact series of known sizes the bound is the declared size itself. */
  lemma {:induction false} BoundIsDeclaredSize(src: seq<byte>, total: nat)
    requires DeclaredSize(src, total).Known? && total < U64 && NoWrappingSkips(src)
    ensures BoundFrom(src, total) == Some(DeclaredSize(src, total).size)
    decreases |src|
  {
    hide ParseHeader, CompressedSize, SizeInfo;
    if src != [] {
      var whole := FirstFrame(src, total);
      FrameBound(src);
      var total' := total + if ParseHeader(src).value.Zstd? then ParseHeader(src).value.info.contentSize.value else 0;
      BoundIsDeclaredSize(src[whole..], total');
    }
  }

  /** The bound of one frame whose size the metadata walk finds. */
  lemma FrameBound(src: seq<byte>)
    requires ParseHeader(src).Ok? && CompressedSize(src).Ok?
    requires ParseHeader(src).value.Skippable? ==> ParseHeader(src).value.total < 0x1_0000_0000
    ensures SizeInfo(src).Ok? && SizeInfo(src).value.compressedSize == CompressedSize(src).value
    ensures ParseHeader(src).value.Skippable? ==> SizeInfo(src).value.decompressedBound == 0
    ensures ParseHeader(src).value.Zstd? && ParseHeader(src).value.info.contentSize.Some? ==>
              SizeInfo(src).value.decompressedBound == ParseHeader(src).value.info.contentSize.value
  {
    SizeWalksAgree(src);
    HeadersAgree(src);
    SkippableByHeader(src);
    hide ParseHeader, ParseFullHeader, CompressedSize, WalkBody, SkippableFrameSize, IsSkippable;
  }

  lemma SkippableByHeader(src: seq<byte>)
    requires ParseHeader(src).Ok?
    ensures ParseHeader(src).value.Skippable? <==> IsSkippable(src)
  {
  }
}
