/** Backward bitstreams (RFC 8878 section 4.2.2): writers that set bits downwards
    from an end marker, against a reader that starts at that marker. */
module Bitstreams {
  import opened Arith
  import opened Bytes

  /** Bit `p` of a stream, bit 0 being the lowest of the first byte. */
  function BitAt(s: seq<byte>, p: nat): (b: nat)
    requires p < 8 * |s|
    ensures b < 2
  {
    BitOf(s[p / 8], p % 8)
  }

  /** Where a reader starts: the highest set bit of the last byte. A last byte of
      zero has no marker. */
  function Marker(s: seq<byte>): Option<nat> {
    if s == [] || s[|s| - 1] == 0 then None else Some(8 * (|s| - 1) + HighBit(s[|s| - 1]))
  }

  /** The next `n` bits below position `pos`, first bit read most significant. */
  function ReadDown(s: seq<byte>, pos: nat, n: nat): nat
    requires n <= pos <= 8 * |s|
  {
    if n == 0 then 0 else 2 * ReadDown(s, pos, n - 1) + BitAt(s, pos - n)
  }

  /** `count` two-bit codes read downwards from `pos`. */
  function ReadCodes(s: seq<byte>, pos: nat, count: nat): seq<nat>
    requires 2 * count <= pos <= 8 * |s|
  {
    if count == 0 then [] else [ReadDown(s, pos, 2)] + ReadCodes(s, pos - 2, count - 1)
  }

  // ------------------------------------------------------------------
  // Setting bits
  // ------------------------------------------------------------------

  /** `b | 1 << k`. */
  function SetBit(b: byte, k: nat): byte
    requires k < 8
  {
    if BitOf(b, k) == 1 then b
    else
      assert Pow2(8) == 256;
      BitFits(b, k, 8);
      b + Pow2(k)
  }

  lemma SetBitBits(b: byte, k: nat, j: nat)
    requires k < 8 && j < 8
    ensures BitOf(SetBit(b, k), j) == if j == k then 1 else BitOf(b, j)
  {
    hide BitOf;
    if BitOf(b, k) == 0 {
      BitAdds(b, k, j);
    }
  }

  lemma SetBitAt(s: seq<byte>, p: nat, q: nat)
    requires p < 8 * |s| && q < 8 * |s|
    ensures BitAt(s[p / 8 := SetBit(s[p / 8], p % 8)], q) == if q == p then 1 else BitAt(s, q)
  {
    hide BitOf, SetBit;
    if q / 8 == p / 8 {
      SetBitBits(s[p / 8], p % 8, q % 8);
    }
  }

  // ------------------------------------------------------------------
  // Two-bit code streams
  // ------------------------------------------------------------------

  /** The bits of the codes, in writing order: high bit first. */
  function CodeBits(codes: seq<byte>): (bits: seq<nat>)
    ensures |bits| == 2 * |codes|
  {
    if codes == [] then []
    else
      var front := CodeBits(codes[..|codes| - 1]);
      var c := codes[|codes| - 1];
      front + [c / 2 % 2, c % 2]
  }

  /** Bit `p` of a stream of these bits below a marker. */
  function StreamBit(bits: seq<nat>, marker: nat, p: nat): nat {
    if p == marker then 1
    else if p < marker && marker - 1 - p < |bits| then bits[marker - 1 - p]
    else 0
  }

  ghost predicate Holds(s: seq<byte>, bits: seq<nat>, marker: nat) {
    forall p :: 0 <= p < 8 * |s| ==> BitAt(s, p) == StreamBit(bits, marker, p)
  }

  lemma BitAdded(s: seq<byte>, s': seq<byte>, bits: seq<nat>, marker: nat, b: nat)
    requires Holds(s, bits, marker) && |bits| < marker < 8 * |s| && b < 2
    requires var p := marker - 1 - |bits|;
             s' == if b == 1 then s[p / 8 := SetBit(s[p / 8], p % 8)] else s
    ensures Holds(s', bits + [b], marker)
  {
    var p := marker - 1 - |bits|;
    forall q | 0 <= q < 8 * |s'|
      ensures BitAt(s', q) == StreamBit(bits + [b], marker, q)
    {
      SetBitAt(s, p, q);
      assert BitAt(s, q) == StreamBit(bits, marker, q);
    }
  }

  /** Write one bit below the ones already there. */
  method WriteBit(out: array<byte>, bit: nat, b: nat, ghost bits: seq<nat>, ghost marker: nat)
    requires Holds(out[..], bits, marker) && |bits| < marker < 8 * out.Length && b < 2
    requires bit == marker - 1 - |bits|
    modifies out
    ensures Holds(out[..], bits + [b], marker)
  {
    ghost var before := out[..];
    if b == 1 {
      out[bit / 8] := SetBit(out[bit / 8], bit % 8);
    }
    BitAdded(before, out[..], bits, marker, b);
  }

  /** Write a code's two bits, the high one first. */
  method WriteCode(out: array<byte>, top: nat, code: byte, ghost bits: seq<nat>, ghost marker: nat)
    returns (bit: nat)
    requires Holds(out[..], bits, marker) && |bits| + 2 <= marker < 8 * out.Length
    requires top == marker - |bits|
    modifies out
    ensures bit == top - 2
    ensures Holds(out[..], bits + [code / 2 % 2, code % 2], marker)
  {
    bit := top - 1;
    WriteBit(out, bit, code / 2 % 2, bits, marker);
    bit := bit - 1;
    WriteBit(out, bit, code % 2, bits + [code / 2 % 2], marker);
    assert bits + [code / 2 % 2] + [code % 2] == bits + [code / 2 % 2, code % 2];
  }

  /** Write the marker, then each code below it. */
  method WriteCodes(codes: seq<byte>, size: nat, marker: nat) returns (s: seq<byte>)
    requires 2 * |codes| <= marker < 8 * size && 8 * (size - 1) <= marker
    ensures |s| == size && Carries(s, codes, marker)
  {
    var out := new byte[size](_ => 0);
    ghost var blank := out[..];
    assert blank == Repeat(0, size);
    out[marker / 8] := SetBit(out[marker / 8], marker % 8);
    MarkerSet(size, out[..], marker);
    var i, bit := 0, marker;
    while i < |codes|
      invariant 0 <= i <= |codes| && bit == marker - 2 * i
      invariant Holds(out[..], CodeBits(codes[..i]), marker)
    {
      assert codes[..i + 1][..i] == codes[..i];
      bit := WriteCode(out, bit, codes[i], CodeBits(codes[..i]), marker);
      i := i + 1;
    }
    assert codes[..i] == codes;
    StreamReadsBack(out[..], codes, marker);
    return out[..];
  }

  lemma MarkerSet(size: nat, s: seq<byte>, marker: nat)
    requires marker < 8 * size
    requires s == Repeat(0, size)[marker / 8 := SetBit(0, marker % 8)]
    ensures Holds(s, CodeBits([]), marker)
  {
    forall p | 0 <= p < 8 * |s|
      ensures BitAt(s, p) == StreamBit([], marker, p)
    {
      SetBitAt(Repeat(0, size), marker, p);
      ZeroBelow(0, Pow2(p % 8));
    }
  }

  /** The codes as a two-bit reader sees them. */
  function TwoBits(codes: seq<byte>): (t: seq<nat>)
    ensures |t| == |codes| && forall i :: 0 <= i < |t| ==> t[i] == codes[i] % 4
  {
    seq(|codes|, i requires 0 <= i < |codes| => codes[i] % 4)
  }

  /** What a reader makes of a stream: its marker is found, the codes come back in
      order, and every leftover bit below them is zero. */
  ghost predicate Carries(s: seq<byte>, codes: seq<byte>, marker: nat) {
    && 2 * |codes| <= marker < 8 * |s|
    && Marker(s) == Some(marker)
    && ReadCodes(s, marker, |codes|) == TwoBits(codes)
    && Blank(s, marker - 2 * |codes|)
  }

  /** The lowest `n` bits are zero. */
  ghost predicate Blank(s: seq<byte>, n: nat)
    requires n <= 8 * |s|
  {
    forall p :: 0 <= p < n ==> BitAt(s, p) == 0
  }

  /** The marker at the top of `size` bytes: 8 * size - 1 - 2 * |codes| bits are left
      over. */
  method Huff2Stream(codes: seq<byte>, size: nat) returns (s: seq<byte>)
    requires 2 * |codes| < 8 * size
    ensures |s| == size && Carries(s, codes, 8 * size - 1)
  {
    s := WriteCodes(codes, size, size * 8 - 1);
  }

  /** Ten codes that use up a three-byte buffer to its last bit: none left over. */
  method Huff2TightStream(codes: seq<byte>) returns (s: seq<byte>)
    requires |codes| == 10
    ensures |s| == 3 && Carries(s, codes, 2 * |codes|)
  {
    s := WriteCodes(codes, 3, 20);
  }

  /** Codes below a marker at the top of four bytes: with ten, eleven left over. */
  method Huff2LeftoverStream(codes: seq<byte>) returns (s: seq<byte>)
    requires 2 * |codes| <= 31
    ensures |s| == 4 && Carries(s, codes, 31)
    ensures |codes| == 10 ==> Carries(s, codes, 2 * |codes| + 11)
  {
    s := WriteCodes(codes, 4, 31);
  }

  lemma StreamReadsBack(s: seq<byte>, codes: seq<byte>, marker: nat)
    requires 2 * |codes| <= marker < 8 * |s| && 8 * (|s| - 1) <= marker
    requires Holds(s, CodeBits(codes), marker)
    ensures Carries(s, codes, marker)
  {
    hide CodeBits, ReadCodes, Marker, Holds, TwoBits, Blank;
    MarkerFound(s, CodeBits(codes), marker);
    CodesReadBack(s, codes, marker, 0);
    assert TwoBits(codes)[0..] == TwoBits(codes);
    RestBlank(s, CodeBits(codes), marker);
  }

  lemma RestBlank(s: seq<byte>, bits: seq<nat>, marker: nat)
    requires Holds(s, bits, marker) && |bits| <= marker < 8 * |s|
    ensures Blank(s, marker - |bits|)
  {
    hide BitAt;
    forall p | 0 <= p < marker - |bits|
      ensures BitAt(s, p) == 0
    {
      assert BitAt(s, p) == StreamBit(bits, marker, p);
    }
  }

  lemma WrittenBit(s: seq<byte>, bits: seq<nat>, marker: nat, k: nat)
    requires Holds(s, bits, marker) && k < |bits| <= marker < 8 * |s|
    ensures BitAt(s, marker - 1 - k) == bits[k]
  {
    assert BitAt(s, marker - 1 - k) == StreamBit(bits, marker, marker - 1 - k);
  }

  lemma MarkerFound(s: seq<byte>, bits: seq<nat>, marker: nat)
    requires |bits| <= marker < 8 * |s| && 8 * (|s| - 1) <= marker
    requires Holds(s, bits, marker)
    ensures Marker(s) == Some(marker)
  {
    assert BitAt(s, marker) == StreamBit(bits, marker, marker);
    forall p | marker < p < 8 * |s|
      ensures BitAt(s, p) == 0
    {
      assert BitAt(s, p) == StreamBit(bits, marker, p);
    }
    MarkerAt(s, marker);
  }

  /** The marker is the topmost set bit, when that lies in the last byte. */
  lemma MarkerAt(s: seq<byte>, marker: nat)
    requires marker < 8 * |s| && 8 * (|s| - 1) <= marker
    requires BitAt(s, marker) == 1 && forall p :: marker < p < 8 * |s| ==> BitAt(s, p) == 0
    ensures Marker(s) == Some(marker)
  {
    hide BitOf, HighBit;
    var base := 8 * (|s| - 1);
    var last, k := s[|s| - 1], marker - base;
    assert BitAt(s, marker) == BitOf(last, k);
    forall j | k < j < 8
      ensures BitOf(last, j) == 0
    {
      assert BitAt(s, base + j) == BitOf(last, j);
    }
    assert Pow2(8) == 256;
    TopBit(last, k, 8);
  }

  lemma {:induction false} CodesReadBack(s: seq<byte>, codes: seq<byte>, marker: nat, i: nat)
    requires i <= |codes| && 2 * |codes| <= marker < 8 * |s|
    requires Holds(s, CodeBits(codes), marker)
    ensures ReadCodes(s, marker - 2 * i, |codes| - i) == TwoBits(codes)[i..]
    decreases |codes| - i
  {
    hide CodeBits, BitAt, Holds;
    if i < |codes| {
      CodesReadBack(s, codes, marker, i + 1);
      CodeReadsBack(s, codes, marker, i);
    }
  }

  lemma CodeReadsBack(s: seq<byte>, codes: seq<byte>, marker: nat, i: nat)
    requires i < |codes| && 2 * |codes| <= marker < 8 * |s|
    requires Holds(s, CodeBits(codes), marker)
    ensures ReadDown(s, marker - 2 * i, 2) == codes[i] % 4
  {
    hide BitAt, CodeBits, Holds;
    var bits, pos := CodeBits(codes), marker - 2 * i;
    CodeBitsOf(codes, i);
    WrittenBit(s, bits, marker, 2 * i);
    WrittenBit(s, bits, marker, 2 * i + 1);
    assert ReadDown(s, pos, 1) == 2 * ReadDown(s, pos, 0) + BitAt(s, pos - 1);
    CodeDigits(codes[i]);
  }

  lemma {:induction false} CodeBitsOf(codes: seq<byte>, i: nat)
    requires i < |codes|
    ensures CodeBits(codes)[2 * i] == codes[i] / 2 % 2 && CodeBits(codes)[2 * i + 1] == codes[i] % 2
  {
    if i < |codes| - 1 {
      CodeBitsOf(codes[..|codes| - 1], i);
    }
  }

  lemma CodeDigits(c: byte)
    ensures 2 * (c / 2 % 2) + c % 2 == c % 4
  {
  }

  // ------------------------------------------------------------------
  // Extra bits
  // ------------------------------------------------------------------

  /** Bytes for `n` bits and a marker. */
  function ExtraBytes(n: nat): nat {
    (n + 8) / 8
  }

  /** `n` bits carrying `v` below a marker: the bytes are pushed high to low, then
      turned round. */
  method ExtraBitsStream(n: nat, v: nat) returns (s: seq<byte>)
    requires n < 64 && v < Pow2(n)
    ensures s == LeBytes(Pow2(n) + v, ExtraBytes(n))
    ensures Marker(s) == Some(n) && ReadDown(s, n, n) == v
  {
    var region, size := Pow2(n) + v, ExtraBytes(n);
    var out: seq<byte> := [];
    for i := 0 to size
      invariant |out| == i && forall j :: 0 <= j < i ==> out[j] == region / Pow256(size - 1 - j) % 256
    {
      out := out + [region / Pow256(size - 1 - i) % 256];
    }
    s := seq(size, i requires 0 <= i < size => out[size - 1 - i]);
    forall j | 0 <= j < size
      ensures s[j] == LeBytes(region, size)[j]
    {
      LeByteAt(region, size, j);
    }
    ExtraBitsReadBack(n, v);
  }

  lemma {:induction false} LeByteAt(v: nat, n: nat, j: nat)
    requires j < n
    ensures LeBytes(v, n)[j] == v / Pow256(j) % 256
  {
    if j > 0 {
      LeByteAt(v / 256, n - 1, j - 1);
      DivDiv(v, 256, Pow256(j - 1));
    }
  }

  /** A bit of a stream is a bit of its little-endian value. */
  lemma {:induction false} BitOfValue(s: seq<byte>, p: nat)
    requires p < 8 * |s|
    ensures BitAt(s, p) == BitOf(LeValue(s), p)
  {
    var rest := LeValue(s[1..]);
    if p < 8 {
      BitOfFirst(s[0], rest, p);
    } else {
      BitOfValue(s[1..], p - 8);
      assert BitAt(s[1..], p - 8) == BitAt(s, p);
      BitOfRest(s[0], rest, p);
    }
  }

  lemma BitOfFirst(low: byte, rest: nat, p: nat)
    requires p < 8
    ensures BitOf(low + 256 * rest, p) == BitOf(low, p)
  {
    Pow2Adds(p, 8 - p);
    assert Pow2(8) == 256;
    SplitLow(low, rest, Pow2(p), Pow2(7 - p));
  }

  lemma BitOfRest(low: byte, rest: nat, p: nat)
    requires p >= 8
    ensures BitOf(low + 256 * rest, p) == BitOf(rest, p - 8)
  {
    Pow2Adds(8, p - 8);
    assert Pow2(8) == 256;
    DivDiv(low + 256 * rest, 256, Pow2(p - 8));
  }

  lemma SplitLow(low: nat, rest: nat, p: nat, e: nat)
    requires p > 0 && p * (2 * e) == 256
    ensures (low + 256 * rest) / p % 2 == low / p % 2
  {
    MulAssociates(p, 2 * e, rest);
    MulAssociates(2, e, rest);
    ParityKept(low, p, e * rest);
  }

  /** Reading downwards reads a field of the value. */
  lemma {:induction false} ReadDownValue(s: seq<byte>, pos: nat, n: nat)
    requires n <= pos <= 8 * |s|
    ensures ReadDown(s, pos, n) == LeValue(s) / Pow2(pos - n) % Pow2(n)
  {
    hide BitAt, LeValue;
    if n > 0 {
      ReadDownValue(s, pos, n - 1);
      BitOfValue(s, pos - n);
      FieldStep(LeValue(s), Pow2(pos - n), Pow2(n - 1));
    }
  }

  lemma FieldStep(v: nat, p: nat, m: nat)
    requires p > 0 && m > 0
    ensures 2 * (v / (2 * p) % m) + v / p % 2 == v / p % (2 * m)
  {
    DivDiv(v, p, 2);
    HalfMod(v / p, m);
  }

  lemma HalfMod(w: nat, p: nat)
    requires p > 0
    ensures w % (2 * p) == 2 * (w / 2 % p) + w % 2
  {
    var q, r := w / 2 / p, w / 2 % p;
    Euclid(w / 2, p);
    MulAssociates(2, p, q);
    DivUnique(w, 2 * p, q, 2 * r + w % 2);
    Euclid(w, 2 * p);
  }

  /** The stream is the little-endian encoding of 2^n + v, and reads back as `n` bits
      of `v` below a marker. */
  lemma ExtraBitsReadBack(n: nat, v: nat)
    requires v < Pow2(n)
    ensures var s := LeBytes(Pow2(n) + v, ExtraBytes(n));
            && Marker(s) == Some(n)
            && LeValue(s) == Pow2(n) + v
            && ReadDown(s, n, n) == v
  {
    hide LeBytes, LeValue, BitAt, BitOf, Marker, ReadDown;
    var region, size := Pow2(n) + v, ExtraBytes(n);
    var s := LeBytes(region, size);
    PowersAgree(size);
    if n + 1 < 8 * size { Pow2Grows(n + 1, 8 * size); }
    LeRoundTrip(region, size);
    BitOfValue(s, n);
    HighBitIs(region, n);
    HighBitSet(region);
    forall p | n < p < 8 * size
      ensures BitAt(s, p) == 0
    {
      BitOfValue(s, p);
      if n + 1 < p { Pow2Grows(n + 1, p); }
      AboveIsClear(region, p);
    }
    MarkerAt(s, n);
    ReadDownValue(s, n, n);
    LowBits(v, Pow2(n));
  }

  lemma LowBits(v: nat, p: nat)
    requires v < p
    ensures (p + v) / Pow2(0) % p == v
  {
    DivUnique(p + v, p, 1, v);
    Euclid(p + v, p);
  }

  lemma HighBitIs(x: nat, k: nat)
    requires Pow2(k) <= x < 2 * Pow2(k)
    ensures HighBit(x) == k
  {
    var l := HighBit(x);
    if l < k { Pow2Grows(l, k); } else if k < l { Pow2Grows(k, l); }
  }

  lemma {:induction false} PowersAgree(n: nat)
    ensures Pow256(n) == Pow2(8 * n)
  {
    if n > 0 {
      PowersAgree(n - 1);
      Pow2Adds(8, 8 * (n - 1));
      assert Pow2(8) == 256;
    }
  }
}
