/** Bytes, little-endian fields and the two result types the model uses. */
module Bytes {

  type byte = x: int | 0 <= x < 256

  datatype Option<+T> = None | Some(value: T)

  datatype Result<+T, +E> = Ok(value: T) | Err(error: E)

  function Min(a: int, b: int): (m: int)
    ensures m <= a && m <= b && (m == a || m == b)
  {
    if a < b then a else b
  }

  function Max(a: int, b: int): (m: int)
    ensures m >= a && m >= b && (m == a || m == b)
  {
    if a < b then b else a
  }

  function Clamp(v: int, lower: int, upper: int): (c: int)
    requires lower <= upper
    ensures lower <= c <= upper && (lower <= v <= upper ==> c == v)
  {
    if v < lower then lower else if v > upper then upper else v
  }

  function Pow2(n: nat): (p: nat)
    ensures p >= 1
  {
    if n == 0 then 1 else 2 * Pow2(n - 1)
  }

  lemma {:induction false} Pow2Grows(a: nat, b: nat)
    requires a < b
    ensures 2 * Pow2(a) <= Pow2(b)
  {
    if a + 1 < b {
      Pow2Grows(a, b - 1);
    }
  }

  /** The index of the highest set bit. */
  function HighBit(v: nat): (l: nat)
    requires v > 0
    ensures Pow2(l) <= v < 2 * Pow2(l)
  {
    if v == 1 then 0 else 1 + HighBit(v / 2)
  }

  function Pow256(n: nat): (p: nat)
    ensures p >= 1
  {
    if n == 0 then 1 else 256 * Pow256(n - 1)
  }

  /** The value of a little-endian field. */
  function LeValue(s: seq<byte>): (v: nat)
  {
    if s == [] then 0 else s[0] + 256 * LeValue(s[1..])
  }

  /** The low `n` bytes of `v`, least significant first. */
  function LeBytes(v: nat, n: nat): (s: seq<byte>)
    ensures |s| == n
  {
    if n == 0 then [] else [v % 256] + LeBytes(v / 256, n - 1)
  }

  lemma {:induction false} LeValueBound(s: seq<byte>)
    ensures LeValue(s) < Pow256(|s|)
  {
    if s != [] {
      LeValueBound(s[1..]);
    }
  }

  /** Writing a value and reading it back keeps its low `n` bytes. */
  lemma {:induction false} LeRoundTrip(v: nat, n: nat)
    requires v < Pow256(n)
    ensures LeValue(LeBytes(v, n)) == v
  {
    if n > 0 {
      LeRoundTrip(v / 256, n - 1);
      assert LeBytes(v, n)[1..] == LeBytes(v / 256, n - 1);
    }
  }

  /** Equal-length fields with equal values are equal. */
  lemma {:induction false} LeInjective(s: seq<byte>, t: seq<byte>)
    requires |s| == |t| && LeValue(s) == LeValue(t)
    ensures s == t
  {
    if s != [] {
      assert s[0] == LeValue(s) % 256 && t[0] == LeValue(t) % 256;
      LeInjective(s[1..], t[1..]);
      assert s == [s[0]] + s[1..] && t == [t[0]] + t[1..];
    }
  }

  lemma LeFour(s: seq<byte>)
    requires |s| == 4
    ensures LeValue(s) == s[0] as int + 256 * s[1] as int + 65536 * s[2] as int + 16777216 * s[3] as int
  {
    assert LeValue(s[1..]) == s[1] + 256 * LeValue(s[1..][1..]);
    assert s[1..][1..] == s[2..] && s[2..][1..] == s[3..] && s[3..][1..] == [];
    assert LeValue(s[3..]) == s[3];
    assert LeValue(s[2..]) == s[2] + 256 * LeValue(s[3..]);
  }

  /** `n` copies of `b`. */
  function Repeat<T>(b: T, n: nat): (s: seq<T>)
    ensures |s| == n && forall i :: 0 <= i < n ==> s[i] == b
  {
    seq(n, _ => b)
  }

  /** Only the span from `a` to `b` of a buffer was written. */
  ghost predicate Wrote(before: seq<byte>, after: seq<byte>, a: nat, b: nat) {
    && a <= b <= |before| == |after|
    && after[..a] == before[..a]
    && after[b..] == before[b..]
  }

  lemma WroteNone(s: seq<byte>, a: nat)
    requires a <= |s|
    ensures Wrote(s, s, a, a) && s[a..a] == []
  {
  }

  lemma WroteThen(before: seq<byte>, middle: seq<byte>, after: seq<byte>, a: nat, b: nat, c: nat)
    requires Wrote(before, middle, a, b) && Wrote(middle, after, b, c)
    ensures Wrote(before, after, a, c)
    ensures after[a..c] == middle[a..b] + after[b..c]
  {
    assert after[..a] == after[..b][..a] && middle[..a] == middle[..b][..a];
    assert after[a..b] == after[..b][a..] && middle[a..b] == middle[..b][a..];
    assert before[c..] == before[b..][c - b..] && middle[c..] == middle[b..][c - b..];
    assert after[a..c] == after[a..b] + after[b..c];
  }

  lemma DeliverWrote(before: seq<byte>, after: seq<byte>, piece: seq<byte>, a: nat, b: nat)
    requires a <= b <= |before| && |piece| == b - a
    requires after == before[..a] + piece + before[b..]
    ensures Wrote(before, after, a, b) && after[a..b] == piece
  {
  }
}
