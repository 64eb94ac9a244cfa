/** Structure-mode programs of the encoder fuzz target: small byte programs expanded
    into large payloads by literal, repeat, noise and padding events, and the writers
    that build them. */
module Programs {
  import opened Arith
  import opened Bytes

  /** Two full blocks of output at most. */
  const EXPAND_CAP: nat := 256 * 1024

  // ------------------------------------------------------------------
  // Pseudo-random bytes
  // ------------------------------------------------------------------

  function Next(s: bv64): bv64 {
    Mix17(Mix7(Mix13(s)))
  }

  function Mix13(x: bv64): bv64 {
    x ^ (x << 13)
  }

  function Mix7(x: bv64): bv64 {
    x ^ (x >> 7)
  }

  function Mix17(x: bv64): bv64 {
    x ^ (x << 17)
  }

  function LowByte(s: bv64): byte {
    ((s >> 33) & 0xff) as int
  }

  /** The generator never gets stuck at zero. */
  lemma NextNonzero(s: bv64)
    requires s != 0
    ensures Next(s) != 0
  {
    hide Mix13, Mix7, Mix17;
    Mix13Nonzero(s);
    Mix7Nonzero(Mix13(s));
    Mix17Nonzero(Mix7(Mix13(s)));
  }

  lemma Mix13Nonzero(x: bv64)
    requires x != 0
    ensures Mix13(x) != 0
  {
  }

  lemma Mix7Nonzero(x: bv64)
    requires x != 0
    ensures Mix7(x) != 0
  {
  }

  lemma Mix17Nonzero(x: bv64)
    requires x != 0
    ensures Mix17(x) != 0
  {
  }

  /** FNV-1a over the program, forced odd. */
  function ProgramSeed(prog: seq<byte>): (s: bv64)
    ensures s != 0
  {
    OddNonzero(Fnv(prog));
    Fnv(prog) | 1
  }

  lemma OddNonzero(s: bv64)
    ensures s | 1 != 0
  {
  }

  function Fnv(prog: seq<byte>): bv64 {
    if prog == [] then 0x9e37_79b9_7f4a_7c15
    else (Fnv(prog[..|prog| - 1]) ^ (prog[|prog| - 1] as bv64)) * 0x0000_0100_0000_01b3
  }

  /** `n` random bytes and the generator behind them. */
  function RandomBytes(s: bv64, n: nat): (r: (seq<byte>, bv64))
    ensures |r.0| == n
  {
    if n == 0 then ([], s)
    else
      var (front, t) := RandomBytes(s, n - 1);
      (front + [LowByte(Next(t))], Next(t))
  }

  /** Overwrite `flips` random positions of a span with random bytes. */
  function Flipped(span: seq<byte>, s: bv64, flips: nat): (r: (seq<byte>, bv64))
    requires span != []
    ensures |r.0| == |span|
  {
    if flips == 0 then (span, s)
    else
      var (before, t) := Flipped(span, s, flips - 1);
      var place := Next(t);
      (before[place as int % |span| := LowByte(Next(place))], Next(place))
  }

  /** How many positions of two spans differ. */
  function Differing(a: seq<byte>, b: seq<byte>): nat
    requires |a| == |b|
  {
    if a == [] then 0
    else
      var n := |a| - 1;
      Differing(a[..n], b[..n]) + if a[n] != b[n] then 1 else 0
  }

  lemma {:induction false} OneMoreDiffers(a: seq<byte>, b: seq<byte>, p: nat, x: byte)
    requires |a| == |b| && p < |b|
    ensures Differing(a, b[p := x]) <= Differing(a, b) + 1
  {
    var n := |a| - 1;
    if p < n {
      assert b[p := x][..n] == b[..n][p := x];
      OneMoreDiffers(a[..n], b[..n], p, x);
    } else {
      assert b[p := x][..n] == b[..n];
    }
  }

  lemma {:induction false} SameDoesNotDiffer(a: seq<byte>)
    ensures Differing(a, a) == 0
  {
    if a != [] {
      SameDoesNotDiffer(a[..|a| - 1]);
    }
  }

  /** Flipping changes at most `flips` bytes of the span. */
  lemma {:induction false} FlipsAreFew(span: seq<byte>, s: bv64, flips: nat)
    requires span != []
    ensures Differing(span, Flipped(span, s, flips).0) <= flips
  {
    hide Next, LowByte;
    if flips == 0 {
      SameDoesNotDiffer(span);
    } else {
      FlipsAreFew(span, s, flips - 1);
      var (before, t) := Flipped(span, s, flips - 1);
      OneMoreDiffers(span, before, Next(t) as int % |span|, LowByte(Next(Next(t))));
    }
  }

  // ------------------------------------------------------------------
  // Events
  // ------------------------------------------------------------------

  datatype Event =
    | Lit(bytes: seq<byte>)
    | Rep(dist: nat, len: nat, flips: nat)
    | Noise(n: nat)
    | Pad(n: nat, value: byte)

  /** Bytes behind the end of a program read as zero. */
  function Operand(prog: seq<byte>, i: nat): byte {
    if i < |prog| then prog[i] else 0
  }

  function U16Field(prog: seq<byte>, i: nat): nat {
    Operand(prog, i) + 256 * Operand(prog, i + 1)
  }

  function U24Field(prog: seq<byte>, i: nat): nat {
    U16Field(prog, i) + 65536 * Operand(prog, i + 2)
  }

  /** The event at `i` and where the next one starts. */
  function EventAt(prog: seq<byte>, i: nat): (r: (Event, nat))
    requires i < |prog|
    ensures i < r.1 <= |prog|
  {
    var tag, at := prog[i], i + 1;
    if tag / 64 == 0 then
      var n := Min(tag % 64 + 1, |prog| - at);
      (Lit(prog[at..at + n]), at + n)
    else if tag / 64 == 1 then
      (Rep(U24Field(prog, at) + 1, U16Field(prog, at + 3) + 1, Operand(prog, at + 5) % 16), Min(at + 6, |prog|))
    else if tag / 64 == 2 then
      (Noise(U24Field(prog, at) + 1), Min(at + 3, |prog|))
    else
      (Pad(U24Field(prog, at) + 1, Operand(prog, at + 3)), Min(at + 4, |prog|))
  }

  function Decode(prog: seq<byte>, i: nat): seq<Event>
    decreases |prog| - i
  {
    if i >= |prog| then [] else [EventAt(prog, i).0] + Decode(prog, EventAt(prog, i).1)
  }

  /** Position `k` of a pattern of length `d`, repeated. */
  function Wrapped(k: nat, d: nat): (w: nat)
    requires d > 0
    ensures w < d
  {
    k % d
  }

  /** An overlapping copy from `dist` back, as a value: the last `dist` bytes of the
      history, repeated for as long as it takes. */
  function Copied(history: seq<byte>, dist: nat, len: nat): (span: seq<byte>)
    requires 0 < dist <= |history|
    ensures |span| == len
    ensures forall k :: 0 <= k < len ==> span[k] == history[|history| - dist + Wrapped(k, dist)]
  {
    seq(len, k requires 0 <= k < len => history[|history| - dist + Wrapped(k, dist)])
  }

  datatype State = State(out: seq<byte>, rng: bv64)

  /** What an event does to an expansion with room left. */
  function Apply(e: Event, dict: seq<byte>, s: State): (s': State)
    requires |s.out| < EXPAND_CAP
    ensures s.out <= s'.out && |s'.out| <= EXPAND_CAP
  {
    var room := EXPAND_CAP - |s.out|;
    match e
    case Lit(bytes) => State(s.out + bytes[..Min(|bytes|, room)], s.rng)
    case Rep(dist, len, flips) =>
      var history := dict + s.out;
      if history == [] || dist == 0 || len == 0 then s
      else
        var (span, rng) := Flipped(Copied(history, Min(dist, |history|), Min(len, room)), s.rng, flips);
        State(s.out + span, rng)
    case Noise(n) =>
      var (bytes, rng) := RandomBytes(s.rng, Min(n, room));
      State(s.out + bytes, rng)
    case Pad(n, value) => State(s.out + Repeat(value, Min(n, room)), s.rng)
  }

  /** Events one after the other, until the cap. */
  function Run(events: seq<Event>, dict: seq<byte>, s: State): (s': State)
    requires |s.out| <= EXPAND_CAP
    ensures s.out <= s'.out && |s'.out| <= EXPAND_CAP
  {
    if events == [] || |s.out| == EXPAND_CAP then s else Run(events[1..], dict, Apply(events[0], dict, s))
  }

  /** The dictionary the program byte asks for, and the generator behind it. */
  function Dictionary(prog: seq<byte>): (Option<seq<byte>>, bv64) {
    var ph := Operand(prog, 0);
    if ph % 2 == 0 then (None, ProgramSeed(prog))
    else
      var (bytes, rng) := RandomBytes(ProgramSeed(prog), Pow2(Min(4 + ph / 2 % 16, 19)));
      (Some(bytes), rng)
  }

  function Expand(prog: seq<byte>): (r: (seq<byte>, Option<seq<byte>>))
    ensures |r.0| <= EXPAND_CAP
  {
    var (dict, rng) := Dictionary(prog);
    (Run(Decode(prog, 1), if dict.Some? then dict.value else [], State([], rng)).out, dict)
  }

  // ------------------------------------------------------------------
  // The interpreter
  // ------------------------------------------------------------------

  method FillRandom(s: bv64, n: nat) returns (bytes: seq<byte>, rng: bv64)
    ensures (bytes, rng) == RandomBytes(s, n)
  {
    hide Next, LowByte;
    bytes, rng := [], s;
    for i := 0 to n
      invariant (bytes, rng) == RandomBytes(s, i)
    {
      rng := Next(rng);
      bytes := bytes + [LowByte(rng)];
    }
  }

  /** The byte-by-byte copy through the virtual history: an overlapping copy reads
      the bytes it has just written. */
  method CopyBack(dict: seq<byte>, given: seq<byte>, dist: nat, len: nat) returns (out: seq<byte>)
    requires dist > 0 && |dict| + |given| > 0
    ensures out == given + Copied(dict + given, Min(dist, |dict| + |given|), len)
  {
    out := given;
    var history := |dict| + |given|;
    var reach := Min(dist, history);
    var base := history - reach;
    for j := 0 to len
      invariant out == given + Copied(dict + given, reach, j)
    {
      CopyStep(dict, given, reach, j);
      var b := if base + j < |dict| then dict[base + j] else out[base + j - |dict|];
      out := out + [b];
    }
  }

  lemma CopyStep(dict: seq<byte>, out: seq<byte>, reach: nat, j: nat)
    requires 0 < reach <= |dict| + |out|
    ensures var at := |dict| + |out| - reach + j;
            var copied := Copied(dict + out, reach, j);
            && (dict + (out + copied))[at] == (dict + out)[|dict| + |out| - reach + Wrapped(j, reach)]
            && out + Copied(dict + out, reach, j + 1) == out + copied + [(dict + (out + copied))[at]]
  {
    hide Wrapped;
    var history := dict + out;
    var copied := Copied(history, reach, j);
    var at := |history| - reach + j;
    assert dict + (out + copied) == history + copied;
    OnePeriod(j, reach);
    if j >= reach {
      assert (history + copied)[at] == copied[j - reach];
    }
    assert Copied(history, reach, j + 1) == copied + [history[|history| - reach + Wrapped(j, reach)]];
  }

  lemma OnePeriod(j: nat, d: nat)
    requires 0 < d
    ensures Wrapped(j, d) == if j < d then j else Wrapped(j - d, d)
  {
    if j < d {
      ModUnique(j, d, 0, j);
    } else {
      Euclid(j, d);
      DivAtLeast(j, d);
      MulNext(d, j / d - 1);
      ModUnique(j - d, d, j / d - 1, j % d);
    }
  }

  lemma DivAtLeast(j: nat, d: nat)
    requires 0 < d <= j
    ensures j / d >= 1
  {
  }

  /** Overwrite random bytes between `start` and the end. */
  method Flip(given: seq<byte>, start: nat, s: bv64, flips: nat) returns (out: seq<byte>, rng: bv64)
    requires start < |given|
    ensures (out, rng) == (given[..start] + Flipped(given[start..], s, flips).0, Flipped(given[start..], s, flips).1)
  {
    hide Next, LowByte;
    out, rng := given, s;
    assert given == given[..start] + given[start..];
    for i := 0 to flips
      invariant |out| == |given|
      invariant out == given[..start] + Flipped(given[start..], s, i).0 && rng == Flipped(given[start..], s, i).1
    {
      rng := Next(rng);
      var p := start + rng as int % (|out| - start);
      rng := Next(rng);
      out := out[p := LowByte(rng)];
    }
  }

  method ExpandRepeat(dict: seq<byte>, s: State, dist: nat, len: nat, flips: nat) returns (s': State)
    requires |s.out| < EXPAND_CAP && dist > 0 && len > 0
    ensures s' == Apply(Rep(dist, len, flips), dict, s)
  {
    hide Flipped;
    var hist := |dict| + |s.out|;
    if hist == 0 {
      return s;
    }
    var start := |s.out|;
    var out := CopyBack(dict, s.out, dist, Min(len, EXPAND_CAP - start));
    assert out[..start] == s.out && out[start..] == out[start..][..];
    var rng;
    out, rng := Flip(out, start, s.rng, flips);
    return State(out, rng);
  }

  /** One event: where the next one starts may fall short of the program's own
      answer only when the cap is reached. */
  method Step(prog: seq<byte>, at: nat, dict: seq<byte>, s: State) returns (s': State, next: nat)
    requires at < |prog| && |s.out| < EXPAND_CAP
    ensures s' == Apply(EventAt(prog, at).0, dict, s)
    ensures at < next <= |prog| && (|s'.out| < EXPAND_CAP ==> next == EventAt(prog, at).1)
  {
    hide Flipped, RandomBytes;
    var tag, i := prog[at], at + 1;
    match tag / 64
    case 0 =>
      var n := Min(Min(tag % 64 + 1, |prog| - i), EXPAND_CAP - |s.out|);
      next := i + n;
      assert prog[i..][..n] == prog[i..i + n];
      LitClamped(prog, i, Min(tag % 64 + 1, |prog| - i), EXPAND_CAP - |s.out|);
      return State(s.out + prog[i..i + n], s.rng), next;
    case 1 =>
      s' := ExpandRepeat(dict, s, U24Field(prog, i) + 1, U16Field(prog, i + 3) + 1, Operand(prog, i + 5) % 16);
      next := Min(i + 6, |prog|);
    case 2 =>
      var bytes, rng := FillRandom(s.rng, Min(U24Field(prog, i) + 1, EXPAND_CAP - |s.out|));
      return State(s.out + bytes, rng), Min(i + 3, |prog|);
    case _ =>
      var n := Min(U24Field(prog, i) + 1, EXPAND_CAP - |s.out|);
      return State(s.out + Repeat(Operand(prog, i + 3), n), s.rng), Min(i + 4, |prog|);
  }

  lemma LitClamped(prog: seq<byte>, i: nat, n: nat, room: nat)
    requires i + n <= |prog|
    ensures prog[i..i + n][..Min(n, room)] == prog[i..i + Min(n, room)]
  {
  }

  /** Every program expands, within the cap, to what its events say. */
  method ExpandProgram(prog: seq<byte>) returns (out: seq<byte>, dict: Option<seq<byte>>)
    ensures (out, dict) == Expand(prog)
  {
    hide RandomBytes, Apply, EventAt;
    var rng := ProgramSeed(prog);
    var ph := Operand(prog, 0);
    dict := None;
    var content: seq<byte> := [];
    if ph % 2 != 0 {
      content, rng := FillRandom(rng, Pow2(Min(4 + ph / 2 % 16, 19)));
      dict := Some(content);
    }
    var s := State([], rng);
    var i := 1;
    while i < |prog| && |s.out| < EXPAND_CAP
      invariant |s.out| <= EXPAND_CAP
      invariant Run(Decode(prog, i), content, s) == Run(Decode(prog, 1), content, State([], rng))
      decreases |prog| - i
    {
      s, i := Step(prog, i, content, s);
    }
    return s.out, dict;
  }

  // ------------------------------------------------------------------
  // Whole programs
  // ------------------------------------------------------------------

  /** Running a program is running its first part and then the rest on what that
      left. */
  lemma {:induction false} RunAppend(a: seq<Event>, b: seq<Event>, dict: seq<byte>, s: State)
    requires |s.out| <= EXPAND_CAP
    ensures Run(a + b, dict, s) == Run(b, dict, Run(a, dict, s))
  {
    hide Apply;
    if a == [] {
      assert a + b == b;
    } else if |s.out| < EXPAND_CAP {
      assert (a + b)[1..] == a[1..] + b;
      RunAppend(a[1..], b, dict, Apply(a[0], dict, s));
    }
  }

  /** A repeat is periodic over dictionary and output: before its flips each byte is
      the one `dist` back. */
  lemma RepeatIsPeriodic(dict: seq<byte>, s: State, dist: nat, len: nat)
    requires |s.out| + len <= EXPAND_CAP && 0 < dist <= |dict| + |s.out| && len > 0
    ensures var history, out := dict + s.out, Apply(Rep(dist, len, 0), dict, s).out;
            && |out| == |s.out| + len
            && forall k :: |history| <= k < |history| + len ==> (dict + out)[k] == (dict + out)[k - dist]
  {
    var history := dict + s.out;
    var span := Copied(history, dist, len);
    RepeatCopies(dict, s, dist, len);
    hide Apply, Copied;
    assert dict + (s.out + span) == history + span;
    forall k | |history| <= k < |history| + len
      ensures (history + span)[k] == (history + span)[k - dist]
    {
      CopiedBack(history, dist, len, k - |history|);
    }
  }

  lemma RepeatCopies(dict: seq<byte>, s: State, dist: nat, len: nat)
    requires |s.out| + len <= EXPAND_CAP && 0 < dist <= |dict| + |s.out| && len > 0
    ensures Apply(Rep(dist, len, 0), dict, s).out == s.out + Copied(dict + s.out, dist, len)
    ensures |Copied(dict + s.out, dist, len)| == len
  {
    hide Copied;
  }

  lemma CopiedBack(history: seq<byte>, dist: nat, len: nat, j: nat)
    requires 0 < dist <= |history| && j < len
    ensures (history + Copied(history, dist, len))[|history| + j]
         == (history + Copied(history, dist, len))[|history| + j - dist]
  {
    hide Wrapped;
    OnePeriod(j, dist);
  }

  /** Bytes that are each `dist` behind their copies are determined by the history:
      the recursive reading of a copy is the periodic one. */
  lemma {:induction false} PeriodicIsUnique(history: seq<byte>, span: seq<byte>, dist: nat)
    requires 0 < dist <= |history|
    requires forall k :: |history| <= k < |history| + |span| ==> (history + span)[k] == (history + span)[k - dist]
    ensures span == Copied(history, dist, |span|)
  {
    hide Wrapped;
    if span != [] {
      var n := |span| - 1;
      var front := span[..n];
      assert forall k :: 0 <= k < |history| + n ==> (history + front)[k] == (history + span)[k];
      PeriodicIsUnique(history, front, dist);
      OnePeriod(n, dist);
      assert (history + span)[|history| + n] == (history + span)[|history| + n - dist];
      assert n >= dist ==> (history + span)[|history| + n - dist] == front[n - dist];
      assert span[n] == history[|history| - dist + Wrapped(n, dist)];
      assert Copied(history, dist, n + 1) == Copied(history, dist, n) + [span[n]];
      assert span == front + [span[n]];
    }
  }

  /** Events a writer can put into a program. */
  predicate Writable(e: Event) {
    match e
    case Lit(bytes) => 1 <= |bytes| <= 64
    case Rep(dist, len, flips) => 1 <= dist <= 0x100_0000 && 1 <= len <= 65535 && flips < 16
    case Noise(n) => 1 <= n <= 0x100_0000
    case Pad(n, _) => 1 <= n <= 0x100_0000
  }

  function EventBytes(e: Event): (b: seq<byte>)
    requires Writable(e)
    ensures |b| > 0
  {
    match e
    case Lit(bytes) => [|bytes| - 1] + bytes
    case Rep(dist, len, flips) => [0x40] + LeBytes(dist - 1, 3) + LeBytes(len - 1, 2) + [flips]
    case Noise(n) => [0x80] + LeBytes(n - 1, 3)
    case Pad(n, value) => [0xc0] + LeBytes(n - 1, 3) + [value]
  }

  method PushU24(prog: seq<byte>, v: nat) returns (out: seq<byte>)
    ensures out == prog + LeBytes(v, 3)
  {
    out := prog + [v % 256];
    out := out + [v / 256 % 256];
    out := out + [v / 65536 % 256];
    ThreeBytes(v);
  }

  lemma ThreeBytes(v: nat)
    ensures LeBytes(v, 3) == [v % 256, v / 256 % 256, v / 65536 % 256]
    ensures LeBytes(v, 2) == [v % 256, v / 256 % 256]
  {
    var w, x := v / 256, v / 65536;
    Quarter(v);
    OneByte(x);
    OneByte(w);
    assert LeBytes(w, 2) == [w % 256] + LeBytes(x, 1);
    assert LeBytes(v, 3) == [v % 256] + LeBytes(w, 2);
    assert LeBytes(v, 2) == [v % 256] + LeBytes(w, 1);
  }

  lemma Quarter(v: nat)
    ensures v / 65536 == v / 256 / 256
  {
  }

  lemma OneByte(v: nat)
    ensures LeBytes(v, 1) == [v % 256]
  {
    assert LeBytes(v / 256, 0) == [];
  }

  method PushNoise(prog: seq<byte>, n: nat) returns (out: seq<byte>)
    requires Writable(Noise(n))
    ensures out == prog + EventBytes(Noise(n))
    ensures forall after :: EventAt(out + after, |prog|) == (Noise(n), |out|)
  {
    forall after
      ensures EventAt(prog + EventBytes(Noise(n)) + after, |prog|) == (Noise(n), |prog + EventBytes(Noise(n))|)
    {
      EventReadsBack(prog, Noise(n), after);
    }
    hide EventAt;
    out := PushU24(prog + [0x80], n - 1);
  }

  method PushRepeat(prog: seq<byte>, dist: nat, len: nat, flips: nat) returns (out: seq<byte>)
    requires Writable(Rep(dist, len, flips))
    ensures out == prog + EventBytes(Rep(dist, len, flips))
    ensures forall after :: EventAt(out + after, |prog|) == (Rep(dist, len, flips), |out|)
  {
    var e := Rep(dist, len, flips);
    forall after
      ensures EventAt(prog + EventBytes(e) + after, |prog|) == (e, |prog + EventBytes(e)|)
    {
      EventReadsBack(prog, e, after);
    }
    hide EventAt;
    out := PushU24(prog + [0x40], dist - 1);
    out := out + LeBytes(len - 1, 2);
    out := out + [flips];
  }

  function ProgramBytes(events: seq<Event>): seq<byte>
    requires forall i :: 0 <= i < |events| ==> Writable(events[i])
  {
    if events == [] then [] else EventBytes(events[0]) + ProgramBytes(events[1..])
  }

  /** A written event is read back, and reading stops behind it. */
  lemma EventReadsBack(before: seq<byte>, e: Event, after: seq<byte>)
    requires Writable(e)
    ensures EventAt(before + EventBytes(e) + after, |before|) == (e, |before| + |EventBytes(e)|)
  {
    hide EventAt, EventBytes;
    match e
    case Lit(bytes) => LitReadsBack(before, bytes, after);
    case Rep(dist, len, flips) => RepReadsBack(before, dist, len, flips, after);
    case Noise(n) => NoiseReadsBack(before, n, after);
    case Pad(n, value) => PadReadsBack(before, n, value, after);
  }

  /** The bytes behind a written event, from its first on. */
  lemma WrittenAt(before: seq<byte>, b: seq<byte>, after: seq<byte>, k: nat)
    requires k < |b|
    ensures |before| + k < |before + b + after| && Operand(before + b + after, |before| + k) == b[k]
  {
  }

  lemma U24ReadsBack(before: seq<byte>, b: seq<byte>, after: seq<byte>, k: nat, v: nat)
    requires k + 3 <= |b| && b[k..k + 3] == LeBytes(v, 3) && v < 0x100_0000
    ensures U24Field(before + b + after, |before| + k) == v
  {
    hide LeBytes, Operand;
    ThreeBytes(v);
    Digits(v);
    var f := b[k..k + 3];
    assert b[k] == f[0] && b[k + 1] == f[1] && b[k + 2] == f[2];
    WrittenAt(before, b, after, k);
    WrittenAt(before, b, after, k + 1);
    WrittenAt(before, b, after, k + 2);
  }

  lemma U16ReadsBack(before: seq<byte>, b: seq<byte>, after: seq<byte>, k: nat, v: nat)
    requires k + 2 <= |b| && b[k..k + 2] == LeBytes(v, 2) && v < 65536
    ensures U16Field(before + b + after, |before| + k) == v
  {
    hide LeBytes, Operand;
    ThreeBytes(v);
    Digits(v);
    var f := b[k..k + 2];
    assert b[k] == f[0] && b[k + 1] == f[1];
    WrittenAt(before, b, after, k);
    WrittenAt(before, b, after, k + 1);
  }

  lemma LitReadsBack(before: seq<byte>, bytes: seq<byte>, after: seq<byte>)
    requires Writable(Lit(bytes))
    ensures EventAt(before + EventBytes(Lit(bytes)) + after, |before|) == (Lit(bytes), |before| + |EventBytes(Lit(bytes))|)
  {
    var prog, at := before + EventBytes(Lit(bytes)) + after, |before| + 1;
    assert prog[|before|] == |bytes| - 1 && prog[at..at + |bytes|] == bytes;
  }

  lemma RepReadsBack(before: seq<byte>, dist: nat, len: nat, flips: nat, after: seq<byte>)
    requires Writable(Rep(dist, len, flips))
    ensures var b := EventBytes(Rep(dist, len, flips));
            EventAt(before + b + after, |before|) == (Rep(dist, len, flips), |before| + |b|)
  {
    hide U24Field, U16Field, LeBytes;
    var b := EventBytes(Rep(dist, len, flips));
    assert b[1..4] == LeBytes(dist - 1, 3) && b[4..6] == LeBytes(len - 1, 2);
    U24ReadsBack(before, b, after, 1, dist - 1);
    U16ReadsBack(before, b, after, 4, len - 1);
    WrittenAt(before, b, after, 0);
    WrittenAt(before, b, after, 6);
  }

  lemma NoiseReadsBack(before: seq<byte>, n: nat, after: seq<byte>)
    requires Writable(Noise(n))
    ensures EventAt(before + EventBytes(Noise(n)) + after, |before|) == (Noise(n), |before| + |EventBytes(Noise(n))|)
  {
    hide U24Field, LeBytes;
    var b := EventBytes(Noise(n));
    assert b[1..4] == LeBytes(n - 1, 3);
    U24ReadsBack(before, b, after, 1, n - 1);
    WrittenAt(before, b, after, 0);
  }

  lemma PadReadsBack(before: seq<byte>, n: nat, value: byte, after: seq<byte>)
    requires Writable(Pad(n, value))
    ensures EventAt(before + EventBytes(Pad(n, value)) + after, |before|)
         == (Pad(n, value), |before| + |EventBytes(Pad(n, value))|)
  {
    hide U24Field, LeBytes;
    var b := EventBytes(Pad(n, value));
    assert b[1..4] == LeBytes(n - 1, 3);
    U24ReadsBack(before, b, after, 1, n - 1);
    WrittenAt(before, b, after, 0);
    WrittenAt(before, b, after, 4);
  }

  lemma Digits(v: nat)
    requires v < 0x100_0000
    ensures v % 256 + 256 * (v / 256 % 256) + 65536 * (v / 65536 % 256) == v
    ensures v < 65536 ==> v % 256 + 256 * (v / 256 % 256) == v
  {
  }

  /** A written program decodes to exactly the events it was written from. */
  lemma {:induction false} WrittenProgramDecodes(before: seq<byte>, events: seq<Event>)
    requires forall i :: 0 <= i < |events| ==> Writable(events[i])
    ensures Decode(before + ProgramBytes(events), |before|) == events
    decreases |events|
  {
    hide EventAt, EventBytes;
    if events == [] {
      assert before + [] == before;
    } else {
      var head, rest := EventBytes(events[0]), events[1..];
      var tail := ProgramBytes(rest);
      assert before + ProgramBytes(events) == before + head + tail;
      EventReadsBack(before, events[0], tail);
      WrittenProgramDecodes(before + head, rest);
    }
  }

  /** Expanding a written program runs its events on the dictionary it asks for. */
  lemma WrittenProgramExpands(ph: byte, events: seq<Event>)
    requires forall i :: 0 <= i < |events| ==> Writable(events[i])
    ensures var prog := [ph] + ProgramBytes(events);
            var (dict, rng) := Dictionary(prog);
            && (dict.Some? <==> ph % 2 == 1)
            && Expand(prog) == (Run(events, if dict.Some? then dict.value else [], State([], rng)).out, dict)
  {
    WrittenProgramDecodes([ph], events);
  }

  // ------------------------------------------------------------------
  // What programs expand to, byte by byte
  // ------------------------------------------------------------------

  /** The generator `k` steps further. */
  function Stepped(s: bv64, k: nat): bv64 {
    if k == 0 then s else Next(Stepped(s, k - 1))
  }

  lemma {:induction false} RandomBytesAre(s: bv64, n: nat)
    ensures RandomBytes(s, n).1 == Stepped(s, n)
    ensures forall k :: 0 <= k < n ==> RandomBytes(s, n).0[k] == LowByte(Stepped(s, k + 1))
  {
    hide Next, LowByte;
    if n > 0 {
      RandomBytesAre(s, n - 1);
    }
  }

  /** The byte that the last of `flips` flips to hit position `j` of a span puts there: each
      takes one step for the place and one for the byte. */
  function FlipAt(s: bv64, flips: nat, len: nat, j: nat): Option<byte>
    requires len > 0
  {
    if flips == 0 then None
    else if Stepped(s, 2 * flips - 1) as int % len == j then Some(LowByte(Stepped(s, 2 * flips)))
    else FlipAt(s, flips - 1, len, j)
  }

  lemma {:induction false} FlippedAre(span: seq<byte>, s: bv64, flips: nat)
    requires span != []
    ensures Flipped(span, s, flips).1 == Stepped(s, 2 * flips)
    ensures forall j :: 0 <= j < |span| ==>
              Flipped(span, s, flips).0[j]
              == match FlipAt(s, flips, |span|, j) case Some(b) => b case None => span[j]
  {
    hide Next, LowByte;
    if flips > 0 {
      FlippedAre(span, s, flips - 1);
      assert Stepped(s, 2 * flips) == Next(Stepped(s, 2 * flips - 1));
      assert Stepped(s, 2 * flips - 1) == Next(Stepped(s, 2 * (flips - 1)));
    }
  }

  /** The bytes an event adds within `room`, each by its position, and how many steps of
      the generator it takes. */
  function Adds(e: Event, history: seq<byte>, rng: bv64, room: nat): (seq<byte>, nat) {
    match e
    case Lit(bytes) => (seq(Min(|bytes|, room), k requires 0 <= k < |bytes| => bytes[k]), 0)
    case Pad(n, value) => (seq(Min(n, room), k => value), 0)
    case Noise(n) => (seq(Min(n, room), k requires 0 <= k => LowByte(Stepped(rng, k + 1))), Min(n, room))
    case Rep(dist, len, flips) =>
      var n, back := Min(len, room), Min(dist, |history|);
      if n == 0 || back == 0 then ([], 0)
      else
        (seq(n, k requires 0 <= k < n =>
           match FlipAt(rng, flips, n, k)
           case Some(b) => b
           case None => history[|history| - back + k % back]),
         2 * flips)
  }

  /** The output of events, one after the other, up to 256 KiB. */
  function Told(events: seq<Event>, dict: seq<byte>, out: seq<byte>, rng: bv64): seq<byte> {
    if events == [] || |out| >= 262144 then out
    else
      var (bytes, steps) := Adds(events[0], dict + out, rng, 262144 - |out|);
      Told(events[1..], dict, out + bytes, Stepped(rng, steps))
  }

  lemma AppliedAdds(e: Event, dict: seq<byte>, s: State)
    requires |s.out| < EXPAND_CAP
    ensures var (bytes, steps) := Adds(e, dict + s.out, s.rng, EXPAND_CAP - |s.out|);
            Apply(e, dict, s) == State(s.out + bytes, Stepped(s.rng, steps))
  {
    hide Next, LowByte, Flipped, RandomBytes, FlipAt;
    var room := EXPAND_CAP - |s.out|;
    var history := dict + s.out;
    var (bytes, steps) := Adds(e, history, s.rng, room);
    match e
    case Lit(given) =>
      assert bytes == given[..Min(|given|, room)];
    case Pad(n, value) =>
      assert bytes == Repeat(value, Min(n, room));
    case Noise(n) =>
      RandomBytesAre(s.rng, Min(n, room));
      assert bytes == RandomBytes(s.rng, Min(n, room)).0;
    case Rep(dist, len, flips) =>
      if history != [] && dist > 0 && len > 0 {
        var span := Copied(history, Min(dist, |history|), Min(len, room));
        FlippedAre(span, s.rng, flips);
        assert bytes == Flipped(span, s.rng, flips).0;
      } else {
        assert s.out + [] == s.out;
      }
  }

  lemma {:induction false} RunTells(events: seq<Event>, dict: seq<byte>, s: State)
    requires |s.out| <= EXPAND_CAP
    ensures Run(events, dict, s).out == Told(events, dict, s.out, s.rng)
    decreases |events|
  {
    hide Apply, Adds, Stepped;
    if events != [] && |s.out| < EXPAND_CAP {
      AppliedAdds(events[0], dict, s);
      RunTells(events[1..], dict, Apply(events[0], dict, s));
    }
  }

  /** The generator's next `n` bytes. */
  function Stream(s: bv64, n: nat): (bytes: seq<byte>)
    ensures |bytes| == n
  {
    seq(n, k requires 0 <= k < n => LowByte(Stepped(s, k + 1)))
  }

  /** How long a dictionary the program byte asks for. */
  function DictionarySize(ph: byte): nat {
    if ph % 2 == 1 then Pow2(Min(4 + ph / 2 % 16, 19)) else 0
  }

  /** Every written program expands to what its events add, byte by byte, on a dictionary
      that is the generator's first bytes, if it asks for one. */
  lemma WrittenProgramTells(ph: byte, events: seq<Event>)
    requires forall i :: 0 <= i < |events| ==> Writable(events[i])
    ensures var prog := [ph] + ProgramBytes(events);
            var seed, n := ProgramSeed(prog), DictionarySize(ph);
            Expand(prog) == (Told(events, Stream(seed, n), [], Stepped(seed, n)),
                             if ph % 2 == 1 then Some(Stream(seed, n)) else None)
  {
    hide LowByte, Next, ProgramSeed, RandomBytes, Run, Told, Decode, Stepped, Stream, Expand, ProgramBytes, DictionarySize;
    var prog := [ph] + ProgramBytes(events);
    var seed, n := ProgramSeed(prog), DictionarySize(ph);
    assert prog[0] == ph;
    WrittenProgramExpands(ph, events);
    DictionaryIs(prog);
    RunTells(events, Stream(seed, n), State([], Stepped(seed, n)));
  }

  lemma DictionaryIs(prog: seq<byte>)
    requires prog != []
    ensures var seed, n := ProgramSeed(prog), DictionarySize(prog[0]);
            && Dictionary(prog) == (if prog[0] % 2 == 1 then Some(Stream(seed, n)) else None, Stepped(seed, n))
            && (prog[0] % 2 == 0 ==> Stream(seed, n) == [])
  {
    hide LowByte, Next, ProgramSeed, RandomBytes, Stepped;
    var seed, n := ProgramSeed(prog), DictionarySize(prog[0]);
    if prog[0] % 2 == 1 {
      RandomBytesAre(seed, n);
      assert RandomBytes(seed, n).0 == Stream(seed, n);
    } else {
      NoSteps(seed);
    }
  }

  lemma NoSteps(s: bv64)
    ensures Stepped(s, 0) == s
  {
  }

  /** What literals and paddings spell. */
  function Spelled(events: seq<Event>): seq<byte> {
    if events == [] then []
    else Spells(events[0]) + Spelled(events[1..])
  }

  function Spells(e: Event): seq<byte> {
    match e
    case Lit(bytes) => bytes
    case Pad(n, value) => Repeat(value, n)
    case _ => []
  }

  predicate Literal(e: Event) {
    e.Lit? || e.Pad?
  }

  lemma LiteralAdds(e: Event, history: seq<byte>, rng: bv64, room: nat)
    requires Literal(e)
    ensures Adds(e, history, rng, room) == (Spells(e)[..Min(|Spells(e)|, room)], 0)
  {
    assert Adds(e, history, rng, room).0 == Spells(e)[..Min(|Spells(e)|, room)];
  }

  lemma CutTwice(out: seq<byte>, bytes: seq<byte>, rest: seq<byte>, cap: nat)
    requires |out| <= cap
    ensures var now := out + bytes[..Min(|bytes|, cap - |out|)];
            (now + rest)[..Min(|now| + |rest|, cap)] == (out + (bytes + rest))[..Min(|out| + |bytes| + |rest|, cap)]
  {
    var now := out + bytes[..Min(|bytes|, cap - |out|)];
    if |out| + |bytes| <= cap {
      assert now + rest == out + (bytes + rest);
    } else {
      assert now == (out + (bytes + rest))[..cap];
    }
  }

  lemma {:induction false} ToldSpells(events: seq<Event>, dict: seq<byte>, out: seq<byte>, rng: bv64)
    requires forall i :: 0 <= i < |events| ==> Literal(events[i])
    requires |out| <= 262144
    ensures Told(events, dict, out, rng) == (out + Spelled(events))[..Min(|out| + |Spelled(events)|, 262144)]
    decreases |events|
  {
    hide Adds, Stepped, Literal, Spells;
    if events == [] {
      assert out + [] == out;
    } else if |out| == 262144 {
      assert (out + Spelled(events))[..|out|] == out;
    } else {
      var e, rest := events[0], events[1..];
      LiteralAdds(e, dict + out, rng, 262144 - |out|);
      var bytes := Adds(e, dict + out, rng, 262144 - |out|).0;
      ToldSpells(rest, dict, out + bytes, Stepped(rng, 0));
      CutTwice(out, Spells(e), Spelled(rest), 262144);
    }
  }

  /** A program of literals and paddings expands to them, cut at 256 KiB. */
  lemma PlainProgramSpells(ph: byte, events: seq<Event>)
    requires forall i :: 0 <= i < |events| ==> Writable(events[i]) && Literal(events[i])
    ensures Expand([ph] + ProgramBytes(events)).0 == Spelled(events)[..Min(|Spelled(events)|, 262144)]
  {
    hide LowByte, Next, ProgramSeed, Expand, Told, Spelled, Stepped, Stream, DictionarySize;
    var seed, n := ProgramSeed([ph] + ProgramBytes(events)), DictionarySize(ph);
    WrittenProgramTells(ph, events);
    ToldSpells(events, Stream(seed, n), [], Stepped(seed, n));
    assert [] + Spelled(events) == Spelled(events);
  }

  predicate AllNoise(events: seq<Event>) {
    forall i :: 0 <= i < |events| ==> events[i].Noise?
  }

  function NoiseTotal(events: seq<Event>): nat
    requires AllNoise(events)
  {
    if events == [] then 0 else events[0].n + NoiseTotal(events[1..])
  }

  lemma {:induction false} SteppedAdds(s: bv64, a: nat, b: nat)
    ensures Stepped(Stepped(s, a), b) == Stepped(s, a + b)
  {
    hide Next;
    if b > 0 {
      SteppedAdds(s, a, b - 1);
    }
  }

  lemma StreamSplits(s: bv64, a: nat, b: nat)
    ensures Stream(s, a) + Stream(Stepped(s, a), b) == Stream(s, a + b)
  {
    hide Next, LowByte, Stepped;
    forall k | 0 <= k < b
      ensures Stream(Stepped(s, a), b)[k] == Stream(s, a + b)[a + k]
    {
      SteppedAdds(s, a, k + 1);
    }
  }

  lemma {:induction false} ToldNoise(events: seq<Event>, dict: seq<byte>, out: seq<byte>, rng: bv64)
    requires AllNoise(events) && |out| <= 262144
    ensures Told(events, dict, out, rng) == out + Stream(rng, Min(NoiseTotal(events), 262144 - |out|))
    decreases |events|
  {
    hide Stepped, Stream, LowByte;
    if events == [] || |out| == 262144 {
      assert out + Stream(rng, 0) == out;
    } else {
      var room := 262144 - |out|;
      var n := Min(events[0].n, room);
      NoiseAdds(events[0].n, dict + out, rng, room);
      ToldNoise(events[1..], dict, out + Stream(rng, n), Stepped(rng, n));
      var m := Min(NoiseTotal(events[1..]), room - n);
      StreamSplits(rng, n, m);
      assert (out + Stream(rng, n)) + Stream(Stepped(rng, n), m) == out + Stream(rng, n + m);
    }
  }

  lemma NoiseAdds(n: nat, history: seq<byte>, rng: bv64, room: nat)
    ensures Adds(Noise(n), history, rng, room) == (Stream(rng, Min(n, room)), Min(n, room))
  {
    hide Stepped, LowByte;
    assert Adds(Noise(n), history, rng, room).0 == Stream(rng, Min(n, room));
  }

  /** Noise events give the generator's bytes, each its own number of them and one behind
      the other: byte `k` of their program is the generator's after `k + 1` steps. */
  lemma NoiseProgramStreams(events: seq<Event>)
    requires AllNoise(events) && forall i :: 0 <= i < |events| ==> Writable(events[i])
    ensures var prog := [0] + ProgramBytes(events);
            && |Expand(prog).0| == Min(NoiseTotal(events), 262144)
            && forall k :: 0 <= k < |Expand(prog).0| ==> Expand(prog).0[k] == LowByte(Stepped(ProgramSeed(prog), k + 1))
  {
    hide Next, LowByte, ProgramSeed, Expand, Told, Stepped;
    var seed := ProgramSeed([0] + ProgramBytes(events));
    WrittenProgramTells(0, events);
    ToldNoise(events, Stream(seed, 0), [], Stepped(seed, 0));
    NoSteps(seed);
  }

  /** Operands cut off behind the end of a program are read as zeros. */
  lemma CutOperandsAreZero(prog: seq<byte>, i: nat, zeros: nat)
    requires i < |prog| && prog[i] >= 64
    ensures EventAt(prog + Repeat(0, zeros), i).0 == EventAt(prog, i).0
    ensures EventAt(prog, i).1 == Min(EventAt(prog + Repeat(0, 6), i).1, |prog|)
  {
    assert forall k :: Operand(prog + Repeat(0, zeros), k) == Operand(prog, k);
    assert (prog + Repeat(0, zeros))[i] == prog[i] && (prog + Repeat(0, 6))[i] == prog[i];
  }

  /** The generator's known first value, what a byte of it is, and the seeds of two
      programs. */
  lemma NextOfOne()
    ensures Next(1) == 0x4082_2041
    ensures LowByte(0x0000_0356_0000_0000) == 0xab
    ensures ProgramSeed([]) == 0x9e37_79b9_7f4a_7c15
    ensures ProgramSeed([0, 1]) == 0x9cf4_5629_671e_7cab
  {
    assert [0, 1 as byte][..1] == [0] && [0 as byte][..0] == [];
    assert Fnv([0]) == 0x22bf_eb33_4b90_d7af;
    assert (0x22bf_eb33_4b90_d7af as bv64) ^ 1 == 0x22bf_eb33_4b90_d7ae;
    assert Fnv([0, 1]) == 0x22bf_eb33_4b90_d7ae * 0x0000_0100_0000_01b3;
    assert (1 as bv64) << 13 == 0x2000;
    assert Mix13(1) == 0x2001;
    assert (0x2001 as bv64) >> 7 == 0x40;
    assert Mix7(0x2001) == 0x2041;
    assert (0x2041 as bv64) << 17 == 0x4082_0000;
    assert Mix17(0x2041) == 0x4082_2041;
  }
}
