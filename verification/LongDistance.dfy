/** Long-distance-matching parameters: filling in the automatic ones, and the memory
    envelope over levels. */
module LongDistance {
  import opened Arith
  import opened Bytes
  import opened Params

  const LDM_MIN_MATCH_LENGTH: nat := 64
  const LDM_BUCKET_SIZE_LOG: nat := 4
  const BTULTRA: int := 8

  /** Zero stands for automatic. */
  datatype Ldm = Ldm(
    enable: Switch, windowLog: u32, hashLog: u32, hashRateLog: u32, minMatchLength: u32, bucketSizeLog: u32)

  /** What the parameter setters let through. */
  predicate Settable(p: Ldm) {
    && (p.hashLog == 0 || HASHLOG_MIN <= p.hashLog <= HASHLOG_MAX)
    && p.hashRateLog <= WINDOWLOG_MAX - HASHLOG_MIN
    && (p.minMatchLength == 0 || 4 <= p.minMatchLength <= 4096)
    && p.bucketSizeLog <= 8
  }

  /** Nothing is left to fill in: every field is usable, and buckets fit the table. */
  predicate Ready(p: Ldm) {
    && HASHLOG_MIN <= p.hashLog <= HASHLOG_MAX
    && p.hashRateLog <= WINDOWLOG_MAX - HASHLOG_MIN
    && 4 <= p.minMatchLength <= 4096
    && 1 <= p.bucketSizeLog <= Min(8, p.hashLog)
  }

  /** The rate for a window and a hash table: one entry per 2^rate positions covers
      the window, unless it was chosen. */
  function Rate(p: Ldm, cp: CParams): int {
    if p.hashRateLog != 0 then p.hashRateLog
    else if p.hashLog == 0 then 7 - cp.strategy / 3
    else Max(cp.windowLog - p.hashLog, 0)
  }

  /** The filled-in parameters, field by field. */
  function Filled(p: Ldm, cp: CParams): (r: Ldm)
    requires Settable(p) && CheckCParams(cp)
    ensures Ready(r) && Settable(r)
  {
    var rate := Rate(p, cp);
    var hash := if p.hashLog != 0 then p.hashLog else Clamp(cp.windowLog - rate, HASHLOG_MIN, HASHLOG_MAX);
    var shortest := if p.minMatchLength != 0 then p.minMatchLength
                  else if cp.strategy >= BTULTRA then LDM_MIN_MATCH_LENGTH / 2 else LDM_MIN_MATCH_LENGTH;
    var bucket := if p.bucketSizeLog != 0 then p.bucketSizeLog else Clamp(cp.strategy, LDM_BUCKET_SIZE_LOG, 8);
    Ldm(p.enable, cp.windowLog, hash, rate, shortest, Min(bucket, hash))
  }

  /** The code's sequence of assignments arrives there. */
  method LdmAdjustParameters(p: Ldm, cp: CParams) returns (r: Ldm)
    requires Settable(p) && CheckCParams(cp)
    ensures r == Filled(p, cp)
  {
    r := p.(windowLog := cp.windowLog);
    if r.hashRateLog == 0 {
      if r.hashLog > 0 {
        if r.windowLog > r.hashLog {
          r := r.(hashRateLog := r.windowLog - r.hashLog);
        }
      } else {
        r := r.(hashRateLog := 7 - cp.strategy / 3);
      }
    }
    if r.hashLog == 0 {
      if r.windowLog <= r.hashRateLog {
        r := r.(hashLog := HASHLOG_MIN);
      } else {
        r := r.(hashLog := Clamp(r.windowLog - r.hashRateLog, HASHLOG_MIN, HASHLOG_MAX));
      }
    }
    if r.minMatchLength == 0 {
      r := r.(minMatchLength := LDM_MIN_MATCH_LENGTH);
      if cp.strategy >= BTULTRA {
        r := r.(minMatchLength := r.minMatchLength / 2);
      }
    }
    if r.bucketSizeLog == 0 {
      r := r.(bucketSizeLog := Clamp(cp.strategy, LDM_BUCKET_SIZE_LOG, 8));
    }
    r := r.(bucketSizeLog := Min(r.bucketSizeLog, r.hashLog));
  }

  /** Filling in is idempotent for one set of compression parameters, and keeps every
      chosen field but a bucket larger than the table. */
  lemma FilledIsIdempotent(p: Ldm, cp: CParams)
    requires Settable(p) && CheckCParams(cp)
    ensures Filled(Filled(p, cp), cp) == Filled(p, cp)
    ensures p.hashLog != 0 ==> Filled(p, cp).hashLog == p.hashLog
    ensures p.hashRateLog != 0 ==> Filled(p, cp).hashRateLog == p.hashRateLog
    ensures p.minMatchLength != 0 ==> Filled(p, cp).minMatchLength == p.minMatchLength
    ensures p.bucketSizeLog != 0 ==> Filled(p, cp).bucketSizeLog == Min(p.bucketSizeLog, Filled(p, cp).hashLog)
  {
  }

  /** With nothing chosen, each field by strategy, from fast to btultra2: rates of one entry
      per 128 down to 16 positions, matches of 64 bytes or from btultra on 32, and buckets of
      16 up to 256 entries that fit the table. */
  lemma FilledDefaults(cp: CParams, enable: Switch)
    requires CheckCParams(cp)
    ensures var r, s := Filled(Ldm(enable, 0, 0, 0, 0, 0), cp), cp.strategy - 1;
            && r.enable == enable && r.windowLog == cp.windowLog
            && r.hashRateLog == [7, 7, 6, 6, 6, 5, 5, 5, 4][s]
            && r.hashLog == (if cp.windowLog < 6 + r.hashRateLog then 6 else cp.windowLog - r.hashRateLog)
            && r.minMatchLength == [64, 64, 64, 64, 64, 64, 64, 32, 32][s]
            && r.bucketSizeLog == Min([4, 4, 4, 4, 5, 6, 7, 8, 8][s], r.hashLog)
  {
  }

  /** The table covers the window exactly when it could be sized for it: one entry per
      2^rate positions, unless both were chosen or a bound holds the table back. */
  lemma FilledCoversWindow(p: Ldm, cp: CParams)
    requires Settable(p) && CheckCParams(cp)
    ensures var r := Filled(p, cp);
            r.hashLog + r.hashRateLog == cp.windowLog <==>
              if p.hashLog == 0 then HASHLOG_MIN <= cp.windowLog - Rate(p, cp) <= HASHLOG_MAX
              else if p.hashRateLog == 0 then p.hashLog <= cp.windowLog
              else p.hashLog + p.hashRateLog == cp.windowLog
  {
  }

  /** Bytes of the bucket heads and the entry table. */
  function TableSize(p: Ldm): nat {
    if p.enable != Enable then 0
    else Pow2(Max(p.hashLog - Min(p.bucketSizeLog, p.hashLog), 0)) + Pow2(p.hashLog) * 8
  }

  /** After filling in, the heads are as many as buckets of the chosen size fill the
      table: heads times bucket size is the number of entries. */
  lemma TableSizeIsHeadsAndEntries(p: Ldm, cp: CParams)
    requires Settable(p) && CheckCParams(cp) && p.enable == Enable
    ensures var r := Filled(p, cp);
            && r.bucketSizeLog <= r.hashLog
            && Pow2(r.hashLog - r.bucketSizeLog) * Pow2(r.bucketSizeLog) == Pow2(r.hashLog)
            && TableSize(r) == Pow2(r.hashLog - r.bucketSizeLog) + 8 * Pow2(r.hashLog)
  {
    var r := Filled(p, cp);
    Pow2Adds(r.hashLog - r.bucketSizeLog, r.bucketSizeLog);
  }

  // ------------------------------------------------------------------
  // The memory envelope
  // ------------------------------------------------------------------

  /** The loop over levels from `min(level, 1)` to `level`. */
  method MonotoneEnvelope(level: int, perLevel: int -> nat) returns (budget: nat)
    ensures forall l :: Min(level, 1) <= l <= level ==> perLevel(l) <= budget
    ensures exists l :: Min(level, 1) <= l <= level && budget == perLevel(l)
    ensures budget == Envelope(level, perLevel)
  {
    budget := 0;
    var current := Min(level, 1);
    while current <= level
      invariant Min(level, 1) <= current <= level + 1
      invariant forall l :: Min(level, 1) <= l < current ==> perLevel(l) <= budget
      invariant current > Min(level, 1) ==>
                  && budget == Envelope(current - 1, perLevel)
                  && exists l :: Min(level, 1) <= l < current && budget == perLevel(l)
      invariant current == Min(level, 1) ==> budget == 0
      decreases level - current
    {
      budget := Max(budget, perLevel(current));
      current := current + 1;
    }
  }

  function Envelope(level: int, perLevel: int -> nat): (budget: nat)
    ensures budget >= perLevel(level)
    decreases level
  {
    if level <= 1 then perLevel(level) else Max(Envelope(level - 1, perLevel), perLevel(level))
  }

  /** From level 1 up the envelope never falls. */
  lemma {:induction false} EnvelopeIsMonotone(a: int, b: int, perLevel: int -> nat)
    requires 1 <= a <= b
    ensures Envelope(a, perLevel) <= Envelope(b, perLevel)
    decreases b
  {
    if a < b {
      EnvelopeIsMonotone(a, b - 1, perLevel);
    }
  }

  /** The envelope never falls from one level to a higher one. */
  ghost predicate NeverFalls(lowest: int, perLevel: int -> nat) {
    forall a, b :: lowest <= a <= b ==> Envelope(a, perLevel) <= Envelope(b, perLevel)
  }

  /** Below level 1 it is one level's own need, so over all levels it never falls
      exactly when those needs do not fall on the way up to level 1. */
  lemma EnvelopeIsMonotoneIff(lowest: int, perLevel: int -> nat)
    requires lowest <= 1
    ensures NeverFalls(lowest, perLevel) <==> forall l :: lowest <= l < 1 ==> perLevel(l) <= perLevel(l + 1)
  {
    if NeverFalls(lowest, perLevel) {
      forall l | lowest <= l < 1
        ensures perLevel(l) <= perLevel(l + 1)
      {
        assert Envelope(l, perLevel) <= Envelope(l + 1, perLevel);
      }
    }
    if forall l :: lowest <= l < 1 ==> perLevel(l) <= perLevel(l + 1) {
      forall a, b | lowest <= a <= b
        ensures Envelope(a, perLevel) <= Envelope(b, perLevel)
      {
        if b <= 1 {
          Climbs(a, b, lowest, perLevel);
        } else {
          if a <= 1 { Climbs(a, 1, lowest, perLevel); }
          EnvelopeIsMonotone(Max(a, 1), b, perLevel);
        }
      }
    }
  }

  /** The table row a level uses: level 0 is the default level's row, every negative
      level the baseline row. */
  function Row(level: int): int {
    if level == 0 then 3 else if level < 0 then 0 else Min(level, 22)
  }

  /** Where needs depend on the row alone the claim comes down to three rows: the
      baseline's, the default's and level 1's. */
  lemma RowsDecide(lowest: int, need: int -> nat, perLevel: int -> nat)
    requires lowest < 0 && forall l :: perLevel(l) == need(Row(l))
    ensures NeverFalls(lowest, perLevel) <==> need(0) <= need(3) <= need(1)
  {
    EnvelopeIsMonotoneIff(lowest, perLevel);
    assert perLevel(-1) == need(0) && perLevel(0) == need(3) && perLevel(1) == need(1);
    if forall l :: lowest <= l < 1 ==> perLevel(l) <= perLevel(l + 1) {
      assert perLevel(-1) <= perLevel(-1 + 1) && perLevel(0) <= perLevel(0 + 1);
    }
  }

  // ------------------------------------------------------------------
  // The levels below and at 1, for a stream of unknown size
  // ------------------------------------------------------------------

  const ROW_0: CParams := CParams(19, 12, 13, 1, 6, 1, FAST)
  const ROW_1: CParams := CParams(19, 13, 14, 1, 7, 0, FAST)
  const ROW_3: CParams := CParams(21, 16, 17, 1, 5, 0, DFAST)
  const FASTEST_LEVEL: int := -131_072

  /** The parameters of a level: its row, with the acceleration of a negative level as the
      target length, adjusted to an unknown size. */
  function LevelParams(level: int): CParams
    requires level <= 1
  {
    var row := if level == 0 then ROW_3 else if level < 0 then ROW_0 else ROW_1;
    var cp := if level < 0 then row.(targetLength := -Max(level, FASTEST_LEVEL)) else row;
    Adjusted(cp, U64_MAX, 0, NoAttachDict, Auto)
  }

  /** The estimate's own parameters: the default level's, overridden by what is given. */
  function Resolved(cp: CParams): CParams
    requires CheckCParams(cp) && cp.strategy != 0
  {
    var row := cp.(targetLength := if cp.targetLength != 0 then cp.targetLength else ROW_3.targetLength);
    Adjusted(row, U64_MAX, 0, NoAttachDict, Disable)
  }

  const BLOCKSIZE_MAX: nat := 128 * 1024
  const SIZEOF_CCTX: nat := 5280
  const SIZEOF_BLOCK_STATE: nat := 5632
  const TMP_WORKSPACE_SIZE: nat := 8920
  const CWKSP_SLACK: nat := 128
  const WILDCOPY_OVERLENGTH: nat := 32
  const HASHLOG3_MAX: nat := 17

  function AlignUp(size: nat, align: nat): nat
    requires align > 0
  {
    (size + align - 1) / align * align
  }

  /** The worst a block can grow to, below the largest input. */
  function CompressBound(size: nat): nat {
    size + size / 256 + if size < BLOCKSIZE_MAX then (BLOCKSIZE_MAX - size) / 2048 else 0
  }

  /** The match finder's tables and slack, for the two strategies that need neither the row
      finder nor the optimizer. */
  function MatchStateSize(cp: CParams): nat {
    var chain := if cp.strategy == FAST then 0 else 4 * Pow2(cp.chainLog);
    var hash3 := if cp.minMatch == 3 then 4 * Pow2(Min(HASHLOG3_MAX, cp.windowLog)) else 0;
    chain + 4 * Pow2(cp.hashLog) + hash3 + CWKSP_SLACK
  }

  /** Literals and sequences of one block. */
  function TokenSpace(cp: CParams, block: nat): nat {
    var seqs := block / if cp.minMatch == 3 then 3 else 4;
    WILDCOPY_OVERLENGTH + block + AlignUp(8 * seqs, 64) + 3 * seqs
  }

  /** What a streaming compressor needs with these parameters. */
  function StreamEstimate(cp: CParams): nat
    requires CheckCParams(cp) && FAST <= cp.strategy <= DFAST
  {
    var r := Resolved(cp);
    var block := Min(BLOCKSIZE_MAX, Pow2(r.windowLog));
    var input, output := Pow2(r.windowLog) + block, CompressBound(block) + 1;
    SIZEOF_CCTX + TMP_WORKSPACE_SIZE + 2 * SIZEOF_BLOCK_STATE + MatchStateSize(r) + TokenSpace(r, block) + input + output
  }

  /** An unknown size leaves such parameters as they are. */
  lemma UnknownSizeKeeps(cp: CParams, rows: Switch)
    requires CheckCParams(cp) && FAST <= cp.strategy <= DFAST
    ensures Adjusted(cp, U64_MAX, 0, NoAttachDict, rows) == cp
  {
  }

  lemma LevelParamsAre(level: int)
    requires level <= 1
    ensures var cp := LevelParams(level);
            && CheckCParams(cp) && FAST <= cp.strategy <= DFAST && Resolved(cp) == cp
            && cp == if level == 0 then ROW_3 else if level == 1 then ROW_1
                     else ROW_0.(targetLength := -Max(level, FASTEST_LEVEL))
  {
    var row := if level == 0 then ROW_3 else if level < 0 then ROW_0 else ROW_1;
    var cp := if level < 0 then row.(targetLength := -Max(level, FASTEST_LEVEL)) else row;
    UnknownSizeKeeps(cp, Auto);
    UnknownSizeKeeps(cp, Disable);
  }

  /** The estimate of one level. */
  function StreamNeed(level: int): nat
    requires level <= 1
  {
    LevelParamsAre(level);
    StreamEstimate(LevelParams(level))
  }

  /** A window of at least one block: what is left is the window and the tables. */
  lemma EstimateIs(level: int)
    requires level <= 1
    ensures var cp := LevelParams(level);
            && StreamNeed(level) == 779_801 + Pow2(cp.windowLog) + 4 * Pow2(cp.hashLog)
                                    + if level == 0 then 4 * Pow2(cp.chainLog) else 0
  {
    LevelParamsAre(level);
    var cp := LevelParams(level);
    hide LevelParams, Resolved;
    assert Pow2(17) == BLOCKSIZE_MAX by {
      assert Pow2(5) == 32 && Pow2(11) == 2048;
    }
    Pow2Grows(17, cp.windowLog);
  }

  /** The documented claim fails from level 0 to level 1, whatever the other levels need:
      level 0 is estimated at the default level's 21-bit window, level 1 at its own 19-bit
      one. Below level 0 it holds. */
  lemma EnvelopeFallsAfterZero(perLevel: int -> nat)
    requires forall l :: l <= 1 ==> perLevel(l) == StreamNeed(l)
    ensures Envelope(0, perLevel) > Envelope(1, perLevel)
    ensures forall a, b :: a <= b <= 0 ==> Envelope(a, perLevel) <= Envelope(b, perLevel)
  {
    hide StreamNeed;
    NeedsToZero(-1, 0);
    forall a, b | a <= b <= 0
      ensures Envelope(a, perLevel) <= Envelope(b, perLevel)
    {
      NeedsToZero(a, b);
    }
  }

  lemma NeedsToZero(a: int, b: int)
    requires a <= b <= 0
    ensures StreamNeed(a) <= StreamNeed(b) && StreamNeed(0) > StreamNeed(1)
  {
    hide StreamNeed, LevelParams, Pow2;
    Pow2Grows(19, 21);
    Pow2Grows(14, 17);
    Pow2Grows(13, 17);
    EstimateIs(a);
    LevelParamsAre(a);
    EstimateIs(b);
    LevelParamsAre(b);
    EstimateIs(0);
    LevelParamsAre(0);
    EstimateIs(1);
    LevelParamsAre(1);
  }

  lemma {:induction false} Climbs(a: int, b: int, lowest: int, perLevel: int -> nat)
    requires lowest <= a <= b <= 1
    requires forall l :: lowest <= l < 1 ==> perLevel(l) <= perLevel(l + 1)
    ensures perLevel(a) <= perLevel(b)
    decreases b - a
  {
    if a < b {
      Climbs(a + 1, b, lowest, perLevel);
    }
  }
}
