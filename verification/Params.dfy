/** Compression parameters: clamping them into their bounds and downsizing them to
    the input. */
module Params {
  import opened Bytes

  const WINDOWLOG_ABSOLUTEMIN: nat := 10
  const WINDOWLOG_MAX: nat := 31
  const HASHLOG_MIN: nat := 6
  const HASHLOG_MAX: nat := 30
  const CHAINLOG_MAX: nat := 30
  const SEARCHLOG_MIN: nat := 1
  const SEARCHLOG_MAX: nat := 30
  const MINMATCH_MIN: nat := 3
  const MINMATCH_MAX: nat := 7
  const TARGETLENGTH_MAX: nat := 128 * 1024
  const SHORT_CACHE_TAG_BITS: nat := 8
  const ROW_HASH_TAG_BITS: nat := 8
  const MIN_SRC_SIZE: nat := 513
  const U32_MAX: nat := 0xFFFF_FFFF
  const U64_MAX: nat := 0xFFFF_FFFF_FFFF_FFFF

  const FAST: int := 1
  const DFAST: int := 2
  const GREEDY: int := 3
  const LAZY2: int := 5
  const BTLAZY2: int := 6
  const BTULTRA2: int := 9

  type u32 = x: int | 0 <= x <= U32_MAX witness 0
  type u64 = x: int | 0 <= x <= U64_MAX witness 0

  /** The seven knobs; the strategy is an unchecked C integer. */
  datatype CParams = CParams(
    windowLog: u32, chainLog: u32, hashLog: u32, searchLog: u32,
    minMatch: u32, targetLength: u32, strategy: int)

  datatype Mode = Unknown | NoAttachDict | CreateCDict | AttachDict

  datatype Switch = Auto | Enable | Disable

  lemma Pow2Window()
    ensures Pow2(6) == 64 && Pow2(10) == 1024 && Pow2(30) == 0x4000_0000 && Pow2(31) == 0x8000_0000
    ensures Pow2(32) == 0x1_0000_0000
  {
    assert Pow2(6) == 64 && Pow2(12) == 4096 && Pow2(18) == 0x4_0000 && Pow2(24) == 0x100_0000;
  }

  /** `l` is the least log whose power covers `size`. */
  ghost predicate LeastLog(l: nat, size: nat) {
    Pow2(l) >= size && (l > 0 ==> Pow2(l - 1) < size)
  }

  /** One above the highest bit of `size - 1` is the least covering log. */
  lemma HighBitCovers(size: nat)
    requires size > 1
    ensures LeastLog(HighBit(size - 1) + 1, size)
  {
  }

  /** Every knob inside its bounds. */
  predicate CheckCParams(cp: CParams) {
    && WINDOWLOG_ABSOLUTEMIN <= cp.windowLog <= WINDOWLOG_MAX
    && HASHLOG_MIN <= cp.chainLog <= CHAINLOG_MAX
    && HASHLOG_MIN <= cp.hashLog <= HASHLOG_MAX
    && SEARCHLOG_MIN <= cp.searchLog <= SEARCHLOG_MAX
    && MINMATCH_MIN <= cp.minMatch <= MINMATCH_MAX
    && cp.targetLength <= TARGETLENGTH_MAX
    && FAST <= cp.strategy <= BTULTRA2
  }

  function ClampCParams(cp: CParams): (r: CParams)
    ensures CheckCParams(r)
    ensures 10 <= r.windowLog <= 31 && 6 <= r.chainLog <= 30 && 6 <= r.hashLog <= 30 && 1 <= r.searchLog <= 30
    ensures 3 <= r.minMatch <= 7 && r.targetLength <= 131_072 && 1 <= r.strategy <= 9
    ensures 10 <= cp.windowLog <= 31 ==> r.windowLog == cp.windowLog
    ensures 6 <= cp.chainLog <= 30 ==> r.chainLog == cp.chainLog
    ensures 6 <= cp.hashLog <= 30 ==> r.hashLog == cp.hashLog
    ensures 1 <= cp.searchLog <= 30 ==> r.searchLog == cp.searchLog
    ensures 3 <= cp.minMatch <= 7 ==> r.minMatch == cp.minMatch
    ensures cp.targetLength <= 131_072 ==> r.targetLength == cp.targetLength
    ensures 1 <= cp.strategy <= 9 ==> r.strategy == cp.strategy
    ensures CheckCParams(cp) ==> r == cp
  {
    CParams(
      Clamp(cp.windowLog, WINDOWLOG_ABSOLUTEMIN, WINDOWLOG_MAX),
      Clamp(cp.chainLog, HASHLOG_MIN, CHAINLOG_MAX),
      Clamp(cp.hashLog, HASHLOG_MIN, HASHLOG_MAX),
      Clamp(cp.searchLog, SEARCHLOG_MIN, SEARCHLOG_MAX),
      Clamp(cp.minMatch, MINMATCH_MIN, MINMATCH_MAX),
      Clamp(cp.targetLength, 0, TARGETLENGTH_MAX),
      Clamp(cp.strategy, FAST, BTULTRA2))
  }

  /** The chain index width: binary-tree strategies use half their chain table. */
  function CycleLog(chainLog: u32, strategy: int): (l: int)
    requires chainLog >= 1
  {
    if strategy >= BTLAZY2 then chainLog - 1 else chainLog
  }

  /** The log covering the window, and the dictionary too when the window does not
      reach the whole input: the least one, up to the largest window. */
  function DictAndWindowLog(windowLog: u32, src: u64, dict: u64): (l: u32)
    requires windowLog <= WINDOWLOG_MAX
    ensures windowLog <= l <= WINDOWLOG_MAX
    ensures l == windowLog <==> dict == 0 || Pow2(windowLog) >= dict + src || windowLog == WINDOWLOG_MAX
    ensures windowLog < l ==>
              var reach := dict + Pow2(windowLog);
              if reach >= Pow2(WINDOWLOG_MAX) then l == WINDOWLOG_MAX else LeastLog(l, reach)
  {
    var window := Pow2(windowLog);
    if dict == 0 || window >= dict + src then windowLog
    else
      Pow2Window();
      var reach := dict + window;
      if reach >= Pow2(WINDOWLOG_MAX) then WINDOWLOG_MAX
      else
        HighBitCovers(reach);
        LogsOrdered(windowLog, HighBit(reach - 1) + 1, reach);
        HighBit(reach - 1) + 1
  }

  /** A size above a window needs a larger log, and one below the largest window a
      smaller one. */
  lemma LogsOrdered(windowLog: nat, l: nat, size: nat)
    requires windowLog <= WINDOWLOG_MAX && LeastLog(l, size) && Pow2(windowLog) < size < Pow2(WINDOWLOG_MAX)
    ensures windowLog < l <= WINDOWLOG_MAX
  {
    if l < windowLog { Pow2Grows(l, windowLog); }
    if l > WINDOWLOG_MAX + 1 { Pow2Grows(WINDOWLOG_MAX, l - 1); }
  }

  /** The sizes a mode adjusts for. */
  function Sizes(src: u64, dict: u64, mode: Mode): (u64, u64) {
    match mode
    case Unknown => (src, dict)
    case NoAttachDict => (src, dict)
    case CreateCDict => (if dict != 0 && src == U64_MAX then MIN_SRC_SIZE else src, dict)
    case AttachDict => (src, 0)
  }

  /** The 64-bit sums the code forms for a known source and a dictionary, and only
      then: both sizes, and the dictionary with the window. */
  predicate Summable(cp: CParams, srcSize: u64, dictSize: u64, mode: Mode) {
    var (src, dict) := Sizes(srcSize, dictSize, mode);
    src != U64_MAX && dict != 0 ==> src + dict <= U64_MAX && dict + Pow2(cp.windowLog) <= U64_MAX
  }

  /** The log of a whole input small enough to resize the window for. */
  function InputLog(src: u64, dict: u64): Option<nat> {
    if src <= 0x4000_0000 && dict <= 0x4000_0000 then
      Some(if src + dict < 64 then HASHLOG_MIN else HighBit(src + dict - 1) + 1)
    else None
  }

  predicate RowFinderUsed(strategy: int, rows: Switch) {
    GREEDY <= strategy <= LAZY2 && rows == Enable
  }

  /** Fast strategies keep tag bits in the indices of a dictionary's tables. */
  predicate IndicesTagged(strategy: int) {
    strategy == FAST || strategy == DFAST
  }

  /** The cap those layouts put on the chain log. */
  function ChainCap(strategy: int, mode: Mode): nat {
    if mode == CreateCDict && IndicesTagged(strategy) then 32 - SHORT_CACHE_TAG_BITS else CHAINLOG_MAX
  }

  /** The cap the tagged index layouts put on the hash log. */
  function HashCap(strategy: int, searchLog: u32, mode: Mode, rows: Switch): (cap: nat)
    ensures cap >= 24
  {
    if mode == CreateCDict && IndicesTagged(strategy) then 32 - SHORT_CACHE_TAG_BITS
    else if RowFinderUsed(strategy, if rows == Auto then Enable else rows) then
      32 - ROW_HASH_TAG_BITS + Clamp(searchLog, 4, 6)
    else HASHLOG_MAX
  }

  /** What adjusting comes to, knob by knob: the window shrinks to the input, the
      tables to the window and dictionary, and the tagged layouts cap the tables. */
  function Adjusted(cp: CParams, src: u64, dict: u64, mode: Mode, rows: Switch): (r: CParams)
    requires CheckCParams(cp)
  {
    var (src, dict) := Sizes(src, dict, mode);
    var inputLog := InputLog(src, dict);
    var window := if inputLog.Some? then Min(cp.windowLog, inputLog.value) else cp.windowLog;
    var reach := if src == U64_MAX then WINDOWLOG_MAX else DictAndWindowLog(window, src, dict);
    var chainCap := Min(if cp.strategy >= BTLAZY2 then reach + 1 else reach, ChainCap(cp.strategy, mode));
    cp.(windowLog := Max(window, WINDOWLOG_ABSOLUTEMIN),
        chainLog := Min(cp.chainLog, chainCap),
        hashLog := Min(cp.hashLog, Min(reach + 1, HashCap(cp.strategy, cp.searchLog, mode, rows))))
  }

  /** The sizes the mode asks for. */
  method ResolveSizes(srcSize: u64, dictSize: u64, mode: Mode) returns (src: u64, dict: u64)
    ensures (src, dict) == Sizes(srcSize, dictSize, mode)
  {
    src, dict := srcSize, dictSize;
    match mode {
      case Unknown =>
      case NoAttachDict =>
      case CreateCDict =>
        if dict != 0 && src == U64_MAX {
          src := MIN_SRC_SIZE;
        }
      case AttachDict =>
        dict := 0;
    }
  }

  /** Shrink the window to an input small enough to size it by. */
  method ShrinkWindow(cp: CParams, src: u64, dict: u64) returns (cpar: CParams)
    requires CheckCParams(cp)
    ensures var l := InputLog(src, dict);
            cpar == if l.Some? then cp.(windowLog := Min(cp.windowLog, l.value)) else cp
  {
    Pow2Window();
    cpar := cp;
    if src <= Pow2(WINDOWLOG_MAX - 1) && dict <= Pow2(WINDOWLOG_MAX - 1) {
      var size: u32 := src + dict;
      var srcLog := HASHLOG_MIN;
      if size >= Pow2(HASHLOG_MIN) {
        srcLog := HighBit(size - 1) + 1;
      }
      if cpar.windowLog > srcLog {
        cpar := cpar.(windowLog := srcLog);
      }
    }
  }

  /** Shrink the tables to what the window and the dictionary can index. */
  method ShrinkTables(cp: CParams, src: u64, dict: u64) returns (cpar: CParams)
    requires cp.windowLog <= WINDOWLOG_MAX && cp.chainLog >= 1 && src != U64_MAX
    ensures var reach := DictAndWindowLog(cp.windowLog, src, dict);
            && cpar == cp.(hashLog := cpar.hashLog, chainLog := cpar.chainLog)
            && cpar.hashLog == Min(cp.hashLog, reach + 1)
            && cpar.chainLog == Min(cp.chainLog, if cp.strategy >= BTLAZY2 then reach + 1 else reach)
  {
    cpar := cp;
    var reach := DictAndWindowLog(cpar.windowLog, src, dict);
    var cycle := CycleLog(cpar.chainLog, cpar.strategy);
    if cpar.hashLog > reach + 1 {
      cpar := cpar.(hashLog := reach + 1);
    }
    if cycle > reach {
      cpar := cpar.(chainLog := cpar.chainLog - (cycle - reach));
    }
  }

  /** Cap the tables whose indices carry tag bits. */
  method CapTables(cp: CParams, mode: Mode, rows: Switch) returns (cpar: CParams)
    requires cp.hashLog <= HASHLOG_MAX && cp.chainLog <= CHAINLOG_MAX
    ensures cpar == cp.(hashLog := Min(cp.hashLog, HashCap(cp.strategy, cp.searchLog, mode, rows)),
                        chainLog := Min(cp.chainLog, ChainCap(cp.strategy, mode)))
  {
    cpar := cp;
    if mode == CreateCDict && IndicesTagged(cpar.strategy) {
      var cap := 32 - SHORT_CACHE_TAG_BITS;
      if cpar.hashLog > cap {
        cpar := cpar.(hashLog := cap);
      }
      if cpar.chainLog > cap {
        cpar := cpar.(chainLog := cap);
      }
    }
    var finder := if rows == Auto then Enable else rows;
    if RowFinderUsed(cpar.strategy, finder) {
      var cap := 32 - ROW_HASH_TAG_BITS + Clamp(cpar.searchLog, 4, 6);
      if cpar.hashLog > cap {
        cpar := cpar.(hashLog := cap);
      }
    }
  }

  /** The code's step-by-step adjustment arrives there. */
  method AdjustCParamsInternal(cp: CParams, srcSize: u64, dictSize: u64, mode: Mode, rows: Switch)
    returns (cpar: CParams)
    requires CheckCParams(cp) && Summable(cp, srcSize, dictSize, mode)
    ensures cpar == Adjusted(cp, srcSize, dictSize, mode, rows)
  {
    hide DictAndWindowLog, InputLog, HashCap, ChainCap;
    var src, dict := ResolveSizes(srcSize, dictSize, mode);
    InputLogBounds(src, dict);
    cpar := ShrinkWindow(cp, src, dict);
    if src != U64_MAX {
      cpar := ShrinkTables(cpar, src, dict);
    }
    if cpar.windowLog < WINDOWLOG_ABSOLUTEMIN {
      cpar := cpar.(windowLog := WINDOWLOG_ABSOLUTEMIN);
    }
    cpar := CapTables(cpar, mode, rows);
  }

  /** The public entry: clamp, read a zero source as unknown, adjust. */
  function AdjustCParams(cp: CParams, src: u64, dict: u64): CParams {
    Adjusted(ClampCParams(cp), if src == 0 then U64_MAX else src, dict, Unknown, Auto)
  }

  lemma InputLogBounds(src: u64, dict: u64)
    ensures InputLog(src, dict).Some? ==>
              var l := InputLog(src, dict).value;
              && HASHLOG_MIN <= l <= WINDOWLOG_MAX
              && Pow2(l) >= src + dict
              && (l > HASHLOG_MIN ==> LeastLog(l, src + dict))
  {
    Pow2Window();
    if src <= 0x4000_0000 && dict <= 0x4000_0000 && src + dict >= 64 {
      var l := HighBit(src + dict - 1) + 1;
      HighBitCovers(src + dict);
      if l > 32 { Pow2Grows(31, l - 1); }
      if l < 6 { Pow2Grows(l, 6); }
    }
  }

  /** Adjusting keeps every knob in bounds and never raises one. */
  lemma AdjustedIsAccepted(cp: CParams, src: u64, dict: u64, mode: Mode, rows: Switch)
    requires CheckCParams(cp)
    ensures var r := Adjusted(cp, src, dict, mode, rows);
            && CheckCParams(r)
            && r.windowLog <= cp.windowLog && r.chainLog <= cp.chainLog && r.hashLog <= cp.hashLog
            && r == cp.(windowLog := r.windowLog, chainLog := r.chainLog, hashLog := r.hashLog)
  {
    var sizes := Sizes(src, dict, mode);
    InputLogBounds(sizes.0, sizes.1);
  }

  /** Adjusting twice changes nothing more. */
  lemma AdjustedIsIdempotent(cp: CParams, src: u64, dict: u64, mode: Mode, rows: Switch)
    requires CheckCParams(cp)
    ensures var r := Adjusted(cp, src, dict, mode, rows);
            && CheckCParams(r)
            && Adjusted(r, src, dict, mode, rows) == r
  {
    AdjustedIsAccepted(cp, src, dict, mode, rows);
  }

  /** An input of a known, small enough size. */
  predicate Sized(src: u64, dict: u64) {
    src <= Pow2(WINDOWLOG_MAX - 1) && dict <= Pow2(WINDOWLOG_MAX - 1)
  }

  /** The window of a sized input is the smaller of the original and the smallest
      legal window that covers the source and the dictionary; otherwise it is the
      original. */
  lemma AdjustedWindowFits(cp: CParams, srcSize: u64, dictSize: u64, mode: Mode, rows: Switch)
    requires CheckCParams(cp)
    ensures var (src, dict) := Sizes(srcSize, dictSize, mode);
            var w := Adjusted(cp, srcSize, dictSize, mode, rows).windowLog;
            && w <= cp.windowLog
            && (w < cp.windowLog ==> Sized(src, dict) && Pow2(w) >= src + dict)
            && (Sized(src, dict) && w > WINDOWLOG_ABSOLUTEMIN ==> Pow2(w - 1) < src + dict)
  {
    Pow2Window();
    var (src, dict) := Sizes(srcSize, dictSize, mode);
    InputLogBounds(src, dict);
    if Sized(src, dict) {
      var l := InputLog(src, dict).value;
      if l < WINDOWLOG_ABSOLUTEMIN {
        Pow2Grows(l, WINDOWLOG_ABSOLUTEMIN);
      }
      var w := Adjusted(cp, srcSize, dictSize, mode, rows).windowLog;
      if WINDOWLOG_ABSOLUTEMIN < w < l {
        Pow2Grows(w - 1, l - 1);
      }
    }
  }

  /** The tables of the adjusted parameters index no more than the window and the
      dictionary: the hash at most twice as many slots, the chain cycle no more. */
  lemma AdjustedTablesFit(cp: CParams, srcSize: u64, dictSize: u64, mode: Mode, rows: Switch)
    requires CheckCParams(cp)
    ensures var (src, dict) := Sizes(srcSize, dictSize, mode);
            var r := Adjusted(cp, srcSize, dictSize, mode, rows);
            src != U64_MAX ==>
              && r.hashLog <= DictAndWindowLog(r.windowLog, src, dict) + 1
              && CycleLog(r.chainLog, r.strategy) <= DictAndWindowLog(r.windowLog, src, dict)
  {
    AdjustedIsAccepted(cp, srcSize, dictSize, mode, rows);
    var (src, dict) := Sizes(srcSize, dictSize, mode);
    InputLogBounds(src, dict);
  }

  /** The public entry turns any knobs into accepted ones, and is idempotent. */
  lemma AdjustCParamsIsAccepted(cp: CParams, src: u64, dict: u64)
    ensures CheckCParams(AdjustCParams(cp, src, dict))
    ensures AdjustCParams(AdjustCParams(cp, src, dict), src, dict) == AdjustCParams(cp, src, dict)
  {
    AdjustedIsIdempotent(ClampCParams(cp), if src == 0 then U64_MAX else src, dict, Unknown, Auto);
  }

  /** `l` is the least legal window log whose window covers `size`. */
  ghost predicate LeastWindow(l: nat, size: nat) {
    && WINDOWLOG_ABSOLUTEMIN <= l && Pow2(l) >= size
    && forall k :: WINDOWLOG_ABSOLUTEMIN <= k < l ==> Pow2(k) < size
  }

  /** Its window is the clamped original unless the size is known and small; then it
      is the smaller of that and the least log from 10 up whose window covers the
      source and the dictionary. */
  lemma AdjustCParamsWindow(cp: CParams, src: u64, dict: u64)
    ensures var w := AdjustCParams(cp, src, dict).windowLog;
            var clamped := Clamp(cp.windowLog, WINDOWLOG_ABSOLUTEMIN, WINDOWLOG_MAX);
            if src == 0 || !Sized(src, dict) then w == clamped
            else exists l: nat :: LeastWindow(l, src + dict) && w == Min(clamped, l)
  {
    hide Adjusted;
    Pow2Window();
    var unknown := if src == 0 then U64_MAX else src;
    AdjustedWindowFits(ClampCParams(cp), unknown, dict, Unknown, Auto);
    AdjustCParamsIsAccepted(cp, src, dict);
    if src != 0 && Sized(src, dict) {
      var l := SmallestWindow(src, dict);
      var w := AdjustCParams(cp, src, dict).windowLog;
      var clamped := Clamp(cp.windowLog, WINDOWLOG_ABSOLUTEMIN, WINDOWLOG_MAX);
      WindowIsSmaller(w, clamped, l, src + dict);
    }
  }

  /** A sized input has a least window. */
  lemma SmallestWindow(src: u64, dict: u64) returns (l: nat)
    requires Sized(src, dict)
    ensures LeastWindow(l, src + dict)
  {
    Pow2Window();
    InputLogBounds(src, dict);
    var least := InputLog(src, dict).value;
    l := Max(least, WINDOWLOG_ABSOLUTEMIN);
    forall k | WINDOWLOG_ABSOLUTEMIN <= k < l
      ensures Pow2(k) < src + dict
    {
      if k < l - 1 { Pow2Grows(k, l - 1); }
    }
    if least < WINDOWLOG_ABSOLUTEMIN {
      Pow2Grows(least, WINDOWLOG_ABSOLUTEMIN);
    }
  }

  /** A window no larger than `top`, that covers the size when it is smaller and is not
      twice too large, is the smaller of `top` and the least one. */
  lemma WindowIsSmaller(w: nat, top: nat, l: nat, size: nat)
    requires LeastWindow(l, size) && WINDOWLOG_ABSOLUTEMIN <= w <= top
    requires w < top ==> Pow2(w) >= size
    requires w > WINDOWLOG_ABSOLUTEMIN ==> Pow2(w - 1) < size
    ensures w == Min(top, l)
  {
    if w > l && w - 1 > l { Pow2Grows(l, w - 1); }
  }

  // ------------------------------------------------------------------
  // Modes and tables
  // ------------------------------------------------------------------

  /** A dictionary for an unknown source is built as for one of 513 bytes. */
  lemma BuiltFor513(cp: CParams, dict: u64, rows: Switch)
    requires CheckCParams(cp) && dict != 0
    ensures Adjusted(cp, U64_MAX, dict, CreateCDict, rows) == Adjusted(cp, 513, dict, CreateCDict, rows)
  {
    hide DictAndWindowLog, InputLog, HashCap, ChainCap;
  }

  lemma CapsAlike(strategy: int, searchLog: u32, mode: Mode, rows: Switch)
    requires mode != CreateCDict
    ensures ChainCap(strategy, mode) == ChainCap(strategy, NoAttachDict)
    ensures HashCap(strategy, searchLog, mode, rows) == HashCap(strategy, searchLog, NoAttachDict, rows)
  {
  }

  /** Attaching a dictionary leaves it out of account, and other modes adjust alike. */
  lemma ModesAdjust(cp: CParams, src: u64, dict: u64, rows: Switch)
    requires CheckCParams(cp)
    ensures Adjusted(cp, src, dict, AttachDict, rows) == Adjusted(cp, src, 0, NoAttachDict, rows)
    ensures Adjusted(cp, src, dict, Unknown, rows) == Adjusted(cp, src, dict, NoAttachDict, rows)
  {
    CapsAlike(cp.strategy, cp.searchLog, AttachDict, rows);
    CapsAlike(cp.strategy, cp.searchLog, Unknown, rows);
    hide DictAndWindowLog, InputLog, HashCap, ChainCap;
  }

  /** The log that tables may index: the format's largest for an unknown source, else that
      of the window, shrunk to the input, with the dictionary. */
  function TableReach(cp: CParams, src: u64, dict: u64): nat
    requires CheckCParams(cp)
  {
    if src == 18446744073709551615 then 31
    else DictAndWindowLog(if InputLog(src, dict).Some? then Min(cp.windowLog, InputLog(src, dict).value) else cp.windowLog,
                          src, dict)
  }

  /** The adjusted table logs are the largest that stay within the given ones, what the
      tables may index, and 24 bits, or up to 30 with the row finder, where indices carry
      eight bits of tag. */
  lemma AdjustedTablesExactly(cp: CParams, srcSize: u64, dictSize: u64, mode: Mode, rows: Switch, x: nat)
    requires CheckCParams(cp)
    ensures var (src, dict) := Sizes(srcSize, dictSize, mode);
            var reach, r := TableReach(cp, src, dict), Adjusted(cp, srcSize, dictSize, mode, rows);
            && (x <= r.hashLog <==>
                && x <= cp.hashLog && x <= reach + 1
                && (mode == CreateCDict && cp.strategy in {1, 2} ==> x <= 24)
                && (3 <= cp.strategy <= 5 && rows != Disable ==>
                      x <= if cp.searchLog <= 4 then 28 else if cp.searchLog == 5 then 29 else 30))
            && (x <= r.chainLog <==>
                && x <= cp.chainLog && x <= (if cp.strategy >= 6 then reach + 1 else reach)
                && (mode == CreateCDict && cp.strategy in {1, 2} ==> x <= 24))
  {
    hide DictAndWindowLog, InputLog;
  }
}
