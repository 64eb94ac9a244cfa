# zstdx: a verified model

A Dafny model of the libzstd-compatible layer of zstdx and of four self-contained
algorithms beside it. Frames follow RFC 8878.

Entropy decoding, the encoders and the match finders are abstract: their answers are
unspecified functions of everything they were fed, so every theorem holds for any of
them. What is modelled around them is what the layer does itself.

- `Bytes`, `Arith`: little-endian fields, powers of two, quotients and bits.
- `FrameHeader`, `FrameWalk`: the header parsers and the three block walkers, each
  proved against one recursive walk.
- `BlockEngine`: the limits the decoder checks on one block, and the history its
  streaming buffer keeps, on either of its two paths.
- `FrameContent`: what a byte string means as a frame, a big-step reference reader.
- `OneShot`: one-shot decoding of a series, a reader of its own, and the two readers
  against each other.
- `StreamSpec`, `DStream`, `DCtx`: the streaming decoder's stage machine with its
  staging buffer, flush rounds, hostage byte, shortcut and hint, and the context with
  its sticky error and guard. Each stage arm is a method; one call is proved to be a
  step of a relation over the frame, or one-shot decoding where it takes the shortcut.
- `StreamRuns`: whole runs of that relation, over every slicing of input and output.
- `StreamDrivers`: decoding loops of a caller, refusals included.
- `StreamLimits`, `ShortcutAgreement`, `HiddenFrames`: the inputs on which the decoder's
  claims fail, and the exact conditions under which they hold.
- `FrameSeries`, `ContentBounds`, `InPlaceMargin`, `MergeDelimiters`: series folds, what
  the size bound covers, the in-place margin, the in-place pass over sequences.
- `Encoder`, `EncoderRuns`: the streaming encoder as a class proved equal to a pure
  session function, and conservation over whole runs of that function.
- `Params`, `LongDistance`: clamping and downsizing compression parameters, filling in
  long-distance ones, the memory envelope over levels.
- `Writers`, `Bitstreams`, `RoundTrip`: frame and bitstream writers against the
  parsers, and through the streaming decoder.
- `Programs`: the fuzz target's program interpreter and its event writers.
- `Adapt`: the adaptive level walk and the chunk pipeline.

Where the code and its documentation part, the model follows the code:

- The shortcut decodes one-shot, and the two paths do not accept the same frames. Block
  by block, no block may exceed the smaller of window and 128 KiB, and matches only reach
  the history the buffer keeps; one-shot, a raw block or run of a frame without a
  dictionary only respects 128 KiB and the output's end, all history is there, a compressed
  block must have a body, and declared size and checksum are checked whatever the last
  block is. `ShortcutAgreement.ShortcutAgreesIff` says exactly when the two agree,
  `HeadersDecide` when block headers tell, and `WideRunParts`, `WideRawParts`,
  `HollowBlockParts`, `EmptyLastBlockParts` and `CheckedEmptyRead` are frames on which they
  do not.
- An empty last block is not shown to the engine, which then takes the checksum behind it
  for a block header. Read block by block, the frame that is written for empty input is
  refused, and some wrong checksums pass (`ShortcutAgreement.EmptyChecksumMisread`).
- The single-pass shortcut measures a frame from the call's own first byte. A header
  split across calls whose dictionary ID spells a magic number can send it astray, and
  a valid frame is refused (`StreamLimits.HidingFrameIsRefused`). `Advance` states that
  case's answer exactly, and `HiddenFrames.HiddenAnswerIsRightIff` when it is right.
- The bound on staging fails in frame headers only: each call with such a header leaves
  the bytes the header began with spent but staged, and nothing is dropped before a frame
  opens. `DStreams.DStream.StagingBound` is the exact condition, the contract of `Advance`
  how spent bytes add up, and `HiddenFrames.HiddenRunGrows` has runs that exceed any bound.
- The in-place margin counts on stored bodies within their frame's block limit, which
  one-shot decoding does not ask for. `InPlaceMargin.StoredFrameFitsIff` is the exact
  condition for frames of stored blocks, `InPlaceMargin.WideFrameOverruns` an input.
- A skippable frame's header hint can reach past the frame
  (`StreamLimits.SkippableHintOvershootsIff`).
- The parity header writer puts the dictionary ID in front of the window byte, the
  reverse of RFC 8878 section 3.1.1.1 (`Writers.HeaderRecoveredIff`).
- `ZSTD_writeSkippableFrame` accepts eight payload sizes its reader refuses
  (`Writers.SkippableRoundTripIff`).
- End closes the frame though input is left over (`EncoderRuns.EndLeavesInput`).
- A pledge made between a finished frame and the next call is dropped with that frame
  (`Encoders.CCtx.SetPledged`).
- The memory envelope over levels is documented as non-decreasing; below level 1 that
  depends on the levels' own needs (`LongDistance.EnvelopeIsMonotoneIff`), and for the
  streaming estimate it falls from level 0 to level 1
  (`LongDistance.EnvelopeFallsAfterZero`).
- The output wait of the adaptive pipeline is never reset, so each chunk is charged with
  all waits before it (`Adapt.ChargedOwnWaitIff`, `Adapt.ChargedWaitFlipsVerdict`).

## Model

| member | source | states |
|---|---|---|
| `FrameHeader.FormulaIsParsedLength` | crates/zstdx-ffi/src/frame.rs:281-288 | the descriptor-only size formula, kept in its own tables, equals the length the one-shot parse finds, between 6 and 18 |
| `FrameHeader.WindowIsEighths` | crates/zstdx-ffi/src/frame.rs:270-279 | a window descriptor is one of eight sizes between two powers of two, its low bits counting eighths |
| `FrameHeader.MagicPrefixNecessary` | crates/zstdx-ffi/src/frame.rs:258-268 | a short input the early magic check refuses is a prefix of no zstd and no skippable frame |
| `FrameHeader.FullHeaderLatches` | crates/zstdx-ffi/src/frame.rs:192-253 | a complete header and every error of the incremental parse persist under any extension of the input |
| `FrameHeader.WantedIsNecessary` | crates/zstdx-ffi/src/frame.rs:192-253 | `Wanted(w)` asks for more than is there, and no extension shorter than `w` completes the header |
| `FrameHeader.HeaderSelfDelimiting` | crates/zstdx-ffi/src/frame.rs:71-132 | a header is answered at its own last byte, at no earlier one, and the same whatever follows |
| `FrameHeader.HeaderInTwoRounds` | crates/zstdx-ffi/src/frame.rs:192-253 | feeding five bytes and then exactly what is wanted reaches the one-shot verdict |
| `FrameHeader.HeaderVerdict` | crates/zstdx-ffi/src/frame.rs:192-253 | from the bytes of any header of full length: refused for another magic, the reserved bit or a window above the format's, for nothing else, and complete otherwise |
| `FrameWalk.FrameCompressedSize` | crates/zstdx-ffi/src/frame.rs:293-342 | the metadata loop computes the recursive reference walk with the 128 KiB ceiling, every error included |
| `FrameWalk.FrameSizeInfoOf` | crates/zstdx-ffi/src/frame.rs:450-513 | the size-info loop computes the reference walk without the ceiling, with the size, block count and bound of the frame |
| `FrameWalk.SkippableFrameSize` | crates/zstdx-ffi/src/frame.rs:423-439 | a skippable frame has the size its field says, header included, exactly when that stays below 2^32 and is present; a field that wraps has its own error |
| `FrameWalk.ChainedByte` | crates/zstdx-ffi/src/dctx.rs:209-214 | one address space over the staged prefix and the call's rest: the byte at a position of their concatenation |
| `FrameWalk.ChainedFrameSize` | crates/zstdx-ffi/src/dctx.rs:221-259 | the shortcut's walk over staged bytes and the rest computes the reference walk of their concatenation |
| `FrameWalk.CompressedSizeDelimits` | crates/zstdx-ffi/src/frame.rs:293-342 | the walk is self-delimiting: a frame of n bytes is measured as n in front of anything, and every shorter prefix answers NeedMore |
| `FrameWalk.SizeWalksAgree` | crates/zstdx-ffi/src/frame.rs:450-513 | the two walkers agree on size wherever the ceiling does not refuse and no skippable size wraps |
| `FrameWalk.CeilingOnlyRejects` | crates/zstdx-ffi/src/frame.rs:318-320 | the ceiling only turns accepted walks into refusals, never changes a size |
| `FrameWalk.ChainedWalkAgrees` | crates/zstdx-ffi/src/dctx.rs:221-259 | for a complete zstd header in staging the chained walk accepts with n exactly when the size-info walk accepts the concatenation with n |
| `FrameContent.ScanGrows` | crates/zstdx-ffi/src/dctx.rs:424-455 | the reference reader on a longer input: refusals and completions latch, output only grows, and a completion is at least the wanted bytes away |
| `FrameContent.ScanMatchesSizeInfo` | crates/zstdx-ffi/src/frame.rs:450-513 | a frame the reference reader finishes is exactly what the size-info walk measures, and a measured frame is finished there or refused for its content |
| `FrameContent.HeaderRefusals` | crates/zstdx-ffi/src/dctx.rs:577-600 | the error each of those refusals has |
| `BlockEngine.KeptCoversWindow` | crates/zstdx/src/common/mod.rs:41-63 | the streaming buffer never keeps more than there was, keeps all of it when it covers the declared content, and always keeps the window, so that no match within the window is refused or reads what was written over |
| `BlockEngine.FilledAccounts` | crates/zstdx/src/decoding/flat_buffer.rs:260-303 | over any blocks the two generations account for what was produced, and one that was left is longer than the window, one block and the slack |
| `BlockEngine.FullHistory` | crates/zstdx/src/decoding/flat_buffer.rs:260-303 | under full blocks the buffer is for the window or 1 KiB, two blocks and 64 bytes, each generation is the blocks that fit, and what is kept and which matches are safe follows for every number of blocks |
| `BlockEngine.SameContentIff` | crates/zstdx/src/decoding/flat_buffer.rs:260-303 | where bytes written over never happen to be right, both paths have the same content exactly when no compressed block with output follows, or is, one that reads such bytes |
| `BlockEngine.TakenBoth` | crates/zstdx/src/decoding/frame_decoder.rs:129-139 | a block the block-by-block path takes is within its limits and history, and the one-shot path takes it exactly when it is not a compressed block without a body |
| `BlockEngine.WholeBoth` | crates/zstdx/src/decoding/frame_decoder.rs:745-800 | a block the one-shot path takes is no such block, and the other path takes it when it is within the limits, matches what is kept and leaves the declared size met |
| `OneShots.WholeMatchesSizeInfo` | crates/zstdx/src/decoding/frame_decoder.rs:745-848 | a frame decoded one-shot is exactly what the size-info walk measures |
| `OneShots.ReadIsWhole` | crates/zstdx/src/decoding/frame_decoder.rs:551-677 | blocks read one by one are within that path's limits; one-shot reads them to the same end exactly when none is hollow and the trailer is the checksum of the whole content, with the same content exactly when each had its history |
| `OneShots.FaithfulIsHeard` | crates/zstdx/src/decoding/frame_decoder.rs:898-911 | without a checksum, or behind a last block with a body, blocks that had their history leave both paths with the same verdict on the trailer |
| `OneShots.WholeIsRead` | crates/zstdx/src/decoding/frame_decoder.rs:745-848 | blocks read one-shot are not hollow and have their checksum, and are read one by one to the same end when they are within that path's limits, meet the size and leave the trailer judged alike |
| `OneShots.LastBlockChecks` | crates/zstdx/src/decoding/frame_decoder.rs:645-648 | blocks read one by one past a last block with a body add up to the declared size |
| `OneShots.WholeCut` | crates/zstdx/src/decoding/frame_decoder.rs:745-848 | one-shot decoding of a frame reads nothing behind it |
| `OneShots.UnwrappedKeepsUp` | crates/zstdx/src/decoding/flat_buffer.rs:144-161 | a declared size the buffer covers keeps every match of a frame that one-shot decoding accepts |
| `OneShots.NearIsFaithful` | crates/zstdx/src/decoding/flat_buffer.rs:260-303 | where the buffer cannot wrap, or matches stay in the window, every block regenerates what it does with all of its history |
| `OneShots.OneShotOfOne` | crates/zstdx/src/decoding/frame_decoder.rs:1107-1160 | one-shot decoding, a fold over a series with its own reader of each frame, comes on the bytes of one frame to that frame's output with its declared size met |
| `DStreams.DStream.constructor` | crates/zstdx-ffi/src/dctx.rs:308-330 | a new stream is valid and bounded, at the start of a frame, with nothing staged |
| `DStreams.DStream.Claim` | crates/zstdx-ffi/src/dctx.rs:362-378 | claimed input moves to staging and counts as taken |
| `DStreams.DStream.Compact` | crates/zstdx-ffi/src/dctx.rs:380-391 | compaction drops only spent bytes, keeps the ones asked for, and the unread part of staging is unchanged |
| `DStreams.DStream.Deliver` | crates/zstdx-ffi/src/dctx.rs:393-405 | the longest piece of pending output that fits is written, in order, and nothing else of the buffer |
| `DStreams.DStream.DecodeBlock` | crates/zstdx-ffi/src/dctx.rs:429-455 | a block is taken exactly when it is within the block limit, its matches within what is kept, and a last one leaves the declared size met; its whole output is queued minus what was already released of it, so given plus owed is the content so far |
| `DStreams.DStream.BlockHeaderArm` | crates/zstdx-ffi/src/dctx.rs:607-665 | reading a block header keeps the staging invariant; a refused one is a frame the reference reader refuses |
| `DStreams.DStream.RawBodyArm` | crates/zstdx-ffi/src/dctx.rs:666-709 | a raw body is released piece by piece and skipped once when it is complete: no byte lost or repeated |
| `DStreams.DStream.WholeBodyArm` | crates/zstdx-ffi/src/dctx.rs:710-742 | other bodies are decoded when they are whole, with every earlier block |
| `DStreams.DStream.ChecksumArm` | crates/zstdx-ffi/src/dctx.rs:743-765 | the trailer is taken whole and judged once |
| `DStreams.DStream.DecodeTrailer` | crates/zstdx/src/decoding/frame_decoder.rs:869-1028 | the trailer's verdict: the checksum of the content once the engine was shown the last block; behind an empty last block the four bytes are read as a block header and at most one byte of body |
| `DStreams.DStream.SkipContentArm` | crates/zstdx-ffi/src/dctx.rs:766-784 | skippable content is taken and dropped without staging |
| `DStreams.DStream.Shortcut` | crates/zstdx-ffi/src/dctx.rs:512-546 | the single-pass path runs exactly when the declared content fits the room and the bytes from the call's start are walked as a whole frame in what is offered; it then gives what one-shot decoding makes of them, all of it, and drops them from staging, or fails exactly when that fails or does not fit |
| `DStreams.DStream.WantedArm` | crates/zstdx-ffi/src/dctx.rs:572-599 | the header hint is what the reference reader wants, and an early refusal is deserved |
| `DStreams.DStream.HeaderArm` | crates/zstdx-ffi/src/dctx.rs:497-606 | one round of the header stage: a strictly decreasing measure, the shortcut exactly when it applies, and otherwise answers that match the reference reader |
| `DStreams.DStream.FlushRound` | crates/zstdx-ffi/src/dctx.rs:466-496 | a flush round hands out pending output and stops the call only when the buffer is full |
| `DStreams.DStream.Answer` | crates/zstdx-ffi/src/dctx.rs:788-851 | hint 0 when read and flushed, 1 with the last byte handed back while output is owed, otherwise what the piece wants; the rewind and every subtraction stay in range |
| `DStreams.DStream.Advance` | crates/zstdx-ffi/src/dctx.rs:466-852 | one call, for every input slice and output room: one-shot decoding when the shortcut applies, and otherwise a step of the frame relation (taken bytes in order, output appended, exact hint) or a refusal the bytes deserve, with the error of what is wrong with them; cursors, the input a refusal commits, buffer, spent staging and termination included |
| `DStreams.DStream.StagingBound` | crates/zstdx-ffi/src/dctx.rs:380-391 | between calls 131,075 bytes or more are staged exactly when the stream is in a frame header and spent bytes and header together are that many; with a frame open or behind one, never |
| `HiddenFrames.HiddenRunGrows` | crates/zstdx-ffi/src/dctx.rs:540-543 | the bound on staging does fail: a run of n such calls leaves 5n spent bytes, with every engine that opens those frames |
| `DStreams.DStream.BoundaryIsFresh` | crates/zstdx-ffi/src/dctx.rs:408-412 | the boundary test holds exactly when nothing of a frame has been read, given or is owed |
| `DStreams.DStream.Rests` | crates/zstdx-ffi/src/dctx.rs:424-455 | between calls output given and owed is exactly what the taken bytes determine, and a finished frame is held hostage |
| `StreamSpec.StepHolds` | crates/zstdx-ffi/src/dctx.rs:788-851 | bytes claimed, minus a hostage handed back, plus one released, are the net input of a call |
| `StreamRuns.StepOnTrack` | crates/zstdx-ffi/src/dctx.rs:466-852 | what one call preserves against the whole stream, and a hint that never reaches past the frame |
| `StreamRuns.RunDelivers` | crates/zstdx-ffi/src/dctx.rs:466-852 | for every valid frame and every slicing of input and output across calls, the output is a prefix of the content, and all of it with the frame consumed to its last byte when the hint is 0; cursor plus hint stay inside the frame exactly outside the short skippable headers named there |
| `StreamRuns.HintZeroIff` | crates/zstdx-ffi/src/dctx.rs:788-809 | the hint is 0 exactly when the cursor is at the frame's end and the content is all handed out |
| `StreamRuns.StepProgress` | crates/zstdx-ffi/src/dctx.rs:484-787 | a call offered one byte each way moves a cursor, hostage rewind included |
| `StreamRuns.RunIsBounded` | crates/zstdx-ffi/src/dctx.rs:466-852 | steps that each offer a byte both ways reach hint 0 within the frame's size plus its content |
| `StreamRuns.SkippableShortHint` | crates/zstdx-ffi/src/dctx.rs:572-599 | what is wanted in the header of a skippable frame, after each number of its bytes |
| `StreamRuns.HintReaches` | crates/zstdx-ffi/src/dctx.rs:788-851 | cursor plus hint stay inside a frame exactly unless a skippable header shorter than that is still incomplete |
| `StreamDrivers.ValidNeverRefused` | crates/zstdx-ffi/src/dctx.rs:466-852 | a valid frame in progress is never refused, whatever is offered of it |
| `StreamDrivers.ValidShortcut` | crates/zstdx-ffi/src/dctx.rs:512-546 | on a valid frame the shortcut gives what the block-by-block path would |
| `StreamDrivers.DriverFinishes` | crates/zstdx-ffi/src/dctx.rs:1088-1168 | a loop of calls on a valid frame, shortcuts, answers and refusals alike, that offers a byte each way and hides no header: no call is an error, hint 0 comes within the budget of frame and content bytes, with the whole content handed out |
| `StreamDrivers.LongOffersFinish` | crates/zstdx-ffi/src/dctx.rs:1088-1168 | a loop that offers eighteen bytes, or all there are, needs no such condition |
| `StreamDrivers.SeriesFinishes` | crates/zstdx-ffi/src/dctx.rs:1088-1168 | a loop over any series of valid frames that offers a byte each way and hides no header: no call is refused, each moves a cursor, the output is a start of the joined contents, and all of them with a last hint of 0 once the input is consumed |
| `StreamDrivers.LongSeriesFinishes` | crates/zstdx-ffi/src/dctx.rs:1088-1168 | the same for a loop that offers eighteen bytes or all there are, hidden headers ruled out |
| `StreamDrivers.ValidSeriesDecodes` | crates/zstdx/src/decoding/frame_decoder.rs:1107-1160 | one-shot decoding of a series of valid frames gives those joined contents too |
| `StreamRuns.TakenBefore` | crates/zstdx-ffi/src/dctx.rs:810-821 | a frame in progress is short of its end or has its last byte held back |
| `StreamRuns.CutAtEnd` | crates/zstdx-ffi/src/dctx.rs:466-852 | a frame is recognised from its own bytes alone |
| `StreamRuns.SeriesDelivers` | crates/zstdx-ffi/src/dctx.rs:466-852 | over a stream of frames the output is the content of the finished frames followed by a prefix of the next one's |
| `StreamRuns.SeriesExtends` | crates/zstdx-ffi/src/dctx.rs:802-809 | a whole frame behind an exact series adds its content to the series' |
| `ShortcutAgreement.ShortcutAgreesIff` | crates/zstdx-ffi/src/dctx.rs:512-546 | on a frame offered whole from its first byte, shortcut and block-by-block path agree exactly when both refuse it, or: every block is within the window's block limit, none is a compressed block without a body, each has its history, both judge the trailer alike, and the last block is not empty or the declared size is met |
| `ShortcutAgreement.HeadersDecide` | crates/zstdx-ffi/src/dctx.rs:512-546 | where the buffer covers the declared content, or matches stay in the window, the conditions are read off the block headers alone: block limits, bodies, and an empty last block, behind which the declared size and the trailer go unchecked; in front of what the shortcut decodes, block limits and what a trailer behind an empty last block looks like |
| `ShortcutAgreement.AcceptedReadIff` | crates/zstdx/src/decoding/frame_decoder.rs:869-1028 | of the frames one-shot decoding accepts there, the block-by-block path reads, and reads the same, exactly those within their block limits whose trailer behind an empty last block passes for a block header |
| `ShortcutAgreement.ShortcutReads` | crates/zstdx-ffi/src/dctx.rs:221-259 | what the shortcut's walk finds is one frame: each path reads it to that end or refuses it, and one-shot decoding of it is of that frame |
| `ShortcutAgreement.FrameReadIsWhole` | crates/zstdx/src/decoding/frame_decoder.rs:745-848 | a frame read block by block: when one-shot decoding reads it too, and when to the same content |
| `ShortcutAgreement.FrameWholeIsRead` | crates/zstdx/src/decoding/frame_decoder.rs:551-677 | a frame decoded one-shot: when the block-by-block path reads it too, and exactly when to the same content |
| `ShortcutAgreement.CompletionIsStepIff` | crates/zstdx-ffi/src/dctx.rs:788-809 | finishing a frame in one call is a step exactly when the frame ends there with that content |
| `ShortcutAgreement.CleanShortcutIsRightIff` | crates/zstdx-ffi/src/dctx.rs:512-546 | a call that takes the shortcut from the frame's first byte answers as the block-by-block path may exactly when the frame is ordinary, or is refused on both paths |
| `ShortcutAgreement.WideRunParts` | crates/zstdx/src/decoding/frame_decoder.rs:736-800 | a 1 KiB window and one last run of 2000 declared bytes: decoded by the shortcut, refused block by block |
| `ShortcutAgreement.WideRawParts` | crates/zstdx/src/decoding/frame_decoder.rs:736-800 | the same with a raw block, whatever its bytes |
| `ShortcutAgreement.HollowBlockParts` | crates/zstdx-ffi/src/dctx.rs:645-656 | one compressed block without a body and no declared bytes: read block by block, refused by the shortcut |
| `ShortcutAgreement.CheckedEmptyRead` | crates/zstdx-ffi/src/dctx.rs:743-765 | a checksummed frame whose only block is empty: the shortcut passes it exactly when the trailer is the checksum of no content, the block-by-block path by what the trailer looks like as a block header |
| `ShortcutAgreement.EmptyChecksumMisread` | crates/zstdx-ffi/src/dctx.rs:743-765 | so the frame written for empty input is refused block by block, and one with a wrong checksum passes, whatever else the engine does |
| `ShortcutAgreement.EmptyLastBlockParts` | crates/zstdx-ffi/src/dctx.rs:645-656 | five declared bytes and one empty last block: the shortcut takes it and refuses, block by block it is read to its end with nothing, for any engine |
| `StreamLimits.EmptyLastBlockEscapes` | crates/zstdx-ffi/src/dctx.rs:645-656 | that nine-byte frame is read to its end with no output block by block, since its block is never shown to the engine, and refused one-shot, whatever the engine is |
| `StreamLimits.EmptyLastBlockTakesShortcut` | crates/zstdx-ffi/src/dctx.rs:221-259 | the shortcut's walk accepts that same frame, so the two paths part on it |
| `StreamLimits.WholeBySize` | crates/zstdx/src/decoding/frame_decoder.rs:226-234 | a frame whose blocks one-shot decoding reads to the end of the input is decoded exactly when the declared size is met |
| `StreamLimits.HiddenNeedsLongHeader` | crates/zstdx-ffi/src/dctx.rs:512-523 | only a header of at least eleven bytes with four of them from earlier calls can mislead the shortcut |
| `StreamLimits.HidingFrameIsValid` | crates/zstdx-ffi/src/dctx.rs:512-546 | a concrete frame whose dictionary ID spells the magic, valid for every engine that opens it |
| `StreamLimits.HidingFrameIsRefused` | crates/zstdx-ffi/src/dctx.rs:512-546 | offered after its first five bytes with room for its content, that frame is refused by every engine: the hidden bytes declare nothing and give 32 bytes |
| `HiddenFrames.HiddenAnswerIsRightIff` | crates/zstdx-ffi/src/dctx.rs:512-546 | on a valid frame a call with a hidden header answers rightly exactly when the hidden bytes end where the frame does and decode on their own to its content |
| `HiddenFrames.TwinAnswersRightly` | crates/zstdx-ffi/src/dctx.rs:512-546 | a concrete frame hides its header and is answered rightly all the same, by every engine that opens it and the one hidden in it |
| `StreamLimits.SkippableHintOvershootsIff` | crates/zstdx-ffi/src/dctx.rs:572-599 | in the header of a skippable frame the hint reaches past the frame exactly when the frame is shorter than nine bytes before its fifth byte, eleven from there on |
| `StreamLimits.SkippableHintOvershoots` | crates/zstdx-ffi/src/dctx.rs:572-599 | the empty skippable frame after five bytes is such a case |
| `DCtxs.DCtx.Guard` | crates/zstdx-ffi/src/dctx.rs:1099-1116 | the sixteenth call in a row that moves neither cursor is refused, with the cause by which side was full |
| `DCtxs.DCtx.StreamInner` | crates/zstdx-ffi/src/dctx.rs:1118-1168 | cursors commit on success; on an error they stay, except that a magic refused within its first four bytes commits the input; what is left in staging is exact |
| `DCtxs.DCtx.Serve` | crates/zstdx-ffi/src/dctx.rs:1088-1116 | an idle call adds one to the count and any other clears it, those that wait in a frame header left out; the guard refuses a call exactly when it would be the sixteenth, with the cause by which side was full, and only calls that offered no byte to read or no room |
| `DCtxs.DCtx.DecompressStream` | crates/zstdx-ffi/src/dctx.rs:1088-1168 | the entry: wild cursors, the sticky error replayed with nothing changed, else a stream call with exactly the spent bytes in front of a frame header that the calls so far left, and staging short of 131,075 bytes unless those reach it; every error sticks, has its cause, and says which cursors moved |
| `DCtxs.DCtx.ResetSession` | crates/zstdx-ffi/src/dctx.rs:1037-1041 | a session reset forgets the frame, the error and the guard count |
| `DCtxs.OfferedMoves` | crates/zstdx-ffi/src/dctx.rs:1099-1116 | a call that moves nothing was offered nothing on one side, so a driver that offers both never trips the guard |
| `FrameSeries.FindDecompressedSize` | crates/zstdx-ffi/src/frame.rs:352-386 | the series loop computes the recursive declared size, with unknown and inexact series told apart |
| `FrameSeries.UnknownIff` | crates/zstdx-ffi/src/frame.rs:352-386 | a series is of unknown size exactly when frames of known sizes lead to one that declares none, and every other shortfall is an error |
| `FrameSeries.DeclaredSizeAdds` | crates/zstdx-ffi/src/frame.rs:352-386 | declared sizes add up over concatenated exact series |
| `FrameSeries.FrameSeriesWalk` | crates/zstdx-ffi/src/dctx.rs:117-132 | the series walk computes the recursive tail, and whether a real frame was passed |
| `FrameSeries.RealFrameIff` | crates/zstdx-ffi/src/dctx.rs:117-132 | the walk's flag says exactly whether a zstd frame stands, measurable, among the frames it passes |
| `FrameSeries.TailIsStuckSuffix` | crates/zstdx-ffi/src/dctx.rs:117-132 | the tail is a suffix on which the frame walk cannot go on |
| `FrameSeries.KnownSeriesLeavesNoTail` | crates/zstdx-ffi/src/dctx.rs:117-132 | an exact series of known sizes leaves no tail, and is passed whole in front of anything |
| `FrameSeries.DecompressBound` | crates/zstdx-ffi/src/frame.rs:518-540 | the bound loop sums the frame bounds with 64-bit wrap-around, or answers the error value |
| `FrameSeries.BoundIsDeclaredSize` | crates/zstdx-ffi/src/frame.rs:518-540 | on exact series of known sizes without wrapping skips the bound is the declared size |
| `ContentBounds.BoundIsTotal` | crates/zstdx-ffi/src/frame.rs:518-540 | the loop over a series it accepts comes to the sum of the frames' bounds modulo 2^64 |
| `ContentBounds.FrameBounded` | crates/zstdx-ffi/src/frame.rs:503-507 | a frame decoded one-shot, blocks within their limit, is no larger than its bound, content size declared or not |
| `ContentBounds.ReadFrameBounded` | crates/zstdx-ffi/src/frame.rs:503-507 | and so is a frame read block by block that has its declared size, if any |
| `ContentBounds.BoundCovers` | crates/zstdx-ffi/src/frame.rs:518-540 | the bound of a series covers what one-shot decoding makes of it, as far as the sum stays below 2^64 |
| `ContentBounds.WrittenBound` | crates/zstdx-ffi/src/frame.rs:503-507 | a written frame without a content size has as its bound the smaller of window and 131072, once for each of its blocks |
| `InPlaceMargin.DecompressionMargin` | crates/zstdx-ffi/src/frame.rs:547-582 | the margin loop computes the overhead of the series plus its largest block, or the header error or corruption of the first frame that cannot be measured |
| `InPlaceMargin.InPlaceIsSafe` | crates/zstdx-ffi/src/frame.rs:547-582 | with a series that one-shot decoding accepts at the end of a buffer of content plus margin, no block's output overwrites unread input, where no body is longer than what it regenerates or than its frame's block limit |
| `InPlaceMargin.SeriesFitsWithin` | crates/zstdx-ffi/src/frame.rs:547-582 | at every block boundary the gap between output and unread input is at least the block about to be written |
| `InPlaceMargin.BlocksCost` | crates/zstdx-ffi/src/frame.rs:462-494 | every block of a walk costs at least its header, so overhead never exceeds the frame |
| `InPlaceMargin.StoredFrameFitsIff` | crates/zstdx-ffi/src/frame.rs:547-582 | a frame of stored blocks that one-shot decoding accepts is safe with its margin exactly when each block is no longer than the block limit plus the headers in front of its own |
| `InPlaceMargin.WideFrameOverruns` | crates/zstdx-ffi/src/frame.rs:547-582 | a frame with a raw block above its block limit, decoded one-shot, gives more than the margin leaves in front of that block |
| `MergeDelimiters.MergeBlockDelimiters` | crates/zstdx-ffi/src/frame.rs:717-738 | the in-place pass leaves the pure fold in front and the rest of the array alone, the write index never ahead |
| `MergeDelimiters.MergedKeepsMatches` | crates/zstdx-ffi/src/frame.rs:717-738 | no delimiter is left, and the other sequences keep offset, match length and repcode in order |
| `MergeDelimiters.LiteralsConserved` | crates/zstdx-ffi/src/frame.rs:717-738 | literal totals are conserved up to the run ending in the final delimiters and 2^32 per wrapped sum |
| `Encoders.StreamState.constructor` | crates/zstdx-ffi/src/cctx.rs:281-300 | a fresh frame has asked nothing, emitted nothing and handed out nothing |
| `Encoders.StreamState.Deliver` | crates/zstdx-ffi/src/cctx.rs:306-318 | delivering moves the longest fitting piece of the sink to the caller and drops a drained sink; handed plus sink is what the encoder emitted |
| `Encoders.StreamState.PumpRound` | crates/zstdx-ffi/src/cctx.rs:738-751 | one round: deliver, then feed the next chunk unless output is full, input read or the frame closed |
| `Encoders.StreamState.Pump` | crates/zstdx-ffi/src/cctx.rs:738-751 | the loop makes exactly the requests of the recursive pump: chunks of at most 128 KiB, in order, for as long as everything emitted fits |
| `Encoders.StreamState.Close` | crates/zstdx-ffi/src/cctx.rs:752-766 | Flush always asks, End asks once, Continue never |
| `Encoders.StreamState.Turn` | crates/zstdx-ffi/src/cctx.rs:731-777 | a call equals the pure turn function, and leaves both counters at the true totals |
| `Encoders.PumpedFeeds` | crates/zstdx-ffi/src/cctx.rs:738-751 | the pump feeds a prefix of the input once and in order, and stops short only at full output or a closed frame |
| `Encoders.ReachedFeeds` | crates/zstdx-ffi/src/cctx.rs:738-751 | so does a pump that meets a chunk the encoder rejects, up to that chunk |
| `Encoders.TurnGrows` | crates/zstdx-ffi/src/cctx.rs:682-777 | over a call requests and output only grow, output stays a prefix of what was emitted, and only a full buffer leaves output owed |
| `Encoders.EndCloses` | crates/zstdx-ffi/src/cctx.rs:760-766 | after an End call the frame is closed |
| `Encoders.CCtx.constructor` | crates/zstdx-ffi/src/cctx.rs:348-362 | a new context is idle, without pledge, error or counters |
| `Encoders.CCtx.ResetSession` | crates/zstdx-ffi/src/cctx.rs:626-630 | a session reset drops frame, error and pledge and keeps the last counters |
| `Encoders.CCtx.SetPledged` | crates/zstdx-ffi/src/cctx.rs:394-400 | a pledge is refused in mid-frame and has no effect while a finished frame waits to be retired |
| `Encoders.CCtx.CompressStream2` | crates/zstdx-ffi/src/cctx.rs:682-777 | a call equals the pure session function: sticky errors replayed, finished frames retired, polls ignored, frames opened with the right pledge, return value the pending count; a call on which the encoder fails leaves both cursors behind what it had fed and handed out |
| `Encoders.CCtx.FrameProgression` | crates/zstdx-ffi/src/cctx.rs:801-807 | the four counters are the true input and output totals of the running frame, or of the last finished one |
| `EncoderRuns.CallTakes` | crates/zstdx-ffi/src/cctx.rs:682-777 | a call, a failing one too, takes no more than was offered and gives no more than fits |
| `EncoderRuns.FlushAsks` | crates/zstdx-ffi/src/cctx.rs:755-759 | every Flush call that returns leaves the frame open with a flush as its last request, only input before it; it returns 0 exactly when everything emitted up to that flush is handed out |
| `EncoderRuns.ContinueAsks` | crates/zstdx-ffi/src/cctx.rs:738-754 | Continue adds only input, and without a frame and without input it does nothing |
| `EncoderRuns.EndAsks` | crates/zstdx-ffi/src/cctx.rs:760-776 | End adds exactly one finish, behind input only, to a finished frame nothing; the frame is retired, with its totals, exactly when everything is handed out |
| `EncoderRuns.TurnDisciplined` | crates/zstdx-ffi/src/cctx.rs:738-766 | chunks are never empty or oversized, a frame is finished at most once, and only flushes follow |
| `EncoderRuns.RunConserves` | crates/zstdx-ffi/src/cctx.rs:682-777 | over any error-free run, any number of frames: input taken is what the frames were fed, output given plus the pending count is all they emitted, completed frames are closed |
| `EncoderRuns.RunTakesPrefix` | crates/zstdx-ffi/src/cctx.rs:738-771 | however one input is sliced into calls, what was taken is a prefix of it |
| `EncoderRuns.OwingMeansFull` | crates/zstdx-ffi/src/cctx.rs:767-776 | a call that owes output filled the buffer; End returns 0 exactly when the frame retires |
| `EncoderRuns.EndAgain` | crates/zstdx-ffi/src/cctx.rs:752-776 | End on a closed frame takes nothing and hands out the next of what is owed |
| `EncoderRuns.EndDrains` | crates/zstdx-ffi/src/cctx.rs:752-776 | repeating End with room drains the frame in at most as many calls as bytes are owed, giving exactly those |
| `EncoderRuns.PumpTakesAllIff` | crates/zstdx-ffi/src/cctx.rs:738-751 | a call takes all its input exactly when everything emitted before the last chunk fits in its room |
| `EncoderRuns.EndLeavesInput` | crates/zstdx-ffi/src/cctx.rs:738-766 | without room End closes the frame over unread input, which no later End takes |
| `Params.DictAndWindowLog` | crates/zstdx-ffi/src/params.rs:350-363 | the table window: unchanged, or the least log covering window and dictionary, up to the largest |
| `Params.ClampCParams` | crates/zstdx-ffi/src/params.rs:366-393 | every knob inside its bounds, and each knob already inside untouched |
| `Params.AdjustCParamsInternal` | crates/zstdx-ffi/src/params.rs:403-473 | the step-by-step adjustment arrives at the closed form, for every mode and row-finder switch |
| `Params.AdjustedTablesExactly` | crates/zstdx-ffi/src/params.rs:435-473 | adjusted hash and chain logs are the largest that stay within the given ones, what the tables may index for source and dictionary, and the tag bits of their mode |
| `Params.ModesAdjust` | crates/zstdx-ffi/src/params.rs:412-423 | attaching leaves the dictionary out of account, and unknown mode adjusts as no-attach does |
| `Params.BuiltFor513` | crates/zstdx-ffi/src/params.rs:410-419 | a dictionary for an unknown source is built as for one of 513 bytes |
| `Params.AdjustedIsAccepted` | crates/zstdx-ffi/src/params.rs:403-473 | adjusted knobs are accepted, and no knob is raised |
| `Params.AdjustedIsIdempotent` | crates/zstdx-ffi/src/params.rs:403-473 | adjusting twice changes nothing more, in every mode |
| `Params.AdjustedWindowFits` | crates/zstdx-ffi/src/params.rs:424-434 | the window shrinks only to cover source and dictionary, and is never twice too large for a sized input |
| `Params.AdjustedTablesFit` | crates/zstdx-ffi/src/params.rs:435-444 | the hash log is at most one above, and the chain cycle at most, the log covering window and dictionary |
| `Params.AdjustCParamsIsAccepted` | crates/zstdx-ffi/src/params.rs:1160-1178 | arbitrary knobs become accepted ones, and a second call changes nothing |
| `Params.AdjustCParamsWindow` | crates/zstdx-ffi/src/params.rs:1160-1178 | the window is the clamped original, or for a sized input the smaller of that and the least log from 10 up that covers source and dictionary |
| `LongDistance.Filled` | crates/zstdx-ffi/src/params.rs:593-624 | filled-in long-distance parameters are usable, buckets fit the table, and the setters would accept them |
| `LongDistance.FilledDefaults` | crates/zstdx-ffi/src/params.rs:593-624 | with nothing chosen, rate, shortest match and bucket size of each of the nine strategies |
| `LongDistance.LdmAdjustParameters` | crates/zstdx-ffi/src/params.rs:593-624 | the assignments in sequence arrive at the closed form |
| `LongDistance.FilledIsIdempotent` | crates/zstdx-ffi/src/params.rs:593-624 | filling in twice changes nothing more, and chosen fields are kept |
| `LongDistance.FilledCoversWindow` | crates/zstdx-ffi/src/params.rs:595-612 | table log plus rate is the window log exactly when bounds and choices allow it |
| `LongDistance.TableSizeIsHeadsAndEntries` | crates/zstdx-ffi/src/params.rs:627-635 | after filling in, heads times bucket size is the number of entries, and the size is both tables |
| `LongDistance.MonotoneEnvelope` | crates/zstdx-ffi/src/params.rs:893-901 | the loop finds the largest need among the levels it covers, and one of them has it |
| `LongDistance.EnvelopeIsMonotone` | crates/zstdx-ffi/src/params.rs:891-901 | from level 1 up the envelope never falls |
| `LongDistance.EnvelopeIsMonotoneIff` | crates/zstdx-ffi/src/params.rs:891-901 | below level 1 the documented claim holds exactly when the single levels' needs do not fall |
| `LongDistance.RowsDecide` | crates/zstdx-ffi/src/params.rs:529-538 | with the level table that comes down to three rows: the baseline's, the default level's that level 0 takes, and level 1's |
| `LongDistance.EstimateIs` | crates/zstdx-ffi/src/params.rs:652-853 | the streaming estimate of each level up to 1 for an unknown size: a fixed part, the window and the tables |
| `LongDistance.EnvelopeFallsAfterZero` | crates/zstdx-ffi/src/params.rs:891-901 | the claim fails from level 0 to level 1 and holds up to level 0 |
| `Writers.PushBlock` | crates/zstdx/src/parity.rs:33-37 | what is appended reads back: a header with the flag, the type and the size modulo 2^21, then the content |
| `Writers.PushRleRun` | crates/zstdx/src/parity.rs:245-249 | what is appended reads back: a run header with the run length modulo 2^21, then the one byte |
| `Writers.BlockHeadReadsBack` | crates/zstdx/src/parity.rs:33-37 | a written block header reads back, its size modulo 2^21 |
| `Writers.WriteHeader` | crates/zstdx/src/parity.rs:99-138 | the header writer, flag by flag and field by field |
| `Writers.HeaderReadsBack` | crates/zstdx/src/parity.rs:99-138 | exactly what the parser makes of any header of legal forms, whatever follows it |
| `Writers.HeaderRecoveredIff` | crates/zstdx/src/parity.rs:117-122 | window and dictionary ID are recovered exactly when one of the two fields is absent or swapping them changes nothing |
| `Writers.WindowsDistinct` | crates/zstdx-ffi/src/frame.rs:272-276 | distinct window descriptors name distinct windows, in order |
| `Writers.RawFrame` | crates/zstdx/src/parity.rs:143-150 | a frame is header, one last raw block and a zero checksum if asked |
| `Writers.WrittenBlocksContent` | crates/zstdx/src/parity.rs:33-37 | written raw blocks, runs and coded blocks that decode are read back in order by both readers, each coded block with the non-empty blocks in front of it |
| `Writers.RunsThenCoded` | crates/zstdx/src/parity.rs:224-241 | the frames of runs in front of a coded block, block by block |
| `Writers.WrittenBlocksWalk` | crates/zstdx/src/parity.rs:33-37 | any written run of blocks is walked to exactly its length and count |
| `Writers.WrittenFrameMeasured` | crates/zstdx/src/parity.rs:143-150 | any written frame is measured exactly, whatever follows it |
| `Writers.RawFrameMeasuredIff` | crates/zstdx-ffi/src/frame.rs:314-327 | a raw frame is measured exactly when its payload fits a block, and malformed above |
| `Writers.WrittenFrameContent` | crates/zstdx/src/parity.rs:143-150 | reading a written frame, coded blocks included, that keeps what its header says, its zero checksum too, block by block or one-shot, gives back what the pieces stand for in order |
| `RoundTrip.WrittenFrameStreams` | crates/zstdx-ffi/src/dctx.rs:466-852 | and so does every run of the streaming decoder over it that ends with hint 0, however sliced |
| `RoundTrip.WrittenFrameFinishes` | crates/zstdx-ffi/src/dctx.rs:1088-1168 | a decoding loop over it, whatever follows, that offers eighteen bytes or all there are is never refused and comes to that end within its budget of calls |
| `Writers.WriteSkippableFrame` | crates/zstdx-ffi/src/frame.rs:604-640 | the errors in their order, else magic, size and payload in front of an otherwise untouched buffer |
| `Writers.ReadSkippableFrame` | crates/zstdx-ffi/src/frame.rs:644-691 | the errors in their order, else payload and variant |
| `Writers.SkippableReadsBack` | crates/zstdx-ffi/src/frame.rs:201-216 | a written skippable frame's header is recognised by each parser, size and variant included, in front of anything |
| `Writers.SkippableRoundTripIff` | crates/zstdx-ffi/src/frame.rs:604-691 | reading inverts writing exactly up to 2^32 - 9 payload bytes; the eight larger sizes the writer accepts are refused |
| `Bitstreams.Huff2Stream` | crates/zstdx/src/parity.rs:300-313 | read backwards the stream gives its marker, the codes in order, then 8 * size - 1 - 2 * |codes| zero bits |
| `Bitstreams.Huff2TightStream` | crates/zstdx/src/parity.rs:318-332 | ten codes use three bytes to the last bit |
| `Bitstreams.Huff2LeftoverStream` | crates/zstdx/src/parity.rs:337-350 | with ten codes eleven zero bits are left over |
| `Bitstreams.StreamReadsBack` | crates/zstdx/src/parity.rs:300-350 | any buffer with those bits reads back that way |
| `Bitstreams.ExtraBitsStream` | crates/zstdx/src/parity.rs:253-262 | the bytes are the little-endian encoding of 2^n + v, and read backwards as n bits of v below a marker |
| `Bitstreams.ReadDownValue` | crates/zstdx/src/parity.rs:251-262 | reading downwards reads a bit field of the little-endian value |
| `Programs.NextNonzero` | crates/zstdx-fuzz/fuzz_targets/encode.rs:107-114 | the generator never gets stuck at zero |
| `Programs.FlipsAreFew` | crates/zstdx-fuzz/fuzz_targets/encode.rs:348-351 | flips change at most as many bytes as asked, inside the copied span |
| `Programs.CopyBack` | crates/zstdx-fuzz/fuzz_targets/encode.rs:334-347 | the byte-by-byte overlapping copy is the periodic extension of the virtual history |
| `Programs.RepeatIsPeriodic` | crates/zstdx-fuzz/fuzz_targets/encode.rs:334-347 | every copied byte is the one its distance back, through dictionary and output |
| `Programs.PeriodicIsUnique` | crates/zstdx-fuzz/fuzz_targets/encode.rs:334-347 | that recursive reading determines the copy, so the two specifications are one |
| `Programs.ExpandProgram` | crates/zstdx-fuzz/fuzz_targets/encode.rs:303-369 | every byte string expands, in bounds and within 256 KiB, to what its decoded events say |
| `Programs.RunAppend` | crates/zstdx-fuzz/fuzz_targets/encode.rs:315-367 | running a program is running its first part and the rest on what that left |
| `Programs.PushNoise` | crates/zstdx-fuzz/fuzz_targets/encode.rs:456-459 | whatever follows, the interpreter reads the noise event back where the program ended and goes on behind it |
| `Programs.PushRepeat` | crates/zstdx-fuzz/fuzz_targets/encode.rs:461-466 | whatever follows, the interpreter reads the repeat event back, distance, length and flips, and goes on behind it |
| `Programs.WrittenProgramDecodes` | crates/zstdx-fuzz/fuzz_targets/encode.rs:448-466 | a written program decodes to exactly the events it was written from |
| `Programs.WrittenProgramExpands` | crates/zstdx-fuzz/fuzz_targets/encode.rs:303-369 | and expands to running those events on the dictionary its first byte asks for |
| `Programs.WrittenProgramTells` | crates/zstdx-fuzz/fuzz_targets/encode.rs:303-369 | byte by byte: each event adds its literals, generator bytes, padding or flipped copy by position, on a dictionary of the generator's first bytes |
| `Programs.PlainProgramSpells` | crates/zstdx-fuzz/fuzz_targets/encode.rs:319-367 | a program of literals and paddings expands to them, cut at 256 KiB |
| `Programs.NoiseProgramStreams` | crates/zstdx-fuzz/fuzz_targets/encode.rs:353-359 | byte k of a program of noise is the generator's after k + 1 steps, for the sum of the lengths up to 256 KiB |
| `Programs.CutOperandsAreZero` | crates/zstdx-fuzz/fuzz_targets/encode.rs:268-282 | an event whose operands are cut off is read as if zeros followed |
| `Programs.NextOfOne` | crates/zstdx-fuzz/fuzz_targets/encode.rs:107-121 | the generator's first value, its byte and the seeds of two programs |
| `Adapt.Policy.constructor` | crates/zstdx-cli/src/adapt.rs:173-182 | bounds clamped into the engine's range, the start into the bounds |
| `Adapt.Policy.Observe` | crates/zstdx-cli/src/adapt.rs:189-213 | throttled within the interval; otherwise the step and its reported cause are stated from the timings: up for an output or input bound, down for an encode bound, held at the bounds |
| `Adapt.CheckedByTimings` | crates/zstdx-cli/src/adapt.rs:136-147 | of the pure walk, from the timings alone: up by one exactly when output waits exceed nine eighths of the encode time or reads take as long, down by one exactly when neither holds and output is at most 33/32 of it |
| `Adapt.WalkIsThrottled` | crates/zstdx-cli/src/adapt.rs:189-213 | over any run on a monotone clock the level stays in bounds, and its steps times the interval fit the time between checks |
| `Adapt.StepsInInterval` | crates/zstdx-cli/src/adapt.rs:189-213 | all steps of a run together are at most the whole refresh intervals passed |
| `Adapt.WalkReachesBound` | crates/zstdx-cli/src/adapt.rs:200-212 | under a lasting bottleneck the level walks one step a check to its bound and stays |
| `Adapt.Fill` | crates/zstdx-cli/src/adapt.rs:336-360 | for every reader schedule a buffer is filled with the next bytes in order, short only at the end, in the time of the reads that gave some, interrupted ones retried |
| `Adapt.ChunkOutput.Emit` | crates/zstdx-cli/src/adapt.rs:416-422 | a chunk's frame is appended and counted |
| `Adapt.Pipeline` | crates/zstdx-cli/src/adapt.rs:235-286 | for every reader schedule the payloads are the input cut into full chunks with one shorter last, one empty frame for no input, at levels within bounds; each chunk's level is the walk over the timings charged to the chunks before it, whose read times are those of consecutive stretches of the schedule |
| `Adapt.EmitChunk` | crates/zstdx-cli/src/adapt.rs:266-272 | a chunk's output time is the tally of all waits so far in 64 bits, and comes off its encode time |
| `Adapt.SeenAccounts` | crates/zstdx-cli/src/adapt.rs:251-272 | of each chunk the policy sees its read, the tally of output waits in 64 bits, and as encode time what the next read and that tally leave, never below zero |
| `Adapt.ChargedOwnWaitIff` | crates/zstdx-cli/src/adapt.rs:410-412 | a chunk is charged with its own output wait exactly when the waits before it come to nothing in 64 bits |
| `Adapt.ChargedWaitFlipsVerdict` | crates/zstdx-cli/src/adapt.rs:410-412 | a two-chunk schedule on which the charged wait turns a step down into a step up |
| `Adapt.CutJoins` | crates/zstdx-cli/src/adapt.rs:235-286 | the cut joins up to the input, no piece is empty, all but the last are full |
| `Adapt.ChunksJoin` | crates/zstdx-cli/src/adapt.rs:277-285 | so payloads join to the input, and an empty one stands alone |

## Left out

- FSE and Huffman tables, sequence execution, XXH64, match finders and threaded executors: abstract functions of their input history. Both decoding paths run the same decoder on a compressed block, so its well-formedness, its reach and what it regenerates with all of its history are the same functions on both.
- Raw pointers, null checks, handle boxing and struct padding: buffers are sequences and arrays, always present.
- Dictionaries, digested or raw, use-once slots and their generations: an engine is opened from the header bytes, which also say whether a dictionary is used and how long it is; an encoder is opened from the pledge.
- Window limits and dictionaries changed between a frame's calls: both paths open a frame by the same rule.
- Settings, error-code names, parameter bounds tables and level tables: lookups of one branch each.
- Secondary parameter code: workspace estimates other than the streaming one of the levels up to 1, the context parameter setters, row selection.
- Output a failing one-shot decode may have written behind the cursor: a refused call promises nothing about the free part of the buffer.
- Command-line parsing of the adaptation range, options per chunk beyond level and payload, clocks: times are parameters.
- Interrupted reads without end: a reader's schedule of interruptions is finite.
- Allocation and capacity: growing a vector never fails.
- InPlaceMargin.InPlaceIsSafe: asks that no block body is longer than what it regenerates or than its frame's block limit; stored blocks within the limit and runs meet that, but a coded body longer than its output, or a run of no bytes, is not accounted for by the margin. Series that only the block-by-block path reads are not decoded in place.
- ContentBounds.BoundCovers: asks that a coded block regenerates no more than its frame's block limit, that stored blocks and runs keep to it, and that the frames' bounds add up below 2^64; without a content size a larger run would outgrow the bound.
- Writers.WrittenFrameContent: asks of a coded piece what both decoders check, that it has a body, decodes, and matches within the window.
- FrameSeries.BoundIsDeclaredSize: leaves out series with a skippable size field of 2^32 - 8 or more, which the bound refuses and the declared size accepts.
- Params.AdjustCParamsInternal: asks that a known source plus a dictionary, and that dictionary plus the window, fit 64 bits; the source's sums overflow beyond that.
- Writers.HeaderReadsBack: covers headers whose fields match their flags; the writer also writes ones that do not, for shapes a parser must refuse.
- Programs.PushRepeat: asks for lengths up to 65535; at 65536 the source's 16-bit subtraction underflows.
- ShortcutAgreement.ShortcutAgreesIff: compares the paths with all input offered from the frame's first byte; calls with a hidden header are `HiddenFrames.HiddenAnswerIsRightIff`. Whether each block has its history, and whether an empty last block leaves the declared size met and the trailer judged alike, depends on the decoded blocks, which no caller can read off the input; `HeadersDecide` names the frames that do not depend on the first.
- StreamDrivers.DriverFinishes: asks of a valid frame that the block-by-block reader finishes it, that its compressed blocks have bodies and its checksum is right, as RFC 8878 does, and that matches beyond the window, if any, read no history already written over.
