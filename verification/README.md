# Verified model of the miner

A Dafny model of the parts of the Eval miner that other parts rely on without checking: the serial
link to the chips and the tracker of register reads behind it, the path of a share from the job to
the pool, the hash-rate and voltage controller, the hit counters, the pipelined register reads, the
version ranges, the SMBus error code, the coinbase decoder and the pool table.

Each area has a specification of plain functions, the theorems about it over all inputs or all
runs, and, where the program works by changing things in place, classes and methods with the
program's loops and fields that are proved to compute exactly what the specification says.

| area | modules |
|---|---|
| serial link | `StructPack`, `Frames`, `FrameDecoder`, `Framing`, `Reading`, `ReadLosses`, `LinkRuns`, `Resync`, `Misframing`, `Responses` |
| read tracker | `ReadTracker`, `TrackerInvariant`, `TrackerSteps`, `TrackerRuns`, `TrackerCompleteness`, `TrackerAnswers`, `TrackerImpl` |
| shares | `Difficulty`, `ShareValidity`, `HexText`, `BlockHeaders` |
| controller | `Backoff`, `BackoffEffects`, `Tuning`, `Dvfs` |
| hit counters | `HitRing`, `HitLedger`, `HitCounters` |
| pipelined reads | `FaultTracker`, `PipelinedRead`, `PipelinedReader`, `ReadResults` |
| version ranges | `VersionRolling` |
| SMBus | `SmbusPec` |
| coinbase | `Coinbase`, `CoinbaseDecoder` |
| pools | `PoolTable`, `PoolManager` |
| shared | `Basics`, `Bytes`, `Powers` |

`dafny verify dfyconfig.toml` checks everything. Clocks, measurements, the answers of devices, CRC-32
and SHA-256 are parameters, so every theorem holds for all of them. Times are in milliseconds.

## How the parts are modelled

**Serial link.** A `Link` holds what `asicRead` keeps between reads: `received`, `frameStart` and the
queues. `Process` is one read, `Run` any list of reads. A stream is a list of segments: a whole frame
(`Intact`), or a register response that lost one byte of its magic (`Lossy`) or one behind it (`Short`,
which should arrive one byte short and is mended, if it can be, when it is checked). What the reader does
depends on how many bytes of the stream it has seen. `Incomplete` says when it waits, `Spoilt` when it
cuts in the wrong place, and `Fits` when what follows a repaired response fits its buffer. `ReadsWell`
is the condition on the sizes of all reads of a run that comes of these; `LosslessExactly` shows for every
stream that it is exact. `Calls` is a list of calls of `asicRead`, each with its reads.

**Read tracker.** A transition system with four steps: submit, response, reader turn, timeout scan.
It keeps all commands ever submitted and, for each, the values sent on its channel and the answers
counted for it, which the program forgets; `Inv` ties these to the two maps and the history.
`TrackerAnswers` says what the data are by the events of a run alone. `TrackerImpl` refines the system
with shared command objects and the program's loops.

**Shares.** Hashes are numbers, least significant byte first. `DifficultyOf` is the exact power of two
for which `CalcDifficulty` was written, wrapped to 64 bits; the floating-point logarithms of the
device difficulty are the exact integer logarithm.

**Controller.** Floats are reals. `Backoff` is the controller of the target, `Tuning` the voltage state
machine; both take arbitrary measurements as events.

**Hit counters.** `Books` follow a run of samples and reports beside the ring: what was credited,
reported, overwritten and is still pending.

**Coinbase.** The program's structs are values and stay values. `ParseTx` is a parser in which a part is
either read completely or not at all; the decoder with its positions, lengths and `ok` flags agrees
with it exactly where every flag is set.

**Pools.** `PoolTable` is the list in order of priority; `PoolManager` keeps the objects whose ids and
priorities have to follow it.

## Where the code does not do what it promises

Each of these is a proved statement about the code as it is.

- `ReadLosses.ReadExactly`, `Misframing.OverflowReached`: behind a repaired response the leftover is clipped to
  1024 bytes, and the safeguard drops the end of the read. This happens exactly if the bytes held and
  read are more than 1039, as with 18 bytes held and 1022 read, or 16 held and 1024 read.
- `Misframing.StolenExactly`: if a response ends in 0x54 and the next one lost its first byte, the cut at 15
  bytes gives that byte to the second and delivers the first one byte short. Nothing is stolen if it does
  not end in 0x54 or a read ends right behind it.
- `Misframing.ShortExactly`: a response that lost a byte behind its magic, when the bytes seen end exactly one
  byte into the next frame, is delivered with that byte, and the next frame is left without its first.
- `Misframing.RowExactly`: three or more damaged responses in a row, seen together with the magic behind them,
  are all dropped; one or two are repaired. Of two that fuse the first is dropped (`Framing.LossyOutcome`).
- `Misframing.MagicLossExactly`: only READ and READWRITE responses with spare 0 are repaired; other register
  responses that lose a magic byte are dropped.
- `Misframing.TakenForHit`: a response that lost its id or its command, with a spare byte from 0x44 to 0x47, is
  taken for a hit of 92 bytes, and the frames behind it are swallowed with it.
- `LinkRuns.CompleteDelivery`: a response that lost a byte behind its magic, or three damaged ones, stay in the
  buffer until another frame follows.
- `TrackerRuns.SharedRegister`: answers are counted without looking at which register they are
  for, so two commands that share a register can end with the first complete but missing a value and
  the second without an answer. `CompleteExactly` says when a completed read is complete.
- `Difficulty.ZeroByteStays` and `CalcDifficulty`: the inner loop never advances its counter and ends only
  because of a non-zero byte; for hashes with 96 or more leading zero bits the difficulty wraps to 0, so
  the best shares of all are dropped (`ShareValidity.PoolSharesReach`).
- `ShareValidity.LowTargetsLose`: below pool difficulty 32 the device difficulty is still 32, and shares
  the pool would take are dropped.
- `Tuning.TuningStuck`: boards with a minimum of 14.5 volts stay in the first tuning state for as long as
  the supply minimum is lower, because the loop waits for a voltage the clamp never lets it reach.
- `Backoff.EveryRun`, `FirstBackOff`: the rate the frequencies are set for, `curTargetTHS`, is copied from the
  target once, before the main loop (dvfs2.go:816), and no later step changes it, although the comments at
  dvfs2.go:58 and dvfs2.go:717 expect target changes to take effect on the next tuning. The two part at the
  first power reading that is too high, and agree again only when the target is back at its original value.
- `HitLedger.LateReport`: after exactly twelve unreported samples the cursors meet and all twelve are lost.
  `LossExactly` and `TimelyExactly` say which runs lose hits.
- `FaultTracker.BurstExactly`: "ten failures in ten seconds" is counted in windows that begin with a failure, so
  up to seventeen in one second can go unnoticed (`SeventeenMayNot`), eighteen cannot (`EighteenMark`).
- `FaultTracker.NineAfterClearing`: a second chance counts as a failure, so nine are enough after one.
- `FaultTracker.ClearingsForgotten`: the limit of three second chances is forgotten by any failure that
  comes ten seconds or more after a clearing.
- `VersionRolling.NarrowSharesAll`: with fewer than four versions for each chip the code sets the width to
  1 and rounds it down to 0, and every chip is given the whole range 0 to 0xffff.
- `CoinbaseDecoder.DecodeOut`: a truncated script is reported without an error, and the transaction goes on
  being decoded from there; only the `Ok` flag of the part tells (`TxCoinBase.Decode`).
- `PoolTable.StaysRight`, `Protected`: the pool in use is protected by an index that only a take-over refreshes.
  A switch of the pool in use, unless it is the first, a switch of one behind it, or the removal of one in
  front of it make the index wrong; then the pool in use can be removed, and the pool at the index, if there
  is one, is refused in its place (`DisplacedIsRemovable`; `ActivePoolRemoved` is a run from the empty table).

## Model

| member | source | states |
|---|---|---|
| `StructPack.Pack` | eval_miner/device/asicio/struct-pack.go:12-50 | Writing the fields of any frame struct, one after the other, yields their little-endian layout. |
| `StructPack.Unpack` | eval_miner/device/asicio/struct-pack.go:52-97 | Reading fields out of a buffer of any length: fails when it is short, and otherwise consumes exactly the size of the struct. |
| `StructPack.UnpackPacked` | eval_miner/device/asicio/struct-pack.go:12-97 | For every struct, reading what was written returns every field and leaves what follows untouched. |
| `StructPack.PackUnpacked` | eval_miner/device/asicio/struct-pack.go:52-97 | Reading succeeds exactly when enough bytes are there, and writing the result again restores them. |
| `Frames.CfgLayout` | eval_miner/device/asicio/types.go:60-69 | Where each field of a 16-byte register response stands on the wire. |
| `Frames.CfgInverse` | eval_miner/device/asicio/struct-pack.go:12-97 | Register responses: encoding and decoding are inverse in both directions. |
| `Frames.HitInverse` | eval_miner/device/asicio/struct-pack.go:12-97 | Hit frames: encoding and decoding are inverse in both directions. |
| `Frames.EncodeIsPack` | eval_miner/device/asicio/struct-pack.go:12-50 | The explicit frame layouts are what the field-by-field writer produces. |
| `Frames.DecodeCfgIsUnpack` | eval_miner/device/asicio/struct-pack.go:52-97 | The explicit register-response reader agrees with the field-by-field reader on inputs of every length. |
| `Frames.DecodeHitIsUnpack` | eval_miner/device/asicio/struct-pack.go:52-97 | The same for hit frames. |
| `Frames.ShapeSizes` | eval_miner/device/asicio/types.go:27-79 | The two frame structs are 16 and 92 bytes long. |
| `FrameDecoder.AsicReader.AsicRead` | eval_miner/device/asicio/cmdrw.go:456-569 | Any list of reads of at most 1024 bytes: `received`, the frame-start flag and all queues end as the decoder function says. |
| `FrameDecoder.AsicReader.HandleRead` | eval_miner/device/asicio/cmdrw.go:471-569 | One read: passes over the buffer until nothing is left over; it terminates because every pass takes bytes away. |
| `FrameDecoder.AsicReader.HandlePass` | eval_miner/device/asicio/cmdrw.go:477-567 | One pass from the label to the jump back: new state and leftover in `buf`. |
| `FrameDecoder.AsicReader.FindFrameStart` | eval_miner/device/asicio/cmdrw.go:486-530 | Looking for the magic: repair of a damaged header, cut at the magic, or the last three bytes kept. |
| `FrameDecoder.AsicReader.TakeFrame` | eval_miner/device/asicio/cmdrw.go:532-566 | Delivers a complete frame of either kind and copies what follows into `buf`. |
| `FrameDecoder.AsicReader.SplitOff` | eval_miner/device/asicio/cmdrw.go:540-566 | The first bytes go to their queue, the others into `buf`, clipped at its length. |
| `FrameDecoder.AsicReader.PutCfgRawResult` | eval_miner/device/asicio/cmd.go:107-113 | A response goes to the queue or to the channel, by mode, and nowhere else. |
| `FrameDecoder.AsicReader.PutHitRawResult` | eval_miner/device/asicio/cmd.go:115-122 | A hit is queued unless its sequence number is 0. |
| `Framing.StreamIndex` | eval_miner/device/asicio/cmdrw.go:492-495 | Where the search finds the first magic of a stream, for every number of bytes seen: behind each damaged response the stream begins with, or one byte earlier where two of them fuse. |
| `Framing.OpenOutcome` | eval_miner/device/asicio/cmdrw.go:486-566 | A pass over a stream that begins with its magic, for every number of bytes seen: it waits, hands over the first segment and leaves exactly the rest, or cuts one byte too early or too late. |
| `Framing.LossyOutcome` | eval_miner/device/asicio/cmdrw.go:486-530 | The same for a stream that begins with a damaged header: it waits, repairs exactly one response, or drops everything before the first magic. |
| `Reading.Digest` | eval_miner/device/asicio/cmdrw.go:477-567 | One read in the middle of any stream: the segments it completes are delivered in order, repaired where a magic byte was lost, the rest is kept, and nothing is clipped. |
| `ReadLosses.NeverAhead` | eval_miner/device/asicio/cmdrw.go:477-567 | No read delivers more responses than the bytes it has seen account for, whatever it drops and wherever it cuts. |
| `ReadLosses.CutsBadly` | eval_miner/device/asicio/cmdrw.go:492-557 | A read that cuts a segment in the wrong place puts a response on the queue that was not due, or loses one. |
| `ReadLosses.Overflows` | eval_miner/device/asicio/cmdrw.go:481-483 | A read that leaves more than 1024 bytes behind the first segment loses bytes, whatever is delivered for them. |
| `ReadLosses.ReadExactly` | eval_miner/device/asicio/cmdrw.go:477-567 | For every stream a read loses nothing if and only if, by the number of bytes held and read alone, it cuts no segment in the wrong place and what follows the first segment fits the buffer. |
| `LinkRuns.Delivery` | eval_miner/device/asicio/cmdrw.go:456-569 | Lossless framing as a run invariant: for every stream and all reads that cut it well, the queues hold the first j frames and the reader exactly the bytes since. |
| `LinkRuns.CallsDelivery` | eval_miner/device/asicio/cmdrw.go:456-471 | The same over any list of calls, each of which begins without a frame start. |
| `LinkRuns.LosslessExactly` | eval_miner/device/asicio/cmdrw.go:456-569 | For every stream a run loses nothing after any of its reads if and only if the sizes of its reads cut the stream well. |
| `LinkRuns.PlainReads` | eval_miner/device/asicio/cmdrw.go:456-569 | If every damage is in a magic and no two frames fuse, all reads cut well that have at most 1024 bytes, or 1006 if some response is damaged. |
| `LinkRuns.CompleteDelivery` | eval_miner/device/asicio/cmdrw.go:456-569 | A complete stream, in any calls: every segment is delivered, in order, but for those that may wait at the end: a response that lost a byte behind its magic, or three or more damaged ones. |
| `LinkRuns.AllArrive` | eval_miner/device/asicio/cmdrw.go:456-569 | If there are never three damaged responses in a row and no two fuse, only the last segment can wait, and only if it is short of a byte behind its magic. |
| `Resync.CallsResynchronise` | eval_miner/device/asicio/cmdrw.go:491-530 | Leading garbage without magic or damaged header, of any length and cut in any way by any calls: it is skipped, three bytes at a time kept, and framing takes over at the first magic. |
| `Resync.CompleteResync` | eval_miner/device/asicio/cmdrw.go:491-530 | A complete stream behind garbage is delivered like one without. |
| `Misframing.OverflowReached` | eval_miner/device/asicio/cmdrw.go:481-483 | With 18 bytes held, which a first read of 18 bytes leaves, a read of up to 1024 bytes loses something if and only if it has more than 1021. |
| `Misframing.StolenExactly` | eval_miner/device/asicio/cmdrw.go:553-557 | A response before a frame that lost its first byte is delivered as it is if and only if it does not end in 0x54 or the bytes seen end with it; otherwise it comes one byte short. |
| `Misframing.ShortExactly` | eval_miner/device/asicio/cmdrw.go:549-557 | A response that lost a byte behind its magic waits, comes one byte too long and takes it from the next frame, or comes as it arrived, as none, one or more bytes of that frame are seen. |
| `Misframing.RowExactly` | eval_miner/device/asicio/cmdrw.go:494-515 | One or two damaged responses before the first magic seen are repaired; of three or more none is. |
| `Misframing.TakenForHit` | eval_miner/device/asicio/cmdrw.go:536-548 | A response with spare byte 0x44 to 0x47 that lost its id or command is taken for a hit, and 77 bytes behind it are swallowed. |
| `Misframing.MagicLossExactly` | eval_miner/device/asicio/cmdrw.go:494-509 | A response that lost one magic byte is repaired if and only if it is a READ or READWRITE with spare 0, and is dropped otherwise. |
| `Responses.RebuildLoss` | eval_miner/device/asicio/cmd.go:44-60 | The rewriting of a response that is one byte short. |
| `Responses.CheckCfgRespRaw` | eval_miner/device/asicio/cmd.go:39-80 | The check of a raw response: rebuild, decode, compare the CRC. |
| `Responses.CheckHitResult` | eval_miner/device/asicio/cmd.go:124-151 | The check of a raw hit frame. |
| `Responses.ChecksumDecides` | eval_miner/device/asicio/cmd.go:39-151 | A response is accepted, and a hit marked good, exactly if its checksum is the complement of the CRC-32 of the bytes in front of it. |
| `Responses.TooShort` | eval_miner/device/asicio/cmd.go:39-151 | Fewer bytes than 15, or than 92 for a hit, are refused. |
| `Responses.ValidCfgFrame` | eval_miner/device/asicio/cmd.go:39-80 | Every valid response is a frame of the link and passes the check unchanged. |
| `Responses.ValidHitFrame` | eval_miner/device/asicio/cmd.go:124-151 | Every valid hit is a frame of the link and passes the check unchanged. |
| `Responses.NothingForged` | eval_miner/device/asicio/cmd.go:39-80 | What passes has a matching CRC, and its encoding is what was received, or what was received with the command or spare byte put back. |
| `Responses.LostByteOutcome` | eval_miner/device/asicio/cmd.go:44-60 | A valid read response that lost byte 4 to 15 is rebuilt if and only if the byte was its command, with an id other than 2, or its spare byte, with an address other than 0. |
| `Responses.QueuesCheck` | eval_miner/device/asicio/cmd.go:39-151 | The queues that a list of messages should fill, checked, give back every message, and for a response that lost a byte behind its magic what can be known of it. |
| `Responses.LinkRoundTrip` | eval_miner/device/asicio/cmdrw.go:456-569 | End to end: any messages, encoded, any response possibly short of one byte, behind garbage, in any calls whose reads cut them well: the checked queues hold every message in order, restored or refused as the lost byte decides, but for those that may wait at the end. |
| `Responses.AllComeBack` | eval_miner/device/asicio/cmdrw.go:456-569 | Without three damaged responses in a row, two that fuse or a short one at the very end, all messages come back. |
| `TrackerSteps.SubmitKeeps` | eval_miner/device/asicio/cmdrw.go:137-155 | Entering a read keeps the invariant: both maps list the same registers with the same multiplicities, the history is the reverse map without duplicates, the lists are in order, and every command is accounted for. |
| `TrackerSteps.RespondKeeps` | eval_miner/device/asicio/cmdrw.go:175-229 | So does a response, whoever it goes to and whether or not it completes a command. |
| `TrackerSteps.ScanKeeps` | eval_miner/device/asicio/cmdrw.go:57-117 | So does a scan of the timeout checker, and it treats every command on its own merits. |
| `TrackerSteps.StartInv` | eval_miner/device/asicio/cmdrw.go:599-627 | The invariant holds at the start. |
| `TrackerInvariant.AddAllWaiting` | eval_miner/device/asicio/cmdrw.go:137-155 | Entering a command adds it to each list once per time it reads that register, at the end. |
| `TrackerInvariant.RemoveAllWaiting` | eval_miner/device/asicio/cmdrw.go:157-173 | Removing it takes all its entries out of every list and disturbs no other. |
| `TrackerInvariant.OldestIsHead` | eval_miner/device/asicio/cmdrw.go:119-135 | In an ordered list the scan for the least sequence number returns the head. |
| `TrackerRuns.OldestIsFront` | eval_miner/device/asicio/cmdrw.go:119-135 | After any run a response therefore goes to the command at the front of its list. |
| `TrackerRuns.ExactlyOneValue` | eval_miner/device/asicio/cmdrw.go:36-55 | Over every run: a command in the history has been sent nothing, one that left it exactly one value, 0 if and only if all its answers were counted, and later steps never touch it again. |
| `TrackerRuns.RunExtends` | eval_miner/device/asicio/cmdrw.go:119-242 | Over every run commands stay known, keep what they ask for, and their request times only move forward. |
| `TrackerRuns.ScanTimeouts` | eval_miner/device/asicio/cmdrw.go:57-117 | Exactly the expired commands receive 1; any other keeps its request time unless it is overdue and lay before the last blackout, and then it moves to the end of that. |
| `TrackerRuns.OneMovePerWindow` | eval_miner/device/asicio/cmdrw.go:57-117 | In any run a request time moves at most once for each blackout window that opens, and once more if it lay before the last one. |
| `TrackerRuns.WindowInPast` | eval_miner/device/asicio/cmdrw.go:344-359 | Over every run: the last blackout lies in the past of the reader and took more than 50 ms, and windows open in the order of time. |
| `TrackerRuns.ClockOfRun` | eval_miner/device/asicio/cmdrw.go:344-359 | From the start in particular, and the clock shows the last turn of the reader. |
| `TrackerRuns.BlackoutIsLastGap` | eval_miner/device/asicio/cmdrw.go:344-359 | In every run the blackout recorded is the last gap of more than 50 ms between two turns of the reader. |
| `TrackerCompleteness.Pigeonhole` | eval_miner/device/asicio/cmdrw.go:215-229 | As many letters as boxes: every box has one exactly when no two share one. |
| `TrackerCompleteness.SlotIsLastAnswer` | eval_miner/device/asicio/cmdrw.go:185-212 | With distinct targets and registers slot i·|addrs|+j holds the last answer of register j of target i, or -1. |
| `TrackerCompleteness.CompleteExactly` | eval_miner/device/asicio/cmdrw.go:215-229 | A command told 0 has all its slots filled if and only if no register answered it twice. |
| `TrackerCompleteness.SecondAnswerFinishes` | eval_miner/device/asicio/cmdrw.go:213-229 | A second answer for the same register stands in for one that never came. |
| `TrackerRuns.SharedRegister` | eval_miner/device/asicio/cmdrw.go:213-229 | A run from the start in which it happens: two commands share a register, the first is told 0 with an empty slot, and the second is left waiting for an answer that has been used up. |
| `TrackerAnswers.OldestIsServed` | eval_miner/device/asicio/cmdrw.go:120-229 | A response goes to the first submitted of the live commands that read its register. |
| `TrackerAnswers.LogIsResponses` | eval_miner/device/asicio/cmdrw.go:175-229 | Over every run, said of its events alone: what is counted for a command are the responses that arrive while it is the oldest live one reading them, data included, and its response time is that of the first. |
| `TrackerAnswers.SlotIsLastResponse` | eval_miner/device/asicio/cmdrw.go:175-229 | What a caller reads: each slot is the data of the last such response of its register, or -1. |
| `TrackerAnswers.SubmittedAs` | eval_miner/device/asicio/cmdrw.go:137-155 | A submitted read keeps what it asks and when, and gets a number behind all others. |
| `TrackerAnswers.FinishedAt` | eval_miner/device/asicio/cmdrw.go:57-229 | The finish time is that of the step that takes the command out of the history. |
| `TrackerImpl.AsicCmd.PrepareData` | eval_miner/device/asicio/cmd.go:172-183 | All slots start as -1. |
| `TrackerImpl.AuraAsicIO.CreatePayloadEntriesInMap` | eval_miner/device/asicio/cmdrw.go:137-155 | The loops enter the command once per register in both maps and in the history. |
| `TrackerImpl.AuraAsicIO.SubmitRead` | eval_miner/device/asicio/cmdrw.go:401-434 | The read branch of the writer is the submit step. |
| `TrackerImpl.AuraAsicIO.GetCmdRegReadFromPayload` | eval_miner/device/asicio/cmdrw.go:119-135 | The scan returns the oldest command of the list, or none. |
| `TrackerImpl.AuraAsicIO.UpdatePayload` | eval_miner/device/asicio/cmdrw.go:175-229 | One response: the oldest command waiting for the register stores and counts it, and is finished with its last one; `LogIsResponses` and `SlotIsLastResponse` say what that makes of the data over a run. |
| `TrackerImpl.AuraAsicIO.ReleaseCommand` | eval_miner/device/asicio/cmdrw.go:36-55 | Sends once; completed is set only when both times are. |
| `TrackerImpl.AuraAsicIO.RemovePayloadsFromMap` | eval_miner/device/asicio/cmdrw.go:157-173 | Cuts the command out of each of its lists. |
| `TrackerImpl.AuraAsicIO.RemovePayloadsFromMapAndRelease` | eval_miner/device/asicio/cmdrw.go:157-173 | Takes the command out of both maps and answers its caller. |
| `TrackerImpl.AuraAsicIO.RemoveCommand` | eval_miner/device/asicio/cmdrw.go:231-242 | The same, and out of the history. |
| `TrackerImpl.AuraAsicIO.CheckCommand` | eval_miner/device/asicio/cmdrw.go:70-108 | The five cases for one command of the history. |
| `TrackerImpl.AuraAsicIO.CmdTimeoutCheck` | eval_miner/device/asicio/cmdrw.go:57-117 | The backward walk over the history is the scan step. |
| `TrackerImpl.AuraAsicIO.ReaderTurn` | eval_miner/device/asicio/cmdrw.go:344-359 | A turn of the reader loop records its time and any blackout. |
| `Difficulty.CalcDifficulty` | eval_miner/block/difficulty.go:5-42 | The loops end, for every hash but 0, with the power of two of the leading zero bits beyond 32, taken modulo 2^64; 0 for hashes at or above 2^224. |
| `Difficulty.DifficultyIs` | eval_miner/block/difficulty.go:5-42 | Said with powers of two: 0 from 2^224 on, and below that 2^k for the k that brings the hash just below 2^224, or 0 if k is 64 or more. |
| `Difficulty.Shift` | eval_miner/block/difficulty.go:5-42 | The exponent k with 2^k·hash < 2^224 <= 2·2^k·hash. |
| `Difficulty.ShiftUnique` | eval_miner/block/difficulty.go:5-42 | There is only one such exponent. |
| `Difficulty.TopBitShift` | eval_miner/block/difficulty.go:30-40 | Doubling the highest non-zero byte until its top bit is set finds the exponent of the whole hash. |
| `Difficulty.ZeroByteStays` | eval_miner/block/difficulty.go:31-40 | For a hash of all zeros the inner loop never ends: its byte stays 0. |
| `ShareValidity.Min` | eval_miner/util/util.go:106-116 | The least of the arguments. |
| `ShareValidity.Max` | eval_miner/util/util.go:118-128 | The greatest of the arguments. |
| `ShareValidity.ClosestBounds` | eval_miner/util/util.go:201-205 | The closest power of two is the largest that is not above the number, and lies on the same side of 32 and 16384. |
| `ShareValidity.RoundTrip` | eval_miner/device/manager.go:286-300 | The two conversions between chip and device difficulty are inverse on powers of two. |
| `ShareValidity.PreScanDifficulty` | eval_miner/device/asicboard.go:51-58 | From 32 on the device difficulty is the largest power of two that is not above the pool difficulty, below it is 32; two to the chip difficulty is 2^32 times as much. |
| `ShareValidity.PoolSharesReach` | eval_miner/device/device.go:194-206 | A hash the pool would accept at difficulty 32 or more is counted by the device if and only if it has fewer than 96 leading zero bits. |
| `ShareValidity.LowTargetsLose` | eval_miner/device/asicboard.go:51-58 | For every pool difficulty below 32 there is a hash the pool accepts and the device drops. |
| `ShareValidity.ChipFilterAgrees` | eval_miner/device/manager.go:286-300 | A hash with fewer than 96 leading zero bits has the zero bits the chip is told to look for exactly if the device counts it. |
| `HexText.HexInverse` | eval_miner/device/asicboard.go:60-78 | Hex text decodes to the bytes it writes. |
| `HexText.SwapBytes` | eval_miner/util/util.go:70-90 | Whole words of text are byte-swapped in place; a rest that is no word is left zero. |
| `HexText.SwapDecodes` | eval_miner/util/util.go:70-90 | Swapping the text swaps the bytes it writes. |
| `HexText.SwapIsLittleEndian` | eval_miner/util/util.go:70-104 | The swapped text of a 32-bit number writes its little-endian encoding. |
| `HexText.FormatReads` | eval_miner/util/util.go:92-104 | Eight-digit text of a number reads back as the number. |
| `HexText.WordOfText` | eval_miner/util/util.go:92-104 | Text that is no hex counts as 0; otherwise its first eight digits are the number, most significant first. |
| `HexText.NumberText` | eval_miner/util/util.go:130-151 | Any number in n bytes of text: padded, or cut to its low bytes, most significant first. |
| `BlockHeaders.HeaderInverse` | eval_miner/block/block.go:20-57 | Header and its 80 bytes: inverse in both directions. |
| `BlockHeaders.SwapByteInSHA256` | eval_miner/block/block.go:59-71 | The loop reverses the digest. |
| `BlockHeaders.CalcMerkleRootHash` | eval_miner/block/hash.go:8-29 | The loop folds the branch over the coinbase hash. |
| `BlockHeaders.SentIsRebuilt` | eval_miner/device/asicboard.go:60-78 | The bytes sent to the chips are the header that validation rebuilds for the same time and nonce 0. |
| `BlockHeaders.HeaderParts` | eval_miner/block/block.go:20-57 | Where each field of a header stands in its 80 bytes. |
| `BlockHeaders.SentFields` | eval_miner/device/asicboard.go:60-78 | The fields of the header the chips receive: version, time and target bits of the job, the previous hash, the root over the coinbase with this device as extra nonce, and nonce 0. |
| `BlockHeaders.CoinBaseIsHashed` | eval_miner/block/hash.go:31-57 | The coinbase hash is that of the transaction whose bytes, cut at the extra nonces, are the four parts of the job. |
| `BlockHeaders.MerkleRootIsRoot` | eval_miner/block/hash.go:8-29 | For every tree of transactions: the root computed from the first of them and the hashes beside its way up is the root of the tree. |
| `BlockHeaders.JobRootIsRoot` | eval_miner/job/jobresult.go:32-75 | The root in the header of a job is that of the block that begins with its coinbase. |
| `BlockHeaders.ReturnedIsRebuilt` | eval_miner/device/asicboard.go:178-214 | The header rebuilt from the gathered result is the returned body, byte for byte, if and only if the chips changed only nonce, time and, when rolling, version. |
| `BlockHeaders.CalcResultDifficulty` | eval_miner/job/jobresult.go:32-75 | The hash value and the difficulty a result is credited with. |
| `BlockHeaders.GoodBodyCounts` | eval_miner/device/device.go:194-206 | End to end: a returned body whose hash meets the pool difficulty is hashed again to the same value and counted. |
| `Backoff.ReduceKeeps` | eval_miner/device/asic/dvfs2.go:588-613 | Backing off keeps the invariant of the controller. |
| `Backoff.MonitorKeeps` | eval_miner/device/asic/dvfs2.go:720-800 | So does a monitoring cycle, and it reports a change exactly when the target changed. |
| `Backoff.EveryRun` | eval_miner/device/asic/dvfs2.go:588-800 | Over every run: the target stays between the minimum and the original, step times bounces is 0.10 or 0.06, no bounces means the original target, and the rate tuned for is the target only when that is the original one. |
| `Backoff.FirstBackOff` | eval_miner/device/asic/dvfs2.go:588-645 | The first power reading parts target and tuned rate exactly if it is too high, below 20 kW and the rate is above the minimum: by the whole step, or down to the minimum. |
| `Backoff.BouncedBefore` | eval_miner/device/asic/dvfs2.go:767-770 | Below 99 percent of the original target there has been a bounce, so the branch marked "should not happen" never does. |
| `Backoff.FewFlips` | eval_miner/device/asic/dvfs2.go:720-800 | Between two restarts the controller changes direction at most five times. |
| `Dvfs.DvfsType.ReduceTargetTHS` | eval_miner/device/asic/dvfs2.go:588-613 | Backing off: ten or six percent the first time, on a turn downwards a step smaller by one part, else the same; the target is the tuned rate less the step, at least the minimum. |
| `Dvfs.DvfsType.CheckPowerReading` | eval_miner/device/asic/dvfs2.go:617-645 | One power reading: slow down after two high ones or one far too high. |
| `Dvfs.DvfsType.PerSecondCheck` | eval_miner/device/asic/dvfs2.go:647-668 | The per-second check: standby on a temperature alarm, back off and tune again on high power, no more than the end of the sleep on a voltage alarm, nothing otherwise. |
| `Dvfs.DvfsType.MonitorPowerTarget` | eval_miner/device/asic/dvfs2.go:720-800 | A monitoring cycle by its measurements: whether it starts over, takes a larger step, goes up by the step or leaves all as it is, and the target, step, bounces and direction after it. |
| `BackoffEffects.ChangesExactly` | eval_miner/device/asic/dvfs2.go:720-800 | In every state of a run a cycle raises the target, by at least one percent, exactly if there is room and either half an hour of calm with more of it, or the controller has not stopped. |
| `BackoffEffects.Recovers` | eval_miner/device/asic/dvfs2.go:720-800 | With room at every cycle and no slow-down, a controller that goes upwards and has not stopped gains one percent in each cycle until it is back at 99 percent of the original target. |
| `Dvfs.DvfsType.SetVoltage` | eval_miner/device/asic/dvfs.go:638-650 | The voltage set is the one asked for, but not below the minimum. |
| `Dvfs.DvfsType.TuneHashRate` | eval_miner/device/asic/dvfs2.go:451-544 | One tick by its measurements: half a volt down, a coarse raise by three fractions, or a fine one of 5 millivolts for each hundredth missing, up to the maximum; and when tuning is done. |
| `Tuning.TickInRange` | eval_miner/device/asic/dvfs2.go:451-544 | Voltage stays between its limits, and falls only in the first state. |
| `Tuning.TickDecreases` | eval_miner/device/asic/dvfs2.go:451-544 | Every tick ends tuning, takes away from a computable number of ticks, or waits at the top between the two rates. |
| `Tuning.TuningEnds` | eval_miner/device/asic/dvfs2.go:451-544 | For any measurements: within that number of ticks tuning is done, or it is at the top and every later rate lay strictly between start and low rate. |
| `Tuning.DoneExactly` | eval_miner/device/asic/dvfs2.go:451-544 | Tuning is done exactly when coarse stepping finds the maximum voltage, or fine tuning a rate of 97 percent, or of at most 95 at the maximum. |
| `Tuning.DefaultSupplyBound` | eval_miner/device/asic/dvfs.go:294-329 | From 11 to 15 volts the number is at most 812. |
| `Tuning.TuningStuck` | eval_miner/device/asic/dvfs.go:305-309 | If the board minimum is above the supply minimum, tuning never leaves its first state. |
| `Tuning.LeavesInit` | eval_miner/device/asic/dvfs2.go:451-470 | Tuning leaves its first state if and only if the board minimum is not above the supply minimum. |
| `HitRing.Deltas` | eval_miner/device/asic/adapter.go:184-210 | The hits credited per chip, at most 2000 each. |
| `HitRing.DeltaAt` | eval_miner/device/asic/adapter.go:184-210 | 0 for a silent chip, the advance modulo 2^32 if credible, otherwise what the left neighbour got. |
| `HitRing.SampleHolds` | eval_miner/device/asic/adapter.go:166-254 | After a sample the ring holds the last twelve pending samples. |
| `HitRing.ReportIsTail` | eval_miner/device/asic/adapter.go:310-325 | A report returns exactly the last samples, as many as are pending modulo 12. |
| `HitRing.ReportIsSmall` | eval_miner/device/asic/adapter.go:310-325 | No chip is reported more than eleven full samples. |
| `HitLedger.RunBalances` | eval_miner/device/asic/adapter.go:166-325 | Conservation over every run of samples and reports: credited = reported + overwritten + pending, per chip. |
| `HitLedger.NothingLost` | eval_miner/device/asic/adapter.go:310-325 | If fewer than twelve samples are pending at each report, nothing is overwritten. |
| `HitLedger.LateReport` | eval_miner/device/asic/adapter.go:310-325 | With exactly twelve pending the cursors meet and nothing is reported. |
| `HitLedger.LossExactly` | eval_miner/device/asic/adapter.go:166-325 | A run loses no hit if and only if no report of it drops a sample that credits one. |
| `HitLedger.TimelyExactly` | eval_miner/device/asic/adapter.go:310-325 | If every dropped sample credits a hit, a run loses nothing if and only if fewer than twelve samples are pending at each report. |
| `HitLedger.Telescopes` | eval_miner/device/asic/adapter.go:184-210 | Unclamped credits add up to the advance of the counter modulo 2^32, even across missed answers. |
| `HitLedger.BooksCredit` | eval_miner/device/asic/adapter.go:166-254 | What a run credits a chip is the sum over its samples. |
| `HitLedger.ReportedIsAdvance` | eval_miner/device/asic/adapter.go:166-325 | End to end: with timely reports and credible samples a chip has been reported exactly the advance of its hardware counter. |
| `HitCounters.CounterBank.Credit` | eval_miner/device/asic/adapter.go:184-210 | The loop over the chips writes the current slot and the counters in place. |
| `HitCounters.HitStats.CheckHitCounters` | eval_miner/device/asic/adapter.go:166-254 | A sample of true and general hits and the hit rates it gives; the cursor moves on. |
| `HitCounters.HitStats.ReportHits` | eval_miner/device/asic/adapter.go:310-325 | The report sums the unreported slots under the ids of the chips and gives their last hit rates; there is none when the cursors meet. |
| `HitCounters.RateInRange` | eval_miner/device/asic/adapter.go:237-243 | A hit rate is never negative, and at most 100 percent exactly if no more true than general hits were counted. |
| `HitCounters.RatedAt` | eval_miner/device/asic/adapter.go:237-243 | The rate of a chip is the one that makes its true hits out of its general hits; without an answer or general hits it stays. |
| `HitCounters.RateTableAt` | eval_miner/device/asic/adapter.go:315-323 | With distinct ids each chip is reported its own rate. |
| `HitCounters.ReportTableAt` | eval_miner/device/asic/adapter.go:315-323 | With distinct ids each chip is reported the sum of its own slots. |
| `HitCounters.GuardsNeverFire` | eval_miner/device/asicboard.go:129-148 | No entry of a report exceeds 22000, so the limits at lines 132 and 141 never apply. |
| `HitCounters.BoardHashes` | eval_miner/device/asicboard.go:124-157 | The loop adds up the hashes; the general count is raised to the true one if it is less. |
| `HitCounters.HashesAre` | eval_miner/device/asicboard.go:124-157 | The hashes are 2^32 for each hit, and an absurd number of hits counts as one. |
| `HitCounters.BoardCountsAll` | eval_miner/device/asicboard.go:124-157 | The hashes credited are exactly 2^32 for each hit in the slots reported. |
| `PipelinedReader.AuraAsic.ReadRegsPipelined` | eval_miner/device/asic/aura-asic.go:549-635 | The whole call, fast return included, each chip chosen and blamed at a time of its own: each answer in the slots of its target, -1 elsewhere, and the fault records as specified. |
| `PipelinedReader.AuraAsic.ChooseTargets` | eval_miner/device/asic/aura-asic.go:564-601 | Which targets are asked: not the faulty ones without a second chance and, when all are read, not the undetected. |
| `PipelinedReader.AuraAsic.Reconstruct` | eval_miner/device/asic/aura-asic.go:610-634 | The nested loops put the answer in place and blame each silent chip once. |
| `PipelinedReader.AuraAsic.IsFaultyAsic` | eval_miner/device/asic/aura-asic.go:868-877 | Whether the chip is marked. |
| `PipelinedReader.AuraAsic.ClearFaultyAsic` | eval_miner/device/asic/aura-asic.go:879-894 | The second chance, ten minutes after the last marking and at most three times. |
| `PipelinedReader.AuraAsic.IsAsicDetected` | eval_miner/device/asic/aura-asic.go:897-904 | Whether the chip was detected. |
| `PipelinedReader.AuraAsic.UpdateAsicFaultyTracker` | eval_miner/device/asic/aura-asic.go:909-929 | One more failure. |
| `PipelinedRead.InPlaceUnique` | eval_miner/device/asic/aura-asic.go:549-635 | The placement of the answers determines the whole result. |
| `PipelinedRead.FastReturn` | eval_miner/device/asic/aura-asic.go:606-609 | When nobody is left out the answer itself is the reconstruction. |
| `PipelinedRead.AllAsked` | eval_miner/device/asic/aura-asic.go:586-601 | Of given targets either all are asked, in order, or a faulty one was left out. |
| `PipelinedRead.SelectExactly` | eval_miner/device/asic/aura-asic.go:564-601 | For distinct targets: who is asked, whether a marked chip is left out, and what becomes of the records, all by the records and times before the call. |
| `PipelinedRead.BlamedExactly` | eval_miner/device/asic/aura-asic.go:610-634 | With distinct targets a chip is blamed exactly once if one of its registers is missing, and not at all otherwise. |
| `ReadResults.ResultIsLastAnswer` | eval_miner/device/asic/aura-asic.go:549-635 | Through tracker and reconstruction: slot (i, r) is the last answer of register r of target i to the command, -1 if it gave none or was not asked. |
| `ReadResults.ResultIsLastResponse` | eval_miner/device/asic/aura-asic.go:549-635 | The same, said of the responses of a run. |
| `ReadResults.CompleteResult` | eval_miner/device/asic/aura-asic.go:549-635 | After a read told 0 with no double answer, only targets not asked show -1. |
| `FaultTracker.BurstExactly` | eval_miner/device/asic/aura-asic.go:909-929 | Failures within ten seconds mark a chip in use if and only if those in the window that is open bring its count to ten, or ten come behind that window. |
| `FaultTracker.EighteenMark` | eval_miner/device/asic/aura-asic.go:909-929 | Eighteen failures within ten seconds always mark a chip, whatever came before. |
| `FaultTracker.SeventeenMayNot` | eval_miner/device/asic/aura-asic.go:909-929 | Seventeen within one second need not, because the window starts afresh. |
| `FaultTracker.NineAfterClearing` | eval_miner/device/asic/aura-asic.go:879-894 | After a second chance failures within ten seconds mark a chip if and only if there are nine. |
| `FaultTracker.MarkedNeedsBurst` | eval_miner/device/asic/aura-asic.go:879-929 | Over every run of failures and second chances of all chips: a marked chip had nine failures within ten seconds of an earlier failure or of a second chance. |
| `FaultTracker.LastMarkingIs` | eval_miner/device/asic/aura-asic.go:909-929 | Over every run the time that is kept is that of the last marking of any chip. |
| `FaultTracker.SecondChanceExactly` | eval_miner/device/asic/aura-asic.go:879-894 | A marked chip gets a second chance exactly if it had fewer than three and more than ten minutes have gone by since the last marking of any chip. |
| `FaultTracker.ThreeClearingsAreFinal` | eval_miner/device/asic/aura-asic.go:879-894 | A marked chip that was cleared three times stays out, whatever happens to others and however often it is offered another chance. |
| `FaultTracker.ClearingsForgotten` | eval_miner/device/asic/aura-asic.go:909-929 | The count of clearings survives a failure exactly if that comes within ten seconds of the clearing. |
| `VersionRolling.AuraAsic.SetVerRolling` | eval_miner/device/asic/aura-asic.go:479-496 | The register writes, chip by chip, in 32-bit arithmetic. |
| `VersionRolling.AuraAsic.SendJob` | eval_miner/device/asic/adapter.go:128-164 | The ranges are written exactly on a new mask and on every sixteenth job, so that after every job the last writes are those for the current mask. |
| `VersionRolling.MaskWrites` | eval_miner/device/asic/adapter.go:137-152 | What is written for a mask of 2 to 16 bits: to each chip in order its own equal range of the versions, as wide as whole fours allow, or 0 to 0xffff to all; then the place of the lowest bit. |
| `VersionRolling.NoMaskWrites` | eval_miner/device/asic/adapter.go:137-149 | The same without a mask: four versions for each expected chip, and shift 13. |
| `VersionRolling.DividedIsSound` | eval_miner/device/asic/aura-asic.go:488-491 | Ranges written like this are aligned, disjoint and within the limit. |
| `VersionRolling.TrailingZeros` | eval_miner/device/asic/adapter.go:139-139 | The shift: the mask is an odd number times two to it. |
| `VersionRolling.SpanFits` | eval_miner/device/asic/adapter.go:137-152 | Every version below 2^span, shifted, stays within the mask. |
| `VersionRolling.DisjointExactly` | eval_miner/device/asic/aura-asic.go:479-496 | All ranges aligned, disjoint, within the limits and readable from their registers if and only if each chip gets at least four versions and the last range ends below 2^16. |
| `VersionRolling.MaskSplit` | eval_miner/device/asic/adapter.go:137-152 | For masks of 2 to 16 bits this is so exactly if (2^w + 1) / n >= 4, and then no range reaches 2^w. |
| `VersionRolling.NarrowSharesAll` | eval_miner/device/asic/aura-asic.go:483-486 | With less every chip gets the same range, 0 to 0xffff. |
| `VersionRolling.NoMaskSplit` | eval_miner/device/asic/adapter.go:137-149 | Without a mask there is always room for the detected chips. |
| `SmbusPec.TableIsDivision` | eval_miner/device/smbus/const.go:21-22 | Every entry of the table is the bitwise division of its index. |
| `SmbusPec.CalcCRC8` | eval_miner/device/smbus/crc.go:36-53 | The nested loops compute the CRC bit by bit. |
| `SmbusPec.CalcPEC` | eval_miner/device/smbus/crc.go:12-32 | The table loop computes the same CRC over the address byte and the data, and refuses bad arguments. |
| `SmbusPec.AddressIs` | eval_miner/device/smbus/crc.go:12-32 | The first byte is twice the address, plus one for a read. |
| `SmbusPec.AppendPEC` | eval_miner/device/smbus/crc.go:55-61 | The data with its code, or the error. |
| `SmbusPec.CheckPEC` | eval_miner/device/smbus/crc.go:64-81 | The outcome for every frame: too small, bad arguments, mismatch or fine. |
| `SmbusPec.AppendedIsAccepted` | eval_miner/device/smbus/crc.go:55-81 | What was appended is accepted if and only if there was data. |
| `SmbusPec.AcceptedIsResidueZero` | eval_miner/device/smbus/crc.go:64-81 | A frame is accepted exactly if the CRC over all of it is zero. |
| `SmbusPec.BurstsAreCaught` | eval_miner/device/smbus/crc.go:64-81 | An accepted frame damaged by any burst of up to eight bits, its code included, is refused. |
| `SmbusPec.OneByteIsCaught` | eval_miner/device/smbus/crc.go:64-81 | So is one with a single wrong byte, wherever it is and whatever it became. |
| `CoinbaseDecoder.DecodeSize` | eval_miner/block/transaction.go:23-62 | CompactSize numbers of all four lengths; fails without moving when bytes are missing. |
| `CoinbaseDecoder.DecodeOut` | eval_miner/block/transaction.go:87-117 | An output, with the exact fault and position on every failure; a truncated script is no fault. |
| `CoinbaseDecoder.DecodeIn` | eval_miner/block/transaction.go:151-217 | The coinbase input, with the exact fault and position wherever it is truncated or malformed; a negative height length crashes. |
| `CoinbaseDecoder.GetHeight` | eval_miner/block/transaction.go:140-148 | The height is the little-endian number in its bytes; more than eight of them crash. |
| `CoinbaseDecoder.TxCoinBase.Decode` | eval_miner/block/transaction.go:231-287 | Everything is reported to be in order if and only if the bytes start with a well-formed transaction, and then all fields and the position are its own; fault and position are stated for every input. |
| `CoinbaseDecoder.TxCoinBase.DecodeOuts` | eval_miner/block/transaction.go:262-275 | The output loop, with the fault and position that a failed output leaves. |
| `CoinbaseDecoder.FaultIsMalformed` | eval_miner/block/transaction.go:231-287 | A well-formed transaction is read to its end without a fault. |
| `Coinbase.TxRoundTrip` | eval_miner/block/transaction.go:231-287 | Every well-formed transaction, followed by anything, parses to itself and leaves the rest. |
| `Coinbase.TxSound` | eval_miner/block/transaction.go:231-287 | What was parsed is the serialisation of the result followed by the rest. |
| `Coinbase.StandardIsValid` | eval_miner/block/transaction.go:151-287 | Shortest lengths and the height first in the script, as in the Specification section of BIP 34, make a well-formed transaction. |
| `Coinbase.SizeIsValid` | eval_miner/block/transaction.go:11-16 | The shortest form of every 64-bit number is well formed and reads as the number. |
| `PoolManager.PoolManager.AddPool` | eval_miner/pool/manager.go:156-189 | Adds at the end, with the next index as id and priority, or refuses. |
| `PoolManager.PoolManager.RemovePool` | eval_miner/pool/manager.go:191-225 | Refuses the last, an unknown or the remembered active pool; otherwise the rest keeps its order and is renumbered, and the pool is stopped. |
| `PoolManager.PoolManager.EnablePool` | eval_miner/pool/manager.go:227-245 | Enables one pool and changes nothing else. |
| `PoolManager.PoolManager.DisablePool` | eval_miner/pool/manager.go:247-265 | Disables one pool and changes nothing else. |
| `PoolManager.PoolManager.SwitchPool` | eval_miner/pool/manager.go:267-294 | Moves the pool to the front in place, renumbers and enables it. |
| `PoolManager.PoolManager.FindPoolWithPriority` | eval_miner/pool/manager.go:296-307 | The pool at that index. |
| `PoolManager.PoolManager.SchedulePool` | eval_miner/pool/manager.go:309-337 | The loop finds the scheduled pool. |
| `PoolManager.PoolManager.ServeOnce` | eval_miner/pool/manager.go:356-410 | One turn of the manager: start what is scheduled, stop what was in use. |
| `PoolManager.PoolManager.AllDifferent` | eval_miner/pool/manager.go:156-225 | No object stands in the table twice. |
| `PoolTable.First` | eval_miner/pool/manager.go:309-337 | The first pool that passes a test: none before it does. |
| `PoolTable.ScheduledIs` | eval_miner/pool/manager.go:309-337 | Scheduled is the first enabled healthy pool, or else the first enabled one. |
| `PoolTable.ScheduledExactly` | eval_miner/pool/manager.go:309-337 | Which pool is scheduled, by flags and rejects alone: at most ten rejects in a row and not unreachable. |
| `PoolTable.RunKeeps` | eval_miner/pool/manager.go:156-294 | Over every run: at most three pools, all different, and never none again once there was one. |
| `PoolTable.SwitchKeepsOthers` | eval_miner/pool/manager.go:275-286 | Switching loses no pool and keeps the order of the others. |
| `PoolTable.SwitchedIsUsed` | eval_miner/pool/manager.go:267-337 | The pool switched to is the one scheduled if and only if it is healthy or no enabled pool is. |
| `PoolTable.IndexUpToDate` | eval_miner/pool/manager.go:390-398 | A turn brings the remembered index up to date exactly if another pool takes over or it was right already. |
| `PoolTable.Protected` | eval_miner/pool/manager.go:204-206 | The pool in use cannot be removed if and only if the remembered index is right. |
| `PoolTable.PlaceAfter` | eval_miner/pool/manager.go:191-294 | Where every pool of the table stands after any operation, or that it is gone. |
| `PoolTable.PoolsAfter` | eval_miner/pool/manager.go:156-294 | Between turns every pool that stays is the one it was but for the flag or report the operation is about, and only a new one comes in, at the end. |
| `PoolTable.DoneExactly` | eval_miner/pool/manager.go:156-294 | Which operations are carried out; the others change nothing. |
| `PoolTable.ServedPools` | eval_miner/pool/manager.go:356-410 | A turn changes no pool but the scheduled one, which runs, with a clean record if it did not. |
| `PoolTable.RightAfter` | eval_miner/pool/manager.go:156-294 | In any state: the index is right after an operation if and only if that leaves the pool in use where the index points. |
| `PoolTable.ServeRight` | eval_miner/pool/manager.go:356-410 | The index is right after a turn if and only if it was before or another pool takes over. |
| `PoolTable.StaysRight` | eval_miner/pool/manager.go:191-294 | A right index stays right unless the pool in use is switched to the front, one behind it is, or one in front of it is removed. |
| `PoolTable.RunStaysRight` | eval_miner/pool/manager.go:156-410 | Over every run, turns included: the index is right at all times if and only if no such operation occurs. |
| `PoolTable.DisplacedIsRemovable` | eval_miner/pool/manager.go:204-206 | After any such operation the pool in use can be removed, and the pool that now stands at the index is refused in its place. |
| `PoolTable.ActivePoolRemoved` | eval_miner/pool/manager.go:204-206 | A run in which the pool in use can be removed and another one is protected in its place. |

## Left out

- The devices: serial port, I2C, GPIO, fans, power supply and temperature sensors; reads and measurements are arbitrary inputs.
- Stratum, the HTTP and JSON interfaces, logging, configuration files, chassis tables and statistics counters: no hard invariant depends on them.
- CRC-32 and SHA-256: parameters of the theorems, so nothing that holds only for these functions is claimed.
- Interleavings inside one submit, response or scan, and blocking on Go channels: each of these is one atomic step. The lock order and the window between taking a command out of the history and out of the maps are not modelled.
- The reader's `time.Now()` is taken once per step; the program takes it several times within a scan, microseconds apart.
- The elapsed-time statistics in `releaseCommand`, and the `readall` path with `ChipIDtoIndex`, which nothing sets.
- Sequence numbers are unbounded; the program's wrap after 2^64 commands.
- Bytes lost from hit frames, more than one byte lost from a response, and garbage between frames: the stream theorems cover responses short of one byte, and garbage before the first frame. A response that looks like a hit without its byte is no segment of a stream; `Misframing.TakenForHit` gives its outcome.
- A nil slice and an empty one are the same; `asicRead` never keeps an empty `received` that matters.
- `CopyInto` and `SplitOff` model `copy` on a fixed buffer; the sharing of backing arrays between slices is not modelled.
- Floating point: `float32` and `float64` are reals, and `Log2` is the exact integer logarithm; for pool difficulties close below a power of two above 2^48 the rounded logarithm can be one larger.
- Pool difficulties of 2^63 and more, which do not fit the conversions between integer types.
- `ShareValidity.PoolAccepts` uses the exact target 0xFFFF·2^208 divided by the difficulty; the big-integer code that computes it is not modelled.
- Duplicate detection of results, and the queues of jobs between device and pool.
- `Tune` in eval_miner/device/asic/tuning.go: the state that would enter it is never set.
- Temperature and voltage alarms other than their effect on the per-second check.
- Frequency setting, the fit of the voltage curve and the readings behind the fraction of slow chips, which is an arbitrary number.
- The totals and the rates in GH/s that a sample computes for the log only, and the error branch of the counter reads, which never happens because a pipelined read never returns an error.
- `faultyAsicsTrack` is taken to be an allocated map; nothing in the repository allocates it.
- `PipelinedReader.AuraAsic.UpdateAsicFaultyTracker` and `ClearFaultyAsic` read the clock once per call; the program does so two or three times, microseconds apart.
- `VersionRolling.DisjointExactly`: for a lower limit that is a multiple of 4, as the only caller passes 0.
- `SmbusPec.Lookup`: the flat table is written as cases, sixteen rows of sixteen.
- `CoinbaseDecoder.TxCoinBase.Decode`: for a transaction object used once, as the program does.
- `CoinbaseDecoder.DecodeOut` reads eight bytes where the program slices nine and uses eight; the slice fails only for a buffer without spare capacity.
- Memory: a transaction that announces more outputs than fit in memory.
- `PoolManager.PoolManager.ServeOnce`: the routine of a pool counts as running once it is started; when it ends is an arbitrary `Report`.
- `PoolManager.PoolManager.AddPool`: the parsing of a pool's configuration is a flag, valid or not.
- `UpdatePools`, `ApplyConfig`, `SaveConfig` and `RemoveAllPools`: sequences of the operations above, or none of them.
