# SDIO transport of the AIC8800 driver: a verified model

The driver talks to the AIC8800 chip through an SDIO host controller.  This project models that
transport, layer by layer, and proves what the layers promise each other.

- **Sending.** `FwUpload` cuts an image into block-write messages; `Lmac` frames them; `Mailbox` and
  `TxPath` pass them to the sending thread, which pads them (`TxPad`) and writes them (`SdioHost`)
  as CMD53 commands (`Transfer`, `Cmd53`; `SdioIo` is the generic helper).  The composition is a
  memcpy into the chip's memory, and each layer refines "these bytes arrive, once".
- **Receiving.** `SdioHost` and `ReadPlan` fill a buffer from the card, on the wire that the writes use;
  `RxDemux` and `RxPath` cut it into frames, and `CmdMgr` and `CmdMgrRuns` match confirmations with requests.
- **Interrupts.** `HostIrq`, `HostIrqRuns` and `Sdma` model the handler of the host controller over a
  write-1-to-clear status register; `CardIntProtocol` models the card interrupt shared by handler,
  work thread and transfers.
- **Around it.** `FrameQueue`, `TxDescRing`, `SkBuff`, `Cis` and `CfgFile`.

Objects that the driver updates in place are classes whose methods are proved against functions on
values; what the driver promises is proved about those functions, over every run.  Hardware answers
are arbitrary choices, so every contract holds for all of them.  Threads are machines whose steps are
the lock-protected accesses or single register accesses.

## Conventions

- Machine integers are mathematical integers with the wrap-around written out.  Where a debug build
  would stop on overflow (the block address in `fw_upload_blocks`), the release build's wrap is modelled.
- Bitwise or of words is a recursive function on numbers (`Cmd53.Or`); shifts and masks are products,
  quotients and remainders by powers of two.  The status register is a set of named bits, the command
  flags are a record.  Joining bytes of a little-endian word by or is written as a sum.
- An address is function * 256 + register, as the driver passes it.
- The wire is the list of commands whose command register was written, each with the data handed
  over so far and whether it was carried out.  A command the host saw through to the end is received by
  the card; what a card does with a command that failed half-way is not said.

## Where the code departs from the obvious claim

Each is a lemma with the exact condition, or with a run that shows it.

- A take of an unfinished command leaves `queue_sz` too high (`StepBalance`, `EarlyTakeLeaks`), and eight
  writes that are never taken fill the table (`UntakenWritesFillTable`).
- A submit that times out leaves its payload in the mailbox, where it is still sent unless the next submit
  replaces it first (`NothingIsWithdrawn`).
- A payload of 1529 to 1532 bytes fits the mailbox and stops the sending thread (`PadFitsMailbox`, `WakeIsFatal`).
- Results stay in step with payloads exactly until a submit times out (`InStepIffNoTimeout`); a late result then
  answers the next one (`StaleResultAfterTimeout`).
- 63 or more trailing zeros are reported as a data frame (`ZeroTail`).  One poll reads 512 bytes of whatever is
  announced, so frames beyond them are not reported as sent (`PollReportsIffWithinCut`, `PollOfZeroFilled`).
- A status bit raised again between the handler's read and its write-back is seen once (`LateRaiseIsLost`,
  `DmaEndsMerge`).
- A command error leaves the DMA flag up (`CommandErrorLeavesFlag`, `LateDataIsTaken`); an index error beside a
  response counts as success (`VerdictsMean`); completions nobody armed for are cleared (`UnarmedCompletionIsDropped`).
- The card interrupt is kept off while work is pending exactly on the runs where the two writes that turn it on
  act on what still holds: no work pending at the acknowledgement, and an enable value that is still current when
  it is written back (`EveryRunIsSafe`; `SplitWriteBreaksSafety` and `SpuriousWakeBreaksSafety` are runs where it
  does not hold).  What the check before the acknowledgement does not cover is exactly a firing between the two
  (`FreshIffRaceFree`).  It is served exactly where nothing fires in a pass that has cleared the flag and no
  wake-up is missed (`ServedIffNothingDropped`, `NotificationCanBeLost`).
- Position 0 of the frame queue means both "empty" and "priority 0" (`StepKeepsSound`, `TopFrameOvertaken`).
- The generic helper sends exactly 512 bytes as one block, the backend in byte mode; a comment in the helper
  has block mode start above 512 (`GenericVersusBackend`).
- The comments call `ipc_send_len_8801` and `aicwf_sdio_tx_msg_pad` equal; they differ by a block for
  one length in 128 (`PadLenVersusIpcSendLen`).
- A push into a full descriptor ring, or a confirmation of an empty one, is not refused (`FullPushOverwrites`,
  `EmptyAdvanceUnderflows`).

## Model

| member | source | states |
|---|---|---|
| `FwUpload.Loader.FwUploadBlocks` | driver/bsp/src/fw_load.rs:232-274 | Ok with base + length at most 2^32 replaces exactly [base, base + length) of the chip's memory by the image, through framing, mailbox, padding and CMD53, whatever the receive thread reads on the same wire meanwhile; on an error the messages handed to the send closure are the first blocks of the image, at least one, and there is a cause: a submit timed out, a send met trouble of the hardware or of the credit gate, or five hundred polls left a block write unconfirmed; an Ok upload of any length gives every command slot back and never runs out of them |
| `FwUpload.UploadIsMemcpy` | driver/bsp/src/fw_load.rs:254-273 | The wire traffic of all blocks, received on top of any earlier traffic, stores the image at its address and nothing else |
| `FwUpload.ReadsLeaveMemory` | driver/bsp/src/sdio/flow.rs:1233-1237 | The chip's memory depends on the writes of a wire alone, however reads are mixed in |
| `FwUpload.RoundTrip` | driver/bsp/src/sdio/flow.rs:1242-1256 | Push, any confirmations while sending and while waiting, take: the manager is as ready as before, with as many slots occupied |
| `FwUpload.InterruptedPrefix` | driver/bsp/src/fw_load.rs:257-266 | After a failed upload the chip's memory holds a prefix of whole blocks of the image and is otherwise unchanged: all blocks handed over if the command of the last was carried out, otherwise all but that |
| `FwUpload.BlocksPrefix` | driver/bsp/src/fw_load.rs:257-259 | The first k messages of an image are the messages of its first k blocks |
| `FwUpload.BlocksShape` | driver/bsp/src/fw_load.rs:257-266 | An image is cut every 1024 bytes and nowhere else, each message at the address of its first byte modulo 2^32 |
| `FwUpload.BlockWriteArrives` | driver/bsp/src/fw_load.rs:205-219 | One block-write message, framed, padded, planned and carried out, changes the chip's memory exactly as asked |
| `FwUpload.StoreMeaning` | driver/bsp/src/fw_load.rs:203-204 | What a store changes and what it leaves |
| `FwUpload.Loader.TxFn` | driver/bsp/src/sdio/flow.rs:1101-1136 | With no earlier submit left behind, Ok means the padded frame went out once, and any other end left at most an attempt of its own command and has a cause; in every case each send so far reached the wire at most once, and the manager followed what was received meanwhile |
| `FwUpload.Loader.PushFn` | driver/bsp/src/sdio/flow.rs:1242 | The token, or None, and the manager's new state are those of a push, in every state of the manager |
| `FwUpload.Loader.WaitFn` | driver/bsp/src/sdio/flow.rs:1244-1256 | Polls of the same SDIO host go on meanwhile; Ok takes a finished command after them; -62 comes only after five hundred polls that left the command unconfirmed; no write is added to the wire |
| `FwUpload.DeliverKeeps` | driver/bsp/src/cmd.rs:283-304 | Confirmations of any content change neither the balance, nor the occupied slots, nor the state |
| `Lmac.Serialize8801` | driver/bsp/src/cmd.rs:83-101 | The buffer holds the frame when it fits, only the header when the parameters do not fit, and the announced length is returned either way; bytes behind are untouched |
| `Lmac.UnframeTxFrame` | driver/bsp/src/cmd.rs:83-101 | Reading back any padded frame gives the ids and the parameters, for every message |
| `Lmac.HeaderFills` | driver/bsp/src/cmd.rs:87-92 | The header bytes no receiver reads: type 0x11, zeros, and a length cut to twelve bits |
| `Lmac.BlockWriteMsg` | driver/bsp/src/fw_load.rs:205-219 | Refused exactly above 1024 data bytes, and otherwise within the fixed parameter buffer |
| `Lmac.BlockWriteParams` | driver/bsp/src/fw_load.rs:214-218 | The parameters say address, size and data, little-endian, in that order, and the rest of the buffer is zero |
| `Lmac.ChipAppliesBlockWrite` | driver/bsp/src/fw_load.rs:203-219 | A framed and padded block write read by the chip stores exactly its bytes at its address |
| `TxPad.AicwfSdioTxMsgPad` | driver/bsp/src/sdio/flow.rs:57-85 | In place: a padded message that fits is the payload followed by zeros; payload and bytes past the padded length are untouched |
| `TxPad.PadLenVersusIpcSendLen` | driver/bsp/src/sdio/flow.rs:57-103 | The two length computations agree except when the aligned length plus 4 is a multiple of 512; then padding sends exactly 512 more |
| `TxPad.PadLenIsLeast` | driver/bsp/src/sdio/flow.rs:57-103 | Both lengths outright: whole blocks stay; otherwise the least number of blocks that exceeds the aligned length by more than four bytes, or by at least four |
| `TxPad.PadLenBounds` | driver/bsp/src/sdio/flow.rs:57-103 | Both lengths are multiples of 512 and not below the input |
| `TxPad.PadLenIdempotent` | driver/bsp/src/sdio/flow.rs:57-103 | Padded lengths are fixed points of both computations |
| `TxPad.PadFitsMailbox` | driver/bsp/src/sdio/flow.rs:72-77 | A payload that fits the mailbox still fits it padded, except exactly 1529 to 1532 bytes; what fits is 512, 1024 or 1536 long |
| `Cmd53.DecodeArgBlock` | kernel/sdhci/src/sdio_ops.rs:25-38 | The card reads every field of a block-mode argument back (section 5.3 of the SDIO Simplified Specification, Part E1) |
| `Cmd53.DecodeArgByte` | kernel/sdhci/src/sdio_ops.rs:45-62 | The same in byte mode, 512 bytes included |
| `Cmd53.OrBits` | kernel/sdhci/src/sdio_ops.rs:32-37 | The or the argument is built with is the bitwise one |
| `Cmd53.UnpackPackWords` | driver/bsp/src/sdio/backend.rs:1618-1639 | The little-endian words written to the data port carry the bytes in order, for every length |
| `Cmd53.WordValue` | driver/bsp/src/sdio/backend.rs:1632-1638 | Each byte of a data-port word is the byte of the buffer at its place, lowest first, or zero behind the end |
| `Transfer.PlanCarries` | driver/bsp/src/sdio/backend.rs:1950-1974 | The planned commands carry the buffer in order; each is 1 to 511 blocks within the DMA pool, or 1 to 512 bytes |
| `Transfer.PlanShape` | driver/bsp/src/sdio/backend.rs:1956-1973 | Which commands those are: from 513 bytes on block mode, 511 blocks in all but the last of them, and at most one byte-mode command for what is less than a block; else a single byte-mode command |
| `Transfer.GenericPlanCarries` | kernel/sdhci/src/sdio_io.rs:111-141 | The same for the generic helper, for every block size, with or without block mode |
| `Transfer.GenericPlanShape` | kernel/sdhci/src/sdio_io.rs:121-141 | The same for the generic helper: block mode from one block on, and the rest in pieces of 512 bytes |
| `Transfer.GenericVersusBackend` | kernel/sdhci/src/sdio_io.rs:71-72 | The two helpers plan the same commands for every size but 512 |
| `Transfer.CompletedDelivers` | driver/bsp/src/sdio/backend.rs:1662-1800 | A completed command gives the card exactly its bytes at one fixed function and register; the block registers say blocks of 512 by DMA, or in byte mode one block of as many bytes through the data port, and the length in the argument is their product |
| `Transfer.PlanRefinesStream` | driver/bsp/src/sdio/backend.rs:1950-1974 | Decoding all commands of a write and joining what the card takes gives the buffer back |
| `Transfer.SingleCommand` | driver/bsp/src/sdio/backend.rs:1956-1973 | Exactly which writes are one command, and which are none |
| `SdioHost.Host.Cmd53WriteChunk` | driver/bsp/src/sdio/backend.rs:1576-1655 | Success is one completed byte-mode command; -11 leaves the wire untouched; any end leaves at most one attempt |
| `SdioHost.Host.WriteDataPort` | driver/bsp/src/sdio/backend.rs:1618-1639 | The words written are always a prefix of the right ones, and all of them on success |
| `SdioHost.Host.Cmd53WriteBlocks` | driver/bsp/src/sdio/backend.rs:1662-1800 | The same for a block-mode command; the DMA buffer is always given back and never refused |
| `SdioHost.Host.AllocDmaBuffer` | kernel/sdhci/src/lib.rs:33-46 | When a buffer is granted |
| `SdioHost.Host.RwExtHelperWrite` | driver/bsp/src/sdio/backend.rs:1950-1974 | Success completes the whole plan; an error leaves a prefix of it and at most one attempt; -11 leaves a prefix of completed commands |
| `SdioHost.Host.FlowCtrl` | driver/bsp/src/sdio/ops.rs:309-322 | A round polls the credit register until its first non-zero reading, fifty times at most; a credit of zero means fifty readings of zero |
| `SdioHost.Host.SendMsg` | driver/bsp/src/sdio/ops.rs:301-337 | The write is tried exactly if the readings open the gate (a credit that covers the message, within ten rounds); otherwise nothing reaches the wire and the result is -110 after ten rounds, or that of a failing read; no error but -11 comes without a failed status or a closed gate |
| `SdioHost.SendsGoTo` | driver/bsp/src/sdio/ops.rs:328-335 | Every send writes register 7 of function 1 at a fixed address |
| `SdioHost.CreditMeans` | driver/bsp/src/sdio/ops.rs:310-311 | The credit is the low seven bits of the register |
| `SdioHost.GateOpensIff` | driver/bsp/src/sdio/ops.rs:305-331 | The gate is open exactly if a reading taken while it was polling grants more than the message needs, in buffers of 1536 bytes |
| `SdioHost.GateOfZeros` | driver/bsp/src/sdio/ops.rs:305-327 | Without credit it gives up after exactly five hundred readings |
| `SdioHost.GateOfSmallCredits` | driver/bsp/src/sdio/ops.rs:305-327 | With credits that are all too small, after exactly ten |
| `SdioHost.GateRound` | driver/bsp/src/sdio/ops.rs:305-331 | What one round of readings does to the gate: through, to the next round, or given up after the tenth |
| `SdioHost.SingleCommandWrite` | driver/bsp/src/sdio/backend.rs:1416-1425 | For a write of one command any error leaves at most one attempt and -11 leaves none |
| `SdioHost.EagainIsCleanIffSingle` | driver/bsp/src/sdio/backend.rs:1416-1425 | Repeating a write after -11 cannot repeat bytes if and only if the write plans at most one command |
| `SdioHost.Host.Cmd53ReadChunk` | driver/bsp/src/sdio/backend.rs:1489-1565 | Success is one completed byte-mode read whose bytes are in the target slice; nothing outside the slice changes; -11 reads nothing |
| `SdioHost.Host.ReadDataPort` | driver/bsp/src/sdio/backend.rs:1527-1548 | The slice is filled with the words' bytes, lowest first, the surplus of the last word dropped |
| `SdioHost.Host.Cmd53ReadBlocks` | driver/bsp/src/sdio/backend.rs:1805-1880 | The same for a block-mode read through the DMA buffer |
| `SdioHost.Host.RwExtHelperRead` | driver/bsp/src/sdio/backend.rs:1923-1947 | Success: the commands issued are the plan of the bytes now in the buffer, each answered with just its bytes; an error leaves a proper start of that plan done, and at most one more command started |
| `SdioHost.Host.RecvPkt` | driver/bsp/src/sdio/ops.rs:255-291 | A size above the buffer is refused unread; otherwise the length is what the card's registers announce, cut to the size asked for, and the bytes are the card's |
| `SdioHost.ReceivesComeFrom` | driver/bsp/src/sdio/ops.rs:260-288 | Every receive reads register 8 of function 1 at a fixed address |
| `ReadPlan.ReadsRefineStream` | driver/bsp/src/sdio/backend.rs:1923-1947 | A buffer filled by the commands of its plan holds exactly the stream the card sent |
| `ReadPlan.PioRead` | driver/bsp/src/sdio/backend.rs:1501-1550 | A byte-mode read takes its count of bytes out of the words the port gave |
| `ReadPlan.ReadNames` | driver/bsp/src/sdio/backend.rs:1489-1503 | A read that is carried out asks the card for just these bytes, in the mode of the plan, at the function and register of its address, and the block registers say the same |
| `ReadPlan.DmaRead` | driver/bsp/src/sdio/backend.rs:1825-1867 | A block-mode read takes the whole DMA buffer |
| `ReadPlan.StoppedBeforeAny` | driver/bsp/src/sdio/backend.rs:1499-1501 | A read that plans one command has drained nothing when it stops with -11 |
| `ReadPlan.AnnouncedIsOneCommand` | driver/bsp/src/sdio/ops.rs:274-284 | Exactly which announced lengths are drained by a single command |
| `ReadPlan.AnnouncedMeans` | driver/bsp/src/sdio/ops.rs:274-284 | Below 64 the announcement is in blocks of 512 bytes, from 64 on in words of four |
| `SdioIo.MmcHost.SdioWritesb` | kernel/sdhci/src/sdio_io.rs:111-141 | Exactly the planned commands in order, or on an error exactly those before the one refused; a block size of zero matters only in block mode |
| `Mailbox.EverySendIsOnce` | driver/bsp/src/sdio/flow.rs:375-408 | Over every run, timeouts included: each send put at most one command on the wire, an attempt of the one its padded payload plans, and a send that ended with 0 delivered that payload exactly once |
| `Mailbox.NothingIsWithdrawn` | driver/bsp/src/sdio/flow.rs:429-456 | A timeout withdraws nothing: over every run each submitted payload was sent, is on its way, or was replaced by a later one while pending |
| `Mailbox.AttemptIsSingle` | driver/bsp/src/sdio/flow.rs:380-405 | One attempt at a mailbox payload: -11 issues nothing, 0 delivers once, anything else at most once |
| `Mailbox.ResultsMatch` | driver/bsp/src/sdio/flow.rs:429-456 | Until a submit times out, a command is in exactly one place, and the k-th submit returns the result of the k-th payload |
| `Mailbox.InStepIffNoTimeout` | driver/bsp/src/sdio/flow.rs:429-456 | Throughout a run every submit that returned did so with the result of its own payload, if and only if no submit of the run timed out |
| `Mailbox.ResultIsSinceSubmit` | driver/bsp/src/sdio/flow.rs:433-447 | Over every run, timeouts included, a result that is found belongs to a send that ended after the last submit began |
| `Mailbox.StaleResultAfterTimeout` | driver/bsp/src/sdio/flow.rs:449-452 | A run in which a late result answers the next submit after a timeout |
| `Mailbox.WakeIsFatal` | driver/bsp/src/sdio/flow.rs:383-386 | The sending thread panics on exactly the payloads of 1529 to 1532 bytes |
| `TxPath.Path.BustxTake` | driver/bsp/src/sdio/flow.rs:382-385 | Taking and padding the message is the machine's wake step |
| `TxPath.Path.BustxAttempt` | driver/bsp/src/sdio/flow.rs:386-405 | One pass of the send loop is a retry or a finish step |
| `TxPath.Path.BusrxStep` | driver/bsp/src/sdio/flow.rs:293-336 | A poll of the receive thread adds no write to the wire, leaves the mailbox alone, and changes the manager as the fold of its reports |
| `TxPath.Path.SubmitAndWait` | driver/bsp/src/sdio/flow.rs:429-456 | With no earlier submit left behind: success means the padded payload went out as planned, once; any other end leaves at most an attempt of that command, and is -22 for a payload too long, -110 after exactly a hundred waits that timed out, or the result of trouble its own send met; in every case each send so far reached the wire at most once |
| `TxPath.InFlightMoves` | driver/bsp/src/sdio/flow.rs:375-408 | While its submitter waits, a payload is pending, held, or sent with its result kept, and the wire agrees |
| `CmdMgr.RwnxCmdMgr.PushCmd` | driver/bsp/src/cmd.rs:251-279 | The in-place push is the push of the value model, the first free slot included |
| `CmdMgr.RwnxCmdMgr.OnCfmMsg` | driver/bsp/src/cmd.rs:283-304 | The in-place confirmation goes to the first slot waiting for the id |
| `CmdMgr.RwnxCmdMgr.CmdComplete` | driver/bsp/src/cmd.rs:308-318 | Sets the done flag of one slot and gives one queue entry back |
| `CmdMgr.RwnxCmdMgr.Timeout` | driver/bsp/src/cmd.rs:321-330 | Frees the slot and stops the manager |
| `CmdMgr.RwnxCmdMgr.QueryDone` | driver/bsp/src/cmd.rs:332-340 | Whether the slot holds a confirmation |
| `CmdMgr.RwnxCmdMgr.Take` | driver/bsp/src/cmd.rs:343-354 | Takes the slot in any case; a finished command gives the length and the front of the buffer its confirmation, whatever the length of either, and nothing else answers |
| `CmdMgr.TakeAnswersIffDone` | driver/bsp/src/cmd.rs:343-354 | A take answers exactly the finished commands, and frees the slot either way |
| `CmdMgr.PushMeans` | driver/bsp/src/cmd.rs:251-279 | A granted push fills the first free slot with a waiting command of its id; a refused one changes nothing, and the manager was stopped, at its limit or full |
| `CmdMgr.FirstFree` | driver/bsp/src/cmd.rs:260-261 | The first free slot |
| `CmdMgr.Pick` | driver/bsp/src/cmd.rs:284-286 | The first slot waiting for an id |
| `CmdMgr.OnCfmPicked` | driver/bsp/src/cmd.rs:287-300 | A picked slot is completed at once: done, waiting and done flag agree |
| `CmdMgrRuns.StepKeepsValid` | driver/bsp/src/cmd.rs:251-354 | Every operation keeps done, WAIT_CFM and DONE in agreement and stored confirmations within 256 bytes |
| `CmdMgrRuns.StepBalance` | driver/bsp/src/cmd.rs:343-354 | The counter stays the number of waiting commands if and only if the step is neither a take of an unfinished command nor a timeout of a finished one with the counter above zero |
| `CmdMgrRuns.DisciplinedRunsBalance` | driver/bsp/src/cmd.rs:251-354 | So it is on every run that takes only finished and times out only unfinished commands |
| `CmdMgrRuns.NoSaturation` | driver/bsp/src/cmd.rs:314-326 | The saturating decrements never saturate on a waiting command |
| `CmdMgrRuns.OccupiedIsFilled` | driver/bsp/src/cmd.rs:251-354 | On every run occupied slots are pushes minus takes minus timeouts, at most eight |
| `CmdMgrRuns.PushSucceeds` | driver/bsp/src/cmd.rs:251-279 | A balanced manager refuses a push if and only if it has crashed or all slots are occupied |
| `CmdMgrRuns.EarlyTakeLeaks` | driver/bsp/src/cmd.rs:347-350 | One take of an unfinished command leaves the counter one too high with the table empty |
| `CmdMgrRuns.UntakenWritesFillTable` | driver/bsp/src/sdio/flow.rs:926-970 | Writes whose confirmation is never taken fill a slot each; exactly eight are admitted |
| `CmdMgrRuns.SlotTraced` | driver/bsp/src/cmd.rs:251-304 | Every occupied slot is traced to one push and, when done, one later confirmation of its id |
| `CmdMgrRuns.DoneIffCredited` | driver/bsp/src/cmd.rs:251-304 | Over every run a command is finished if and only if a confirmation after its push was credited to it |
| `CmdMgrRuns.CellsOverRuns` | driver/bsp/src/cmd.rs:251-333 | Over every run: flags and result of each slot agree with its being done, tokens are counted, and the manager is stopped exactly if a valid token timed out |
| `CmdMgrRuns.TakeReturnsOneConfirmation` | driver/bsp/src/cmd.rs:343-354 | Over every run a take answers if and only if one confirmation with the pushed id was credited to its command after the push, and then with the front of it, cut to 256 bytes and to the buffer |
| `CmdMgrRuns.ConfirmationsAreNotShared` | driver/bsp/src/cmd.rs:283-354 | No confirmation answers two takes |
| `RxDemux.PollRxOne` | driver/bsp/src/sdio/flow.rs:223-253 | Over any bytes the loop ends, reports what the demultiplexing function says, and leaves the manager as the fold of the reported confirmations |
| `RxDemux.IsConfigMeans` | driver/bsp/src/sdio/flow.rs:224-229 | A type byte is configuration exactly in the upper half of every thirty-two values |
| `RxDemux.DataIsNeverConfig` | driver/bsp/src/sdio/flow.rs:224-237 | Whatever the bytes, nothing with the configuration bit set is reported as data |
| `RxDemux.ParseTries` | driver/bsp/src/sdio/flow.rs:156-199 | Data, a prefixed confirmation, a bare header: each is reported exactly where those before it do not stand, and the loop stops where none does |
| `RxDemux.DemuxOrdered` | driver/bsp/src/sdio/flow.rs:207-255 | For any bytes the reported slices lie in the buffer, increasing and disjoint |
| `RxDemux.ParseEncoded` | driver/bsp/src/sdio/flow.rs:156-238 | One well-formed frame is recognised wherever it stands |
| `RxDemux.BareParses` | driver/bsp/src/sdio/flow.rs:182-199 | A bare eight-byte header is recognised, with its id and parameters, wherever nothing else stands |
| `RxDemux.DemuxEncoded` | driver/bsp/src/sdio/flow.rs:223-253 | A list of frames, wherever it stands, is reported in order and the loop goes on behind it |
| `RxDemux.DemuxUndoesFraming` | driver/bsp/src/sdio/flow.rs:207-255 | Frames of all three kinds followed by fewer than 16 bytes: exactly those frames are reported, in order |
| `RxDemux.CutDemux` | driver/bsp/src/sdio/flow.rs:207-255 | A buffer cut at n bytes gives exactly the reports of the frames sent, if and only if the frames end within the cut |
| `RxDemux.CutZeros` | driver/bsp/src/sdio/flow.rs:207-255 | Frames filled up with zeros and cut: reported exactly if and only if they end within the cut and fewer than 63 zeros are left behind them |
| `RxDemux.DeliverReported` | driver/bsp/src/sdio/flow.rs:172-195 | The manager then changes as the fold of the confirmations that were sent |
| `RxDemux.ZeroTail` | driver/bsp/src/sdio/flow.rs:224-237 | Trailing zeros add no report if and only if there are fewer than 63 of them |
| `RxPath.PollRxOnce` | driver/bsp/src/sdio/flow.rs:207-255 | Receive and demultiplexing in one: the reports are those of the bytes one command at most took from the card, as many as its registers announce up to 512; on an error the manager is untouched, and on -11 the card still has every byte |
| `RxPath.PollReportsIffWithinCut` | driver/bsp/src/sdio/flow.rs:207-216 | Frames and a short tail that the card announces are reported exactly if and only if the frames end within the 512 bytes one poll reads |
| `RxPath.PollOfZeroFilled` | driver/bsp/src/sdio/flow.rs:207-255 | The same for an announcement filled up with zeros to whole blocks: the frames must end within 512 bytes with fewer than 63 zeros read behind them |
| `HostIrq.Controller.HandleSdhciHostIrq` | driver/bsp/src/sdio/backend.rs:268-392 | Passes in order, each over a status that is neither empty nor all ones, until such a status is read or sixteen are done; every bit set before or raised meanwhile is still set or was read by a pass; CARD_INT read while enabled leaves both enable registers and work is pending, and otherwise the three are unchanged |
| `HostIrq.Controller.ServicePass` | driver/bsp/src/sdio/backend.rs:282-384 | One pass in place is the pass of the value model, with the hardware raising bits before each write-back |
| `HostIrq.PassLosesNothing` | driver/bsp/src/sdio/backend.rs:276-289 | A pass clears only bits of the snapshot it read; every bit set or raised during it is still set or was in that snapshot |
| `HostIrq.PassesLoseNothing` | driver/bsp/src/sdio/backend.rs:275-390 | The same for any number of passes: still set, or read by one of them |
| `HostIrq.LateRaiseIsLost` | driver/bsp/src/sdio/backend.rs:287-384 | Exactly which bits raised again after the read are gone at the end of the pass: those a write-back still to come clears, unless raised once more behind it; all of them were in the snapshot |
| `HostIrq.DmaEndsMerge` | driver/bsp/src/sdio/backend.rs:341-352 | Two DMA_END interrupts within one pass move the address on once |
| `HostIrq.DataBitsHeld` | driver/bsp/src/sdio/backend.rs:283-358 | With a DMA transfer pending, data bits are cleared all when a result is published, DMA_END alone when the address moves on, and otherwise none |
| `HostIrq.VerdictsMean` | driver/bsp/src/sdio/backend.rs:292-358 | Exactly which status publishes which result: an index error beside a response does not count, DATA_END outranks every error |
| `HostIrq.AllOnesMeans` | driver/bsp/src/sdio/backend.rs:276-279 | The status that ends the loop has all thirty-two bits |
| `HostIrq.PassMeans` | driver/bsp/src/sdio/backend.rs:288-362 | What one pass does to the command, the data phase and the address: exactly when it ends either and when it moves on |
| `HostIrq.CmdOverPasses` | driver/bsp/src/sdio/backend.rs:288-314 | Over any number of passes a waiting command gets the result of the first status that ends it, once |
| `HostIrq.DataOverPasses` | driver/bsp/src/sdio/backend.rs:315-362 | Over any number of passes a waiting data phase gets the result of the first status that ends it, once |
| `HostIrq.PassesWalk` | driver/bsp/src/sdio/backend.rs:341-352 | Over any number of passes the transfer walks from boundary to boundary, one step for each that moves it on |
| `HostIrq.QuietPassClears` | driver/bsp/src/sdio/backend.rs:282-384 | With the hardware quiet, exactly which bits a pass clears |
| `HostIrq.CardSignalled` | driver/bsp/src/sdio/backend.rs:369-378 | CARD_INT found while enabled is disabled in both registers with work pending; otherwise the three are unchanged |
| `HostIrq.CardCleared` | driver/bsp/src/sdio/backend.rs:380-384 | CARD_INT is set after a pass exactly if it was raised late and was not in the status read |
| `HostIrq.CardOverPasses` | driver/bsp/src/sdio/backend.rs:369-384 | The same as for one pass over any number of them |
| `HostIrq.UnarmedCompletionIsDropped` | driver/bsp/src/sdio/backend.rs:283-292 | Without a pending command its completion bits are cleared and nothing is published |
| `HostIrqRuns.EveryRunKeepsFlags` | driver/bsp/src/sdio/backend.rs:1310-1341 | Over every run of transfers and interrupts at most one command and one data result is published per arming; between transfers the data flag is up exactly after a failure in the command phase with no data result since |
| `HostIrqRuns.PassesPublish` | driver/bsp/src/sdio/backend.rs:306-320 | Publishing a result and dropping its pending flag are one act |
| `HostIrqRuns.CommandErrorLeavesFlag` | driver/bsp/src/sdio/backend.rs:1750-1753 | Any command error fails the transfer in its command phase; the DMA flag stays up exactly if the same status did not end the data phase too |
| `HostIrqRuns.CommandThenData` | driver/bsp/src/sdio/backend.rs:1736-1760 | A command that succeeds goes on to the data wait, which ends with the first status that ends a data phase, from the command's own pass or a later one |
| `HostIrqRuns.ArmedTransferWalks` | driver/bsp/src/sdio/backend.rs:341-352 | A transfer that was just armed walks from its base, whatever the handler finds |
| `HostIrqRuns.LateDataIsTaken` | driver/bsp/src/sdio/backend.rs:312-358 | With the flag up between transfers, the next status that ends a data phase, and only such a one, is published as the failed transfer's result |
| `Sdma.WalkIsAtBoundary` | driver/bsp/src/sdio/backend.rs:341-352 | From every base, the k-th DMA_END moves the byte count to the k-th 512 KiB boundary above it modulo 2^32, and the register is pointed there if that is within the transfer |
| `Sdma.WritesAreBoundaries` | driver/bsp/src/sdio/backend.rs:341-352 | The address writes are the boundaries in ascending order, once each, as far as interrupts came and no further than the buffer, and the register stays at the last of them |
| `Sdma.BoundariesAreAll` | driver/bsp/src/sdio/backend.rs:341-352 | Those are exactly the multiples of 512 KiB strictly inside the buffer (Host SDMA Buffer Boundary, section 2.2.2 of the SD Host Controller Simplified Specification) |
| `Sdma.AtMostOneWrite` | driver/bsp/src/sdio/backend.rs:1689-1696 | A transfer of at most 511 blocks makes at most one write |
| `Sdma.WrapRestarts` | driver/bsp/src/sdio/backend.rs:345-351 | From every base the walk starts over after 8192 interrupts; the byte count returns to zero exactly for aligned bases at multiples of 8192 |
| `CardIntProtocol.EveryRunIsSafe` | driver/bsp/src/sdio/backend.rs:1361-1425 | A run of any steps keeps CARD_INT disabled while work is pending, throughout, if and only if no work is pending at any acknowledgement and every write-back of the enable register is of its current value; and then it is only ever turned on by a pass that cleared the flag and attempted the read |
| `CardIntProtocol.HandlerIsIsr` | driver/bsp/src/sdio/backend.rs:369-384 | The machine's handler step is one pass of the interrupt handler |
| `CardIntProtocol.FreshIffRaceFree` | driver/bsp/src/sdio/backend.rs:1402-1425 | A run is fresh if and only if nothing fires between a pass's check and its acknowledgement and no write-back raced: the check leaves just that gap |
| `CardIntProtocol.StepIsSafeIffFresh` | driver/bsp/src/sdio/backend.rs:1344-1425 | The same for one step: exactly the fresh ones keep safety |
| `CardIntProtocol.OrderlyRunsAreFresh` | driver/bsp/src/sdio/backend.rs:1402-1407 | Passes that start with CARD_INT disabled are enough: nothing fires in them |
| `CardIntProtocol.NotifiedRunsAreOrderly` | driver/bsp/src/sdio/flow.rs:352-366 | Wakes that answer a notification only start such passes |
| `CardIntProtocol.EarlyPassCanBeFresh` | driver/bsp/src/sdio/backend.rs:1402-1407 | A run with a pass that nothing asked for and that does no harm |
| `CardIntProtocol.FiringsAreSeparated` | driver/bsp/src/sdio/flow.rs:352-368 | Between two firings lie a clear, a read attempt and an enabling, in a row |
| `CardIntProtocol.SplitWriteBreaksSafety` | driver/bsp/src/sdio/backend.rs:1348-1355 | A run in which a firing between read and write of the enable register is undone |
| `CardIntProtocol.SpuriousWakeBreaksSafety` | driver/bsp/src/sdio/backend.rs:1402-1407 | A run in which a pass nobody asked for overwrites the disable of a firing |
| `CardIntProtocol.ServedIffNothingDropped` | driver/bsp/src/sdio/flow.rs:352-366 | A fresh run keeps a worker on its way to pending work throughout, if and only if nothing fires in a pass that has already cleared the flag and no wake-up for pending work is missed |
| `CardIntProtocol.StepServesIffNotDropped` | driver/bsp/src/sdio/backend.rs:1402-1423 | The same for one step |
| `CardIntProtocol.NotificationCanBeLost` | driver/bsp/src/sdio/flow.rs:352-366 | A fresh run that ends with work pending, the interrupt off and nobody woken |
| `FrameQueue.PrioQueue.Put` | kernel/skb/src/queue.rs:89-95 | The in-place enqueue is that of the value model |
| `FrameQueue.EffectiveMeans` | kernel/skb/src/queue.rs:89-94 | A priority in use is kept, one beyond is the last in use |
| `FrameQueue.PrioQueue.Get` | kernel/skb/src/queue.rs:98-108 | The in-place dequeue is that of the value model |
| `FrameQueue.PrioQueue.IsEmpty` | kernel/skb/src/queue.rs:110-114 | Whether every list in use is empty |
| `FrameQueue.EachPriorityIsFifo` | kernel/skb/src/queue.rs:89-108 | Over every run each priority is a FIFO: arrived is served followed by queued |
| `FrameQueue.TwoNonesMeanEmpty` | kernel/skb/src/queue.rs:98-108 | Two consecutive None mean every list is empty |
| `FrameQueue.ServesBestIffSound` | kernel/skb/src/queue.rs:98-108 | Dequeue serves the lowest-numbered non-empty list, and None only when there is none, if and only if nothing is queued above the scan position |
| `FrameQueue.StepKeepsSound` | kernel/skb/src/queue.rs:89-95 | Exactly which step breaks that: an enqueue at scan position 0 while a frame waits above its priority |
| `FrameQueue.PriorityOrder` | kernel/skb/src/queue.rs:89-108 | On runs whose effective priorities are never 0 the order is always right |
| `FrameQueue.TopFrameOvertaken` | kernel/skb/src/queue.rs:91 | A frame at priority 0 followed by one at priority 1: the second is served first, then None, then the first |
| `TxDescRing.SdioHostEnv.TxdescPush` | driver/fdrv/src/sdio_bus.rs:210-217 | Pushes on one ring and leaves the other three; out-of-range queues are ignored |
| `TxDescRing.SdioHostEnv.TxCfmAdvance` | driver/fdrv/src/sdio_bus.rs:222-230 | Advances one ring and leaves the other three; None exactly for out-of-range queues |
| `TxDescRing.EachQueueIsFifo` | driver/fdrv/src/sdio_bus.rs:208-231 | Over every run within the window of 64, from any starting indices, what was pushed is what confirmations returned followed by what is outstanding |
| `TxDescRing.PushAppends` | driver/fdrv/src/sdio_bus.rs:210-217 | A push into a ring with room appends, wherever the 32-bit indices stand |
| `TxDescRing.AdvanceTakesOldest` | driver/fdrv/src/sdio_bus.rs:222-230 | A confirmation returns and removes the oldest outstanding entry |
| `TxDescRing.FullPushOverwrites` | driver/fdrv/src/sdio_bus.rs:214-216 | A push into a full ring overwrites the oldest entry |
| `TxDescRing.EmptyAdvanceUnderflows` | driver/fdrv/src/sdio_bus.rs:226-229 | A confirmation of an empty ring makes it look almost endlessly full |
| `Cis.ParseCisForManfid` | driver/bsp/src/sdio/cis.rs:50-80 | The loop is the 256-step walk, without its pointer ever wrapping |
| `Cis.WalkInvertsEncoding` | driver/bsp/src/sdio/cis.rs:53-79 | Over every tuple chain the walk returns the ids of the first MANFID tuple with both, or nothing (section 16.2 of the SDIO Simplified Specification, Part E1) |
| `Cis.ParserFindsManfid` | driver/bsp/src/sdio/cis.rs:51-53 | It is found if and only if at most 255 tuples precede it |
| `Cis.FailingReadIsReturned` | driver/bsp/src/sdio/cis.rs:53-72 | A failing read of a code, a link or an id byte ends the walk with its error |
| `Cis.ErrorsAreReads` | driver/bsp/src/sdio/cis.rs:53-72 | An error of the walk is the error of a read |
| `CfgFile.FindTag` | driver/fdrv/src/cfgfile.rs:30-46 | The remainder of the first line that starts with the tag, or None; an empty text yields None for every tag |
| `CfgFile.FirstTaggedMeans` | driver/fdrv/src/cfgfile.rs:30-46 | That line starts with the tag, the rest of it is what is found, and no earlier line starts with it |
| `CfgFile.LinesMean` | driver/fdrv/src/cfgfile.rs:34-43 | Lines are cut at exactly the newlines |
| `CfgFile.ParseHex8` | driver/fdrv/src/cfgfile.rs:80-89 | The value of the first eight characters if all are hex digits |
| `CfgFile.HexNibbleMeans` | driver/fdrv/src/cfgfile.rs:70-77 | Exactly these characters are digits |
| `CfgFile.HexNibbleValues` | driver/fdrv/src/cfgfile.rs:70-77 | Each with its place as its value, letters in either case |
| `CfgFile.HexValueIffDigits` | driver/fdrv/src/cfgfile.rs:80-89 | A string has a value exactly if all its characters are digits |
| `CfgFile.Hex8RoundTrip` | driver/fdrv/src/cfgfile.rs:80-89 | Undoes eight-digit printing of every 32-bit value in either case |
| `CfgFile.ParseMacAddr` | driver/fdrv/src/cfgfile.rs:49-68 | The loop reads six bytes from the start of the value |
| `CfgFile.ParsesIffSpelled` | driver/fdrv/src/cfgfile.rs:49-68 | An address is returned if and only if the value begins with a spelling of it: two hex digits a byte, a colon or not between any two |
| `CfgFile.ParseConfigfile` | driver/fdrv/src/cfgfile.rs:92-102 | The configured address, or the default one |
| `CfgFile.ConfiguredMeans` | driver/fdrv/src/cfgfile.rs:92-102 | The default stands exactly for a text without the line, or whose first one begins with no spelling |
| `CfgFile.MacRoundTrip` | driver/fdrv/src/cfgfile.rs:92-102 | A text whose first MAC_ADDR line carries the printed form, either case, with or without colons, yields that address |
| `SkBuff.SkBuff.Put` | kernel/skb/src/skbuff.rs:96-103 | The payload grows by what was behind it, or nothing changes |
| `SkBuff.SkBuff.Pull` | kernel/skb/src/skbuff.rs:107-111 | The front of the payload becomes headroom |
| `SkBuff.SkBuff.Push` | kernel/skb/src/skbuff.rs:115-122 | The payload grows by what was before it, or nothing changes |
| `SkBuff.SkBuff.Reserve` | kernel/skb/src/skbuff.rs:126-137 | Headroom is added in front, payload and tailroom keep their bytes |
| `SkBuff.SkBuff.SetLen` | kernel/skb/src/skbuff.rs:67-70 | The payload length is set within the storage |
| `SkBuff.SkBuff.CopyBits` | kernel/skb/src/skbuff.rs:141-147 | Copies the part of the range there is; the rest of the destination is untouched |
| `SkBuff.StorageOnlyGrows` | kernel/skb/src/skbuff.rs:96-137 | Over every run of operations headroom, payload and tailroom join to the old storage, grown at most by zeros in front |
| `SkBuff.LengthsMean` | kernel/skb/src/skbuff.rs:74-135 | How long headroom, payload and tailroom are after each operation |
| `SkBuff.PushUndoesPull` | kernel/skb/src/skbuff.rs:107-122 | A push undoes an equal pull if and only if the pull was in range (or neither did anything) |
| `SkBuff.PullUndoesPush` | kernel/skb/src/skbuff.rs:115-137 | A header pushed into reserved room and pulled again leaves the payload |

## Left out

- FwUpload.Loader.FwUploadBlocks: after an error it does not say the loader can be used again, because a slot may stay occupied and a message in flight.
- FwUpload.InterruptedPrefix: takes a command that was not carried out as leaving the chip's memory alone.
- SdioHost.Host.RwExtHelperRead: of the command that failed it says only that at most one was started, not what the card did with it.
- Sdma.WritesAreBoundaries: assumes the buffer ends within 32 bits, as the DMA pool does, and fewer than 8192 boundary interrupts.
- Whether waits ever end: wake-ups and timeouts are arbitrary choices, and only safety is proved.
- More than one submitter at the mailbox, and `with_sdio` finding no device.
- What a poll makes of the rest of an announcement beyond 512 bytes, which the next poll reads as a new start.
- A transfer being armed by another processor in the middle of one handler pass: passes and the transferring thread's steps do not overlap.
- Cache maintenance, physical addresses, volatile access, delays, logging, line resets and status clearing after an error.
- GPIO, pin multiplexing, power, clock, tuning and card enumeration.
- The 8800DC/DW and V3 variants: their serialiser, registers and message ports.
- The other message builders and parsers of the loader, `fw_start_app` and the patch tables: fixed field copies.
- E2A and data callbacks: what they are given is reported, what they do is not modelled.
- The single-byte CMD52 transfers, except as the bytes they read.
- `sdio_readsb`, whose loop is that of `sdio_writesb`; the read direction is modelled in the backend.
- `read_vendor_device` and the function-1 walk, which repeat the modelled walk at other addresses.
- `parse_karst_configfile`, which applies the modelled `find_tag` and `parse_hex8` field by field.
- `SkBuff` views and clone, and `SkbQueue` beyond FIFO order.
