# OTA upgrade stack: model and proofs

This project models the firmware upgrade stack of `app90_ota` from both ends. On the device: the upgrade
state machine over the slot1 flash, the receive buffer, and the frame parser. On the PC: frame
serialisation, the resynchronising stream decoder, firmware splitting, and the upgrade script that
drives the device over a link that may lose requests and replies. The ends are composed: the engine's
requests travel as bytes through the device's receive buffer.

| file | contents |
|---|---|
| `Bytes.dfy`, `Crc.dfy` | 16/32-bit little-endian fields; CRC-32/ISO-HDLC as a fold, with the running-update contract of section 8 of RFC 1952 |
| `Frame.dfy`, `Scanner.dfy`, `Decoder.dfy` | frame layout, a one-byte-at-a-time reference scanner, and the incremental decoder proved against it |
| `Firmware.dfy`, `Commands.dfy` | packets, payload builders, reply parsers |
| `Flash.dfy`, `DeviceModel.dfy`, `Device.dfy` | flash contracts, the state machine as a transition function, and the class whose handlers are proved against it |
| `DeviceInvariant.dfy`, `DeviceRuns.dfy`, `ImageRuns.dfy`, `Outcomes.dfy` | what holds between commands, of whole runs, and of slot1, and what every command does, branch by branch |
| `RxModel.dfy`, `RxRuns.dfy`, `Misaligned.dfy`, `Receiver.dfy` | device frame parser, receive loop on aligned and misaligned streams, and the class over the 4096-byte array |
| `EngineModel.dfy`, `Recovery.dfy`, `Script.dfy`, `Engine.dfy`, `Replies.dfy` | the lossy link and the phases of an upgrade, what retries can repair, the log of a run, the script itself, and what the PC can read out of replies |

How the parts are modelled:

- Every device command takes an `Env`: whether the flash access fails, what a failed access leaves behind,
  which read-back block fails, and what the frame buffer holds beyond the received data
  (`ota_cmd_transfer_done` reads eight bytes without checking the length). All results hold for every `Env`.
- The flash is assumed to be as `Flash.dfy` says: slot1 is as long as `slot_size`, `slot_size + 65535` fits
  32 bits, accesses out of range fail without effect, a failed write disturbs only its own range, a failed
  erase may leave anything.
- `sys_reboot` does not return: a rebooted device ignores everything.
- The engine reads a `Tape`: at every attempt, other frames that reach the device, the cancel flag,
  whether request and reply survive, and the UART blocks the request comes in. A reply that misses its
  attempt is never delivered later, and a request arrives whole, in any blocks with a processing pass after
  each, or not at all. The receive buffer starts empty.
- A tape is `Steady` when nothing but the link and the user interferes: no foreign frame and no flash fault,
  but losses and cancels at any time. On such a tape, and for images below 4 GiB, the end of the script is a
  function of the device's state at the beginning, the lost requests and replies, and the times at which the
  cancel flag is set (`Recovery.ScriptEnd`).
- Every frame the engine is given or sends fits the receive buffer (`FittingFrame`). The program's only
  request with more than 12 bytes of data is the transfer, and its packets have the 1024 bytes the device
  advertises (`Recovery.StartReplies`, `TransferFrameFitsIff`).
- The parser and the receive loop are functions on byte sequences of any length, so that a whole stream can
  be compared with the 4096-byte buffer it passes through (`RunIsOneDrain`).

Where the code and the documentation disagree, the model follows the code:

- Failed commands are promised to answer four bytes of 0xFF (`app90_ota/doc/protocol_format.md:20`). Most
  answer one or five, which pass the engine's error check (`ErrorReplyRecognisedIff`).
- The documented flow verifies, sets the boot flag and resets (`app90_ota/doc/pc_mcu.md:268-278`). Verification
  leaves COMPLETE and nothing brings it back except another `transfer_done`, so both later commands are
  refused and the engine reports success without a reboot (`ReopenedOnlyByDone`, `DoUpgrade`). The next run
  is then turned down at the start (`SecondRunStops`).
- Cancel is documented to clear the received data and restore the boot flag (`app90_ota/doc/pc_mcu.md:203`). It
  does neither (`BootFlagIff`, `EngineModel.SlotKept`).
- `ota_frame_parse` does not count skipped bytes (`ConsumesExactlyIff`), so a frame behind noise is handed over
  again once the noise is as long as the frame (`OnceEachIff`, `MisalignedRun`, `DispatchedTwice`), which ends an upgrade when
  the frame is a transfer (`RepeatedTransferEndsSession`). It computes its length in 16 bits
  (`OverrunIff`) and ignores the tail (`ParsersAgree`).
- The receive loop drops nothing from its buffer but parsed frames, so an announced length beyond the array,
  or 4080 bytes of noise, stop it for good (`StuckIff`, `StuckForGood`, `NoiseWedges`).
- The handshake's version is sent minor byte first (`HandshakeRead`) and read major byte first
  (`app90_ota/rust/src-tauri/src/protocol/commands.rs:25-33`), so the PC logs version 0.1. The firmware
  version in the device info is shown as 0.0.0 (`DeviceInfoRead`).
- Replies are transmitted without their tail (`ReplyReadableIff`). Above that lemma, device-to-PC replies are
  therefore modelled as frames, not bytes.

## Model

| member | source | states |
|---|---|---|
| Engine.DoUpgrade | app90_ota/rust/src-tauri/src/ota/engine.rs:118-340 | for every image, loss pattern, retry, cancel, flash fault and foreign frame (except a second engine's): past the Verifying step slot1 begins with the first `FwSize` bytes of the firmware file, all of it below 4 GiB; the script never reboots the device or raises its boot flag. Against any interference: a log of attempts with the script's frames, in order and none left out, none made while the cancel flag was set and none beyond the stage reached, replays to the device's state, up to one cancel command when stopped between packets, which leaves a running device idle if it arrives. Without foreign frames and flash faults: outcome and stage are exactly those `ScriptEnd` computes from the device's state, the losses and the cancels, past verification the whole image is in slot1, and a device that is not idle or complete or lacks room keeps slot1, status and boot flag. When nothing goes wrong and there is room, all packets are acknowledged with the exact count, the image verifies, and success is reported |
| Recovery.SurvivesIff | app90_ota/rust/src-tauri/src/ota/engine.rs:118-380 | the script gets past verification if and only if the device is idle or complete with room for the image, the cancel flag is clear whenever it is read, every send up to verify is answered, and start, verify and every packet but the last are seen exactly once |
| Recovery.SendTurnedDown | app90_ota/src/ota_handler.c:96-126 | a start sent to a device that is busy, in error, verifying or too small is answered with the error reply or not at all, however often it arrives, and leaves slot1, status and boot flag alone |
| Engine.SecondRunStops | app90_ota/src/ota_handler.c:104-111 | from the state a successful run leaves, the next run stops at the start even on a faultless link |
| Recovery.LostRequestsAreRepaired | app90_ota/rust/src-tauri/src/ota/engine.rs:343-380 | when only requests get lost, never all attempts in a row, and nobody cancels, the script finishes and every packet is seen once |
| Recovery.AnsweredOnceIff | app90_ota/rust/src-tauri/src/ota/engine.rs:343-380 | a send is answered after one receipt if and only if the first request to arrive within the attempts, with the flag clear until then, has its reply come back |
| Recovery.SendShot | app90_ota/rust/src-tauri/src/ota/engine.rs:343-380 | after a whole send with losses the device is where the number of receipts puts it, the reply is the answer to the last receipt, and a reply comes if and only if some attempt got through both ways |
| Engine.SendFrame | app90_ota/rust/src-tauri/src/ota/engine.rs:343-380 | the retry loop leaves device, reply and time as the send specification, which reads the cancel flag before every attempt |
| Script.SendLog | app90_ota/rust/src-tauri/src/ota/engine.rs:343-380 | a send adds to the log only attempts with its own frame, none of them under a set cancel flag, and an answered send at least one |
| Script.CancelledSendIsSilent | app90_ota/rust/src-tauri/src/ota/engine.rs:353-357 | a send begun under a set flag leaves the device alone and returns no reply |
| Script.SilentOnceCancelled | app90_ota/rust/src-tauri/src/ota/engine.rs:353-357 | once the flag is set for good, no attempt of the script reaches the device any more |
| Engine.Abort | app90_ota/rust/src-tauri/src/ota/engine.rs:232-237 | stopped between packets, one cancel command is sent; the device is where it leads if it arrives, and unchanged if not |
| Script.CancelLeavesIdle | app90_ota/rust/src-tauri/src/ota/engine.rs:232-237 | a cancel that arrives at a running device leaves it idle with an empty session, slot1 and boot flag as they were |
| Engine.Deliver | app90_ota/rust/src-tauri/src/serial/port.rs:93-119 | a request of the program, serialised and arriving in any UART blocks with a pass of the receive loop after each, is one dispatch and leaves the buffer empty |
| Recovery.StartReplies | app90_ota/src/ota_handler.c:145-154 | in any run, a start that is not answered with the error reply advertises 1024-byte packets |
| Engine.Transfer | app90_ota/rust/src-tauri/src/ota/engine.rs:218-260 | after the packet loop the device is where exactly the whole image has been offered, and every packet's frame has been tried in order with its number and the packet count; without foreign frames and flash faults it goes on, or stops as cancelled or unanswered, exactly as the losses and the flag decide, stands at the first packet received twice, and, if there is none, acknowledgement i carries the bytes sent up to packet i; stopped as cancelled, the last thing sent is the cancel command |
| Engine.Verify | app90_ota/rust/src-tauri/src/ota/engine.rs:290-314 | going on after the result byte implies the image is in slot1 and the device is out of COMPLETE; without foreign frames and flash faults it goes on if and only if the image was complete, verify was answered and received once, and the flag is clear |
| EngineModel.SendMoves | app90_ota/rust/src-tauri/src/ota/engine.rs:343-380 | a whole send with losses, duplicates and interruptions moves the device by at most one phase, by exactly one if answered, and the answer belongs to the last receipt |
| EngineModel.PacketMovesPhase | app90_ota/src/ota_handler.c:157-216 | a packet received once or again keeps the received prefix and ends with exactly its bytes counted or the session over |
| EngineModel.VerifyAnswered | app90_ota/src/ota_handler.c:253-300 | after our transfer_done, a verify answer of 0x00 means slot1 begins with our image, with no assumption on CRC collisions |
| EngineModel.SendActivates | app90_ota/rust/src-tauri/src/ota/engine.rs:316-334 | no send of the script reboots the device or raises the boot flag |
| EngineModel.SlotKept | app90_ota/src/ota_handler.c:253-376 | cancel, verify and every other command but start, transfer and transfer_done leave slot1 alone and keep or zero the received size |
| Recovery.PacketReceived | app90_ota/src/ota_handler.c:157-216 | without flash faults every packet in turn is accepted and the acknowledgement is exactly the engine's sent count |
| Recovery.PacketAgain | app90_ota/src/ota_handler.c:157-204 | the same packet again, whatever happens to the flash, ends the session in ERROR with its bytes in place, and its answer passes the engine's error check |
| Recovery.DoneReceived | app90_ota/src/ota_handler.c:218-251 | transfer_done makes the image verifiable even after the last packet came twice, and may itself be repeated |
| DeviceInvariant.DispatchKeepsInv | app90_ota/src/ota_handler.c:96-376 | the whole-machine invariant (in_progress, status, sizes, running CRC of slot1, erased remainder) is kept by every command under every fault |
| DeviceInvariant.TransferAcceptedIff | app90_ota/src/ota_handler.c:157-204 | the exact acceptance condition of a transfer, in unbounded arithmetic: no 32-bit sum wraps |
| DeviceInvariant.AcceptedTransfer | app90_ota/src/ota_handler.c:196-215 | an accepted transfer writes its bytes at the received size, only onto erased cells, and acknowledges the new total |
| DeviceInvariant.VerifyAnswersZeroIff | app90_ota/src/ota_handler.c:253-300 | verify answers 0x00 exactly when all blocks of the received firmware read back and its CRC is the declared one |
| Outcomes.AnswersIff | app90_ota/src/ota_protocol.c:170-193 | the device answers exactly the frames addressed to it or to everybody, to the PC, with the request's number and command, and is unchanged by all others |
| Outcomes.UnknownOutcome | app90_ota/src/ota_protocol.c:191-192 | commands outside the table get the error reply and change nothing |
| Outcomes.StartOutcome | app90_ota/src/ota_handler.c:96-155 | start told from its guards: refused unchanged, oversized with size and CRC stored and nothing else but the error code, failed erase, or an empty erased session |
| Outcomes.TransferOutcome | app90_ota/src/ota_handler.c:157-216 | transfer told from its guards: refused unchanged, wrong offset, too long, failed write with only the target range disturbed, or the bytes in place with count and CRC |
| Outcomes.DoneOutcome | app90_ota/src/ota_handler.c:218-251 | transfer_done told from its guards: refused when idle, failed on a size mismatch, otherwise complete with size and CRC as declared |
| Outcomes.VerifyOutcome | app90_ota/src/ota_handler.c:253-300 | verify always leaves COMPLETE: for VERIFYING with the CRC of slot1 in the answer and 0x00 exactly if it is the declared one, for ERROR if a block cannot be read |
| Outcomes.ResetOutcome | app90_ota/src/ota_handler.c:302-322 | reset reboots and changes nothing else, in COMPLETE only |
| Outcomes.CancelOutcome | app90_ota/src/ota_handler.c:324-336 | cancel empties the session in every status; declared size and CRC, slot1 and boot flag stay |
| Outcomes.BootFlagOutcome | app90_ota/src/ota_handler.c:351-376 | the boot flag is the only thing set_boot_flag changes, and the answer says whether it was honoured |
| Outcomes.VerifyEndsCompletion | app90_ota/src/ota_handler.c:253-376 | after any verify handled in COMPLETE, passed, failed or unreadable, no run without transfer_done and cancel has a reset or an arming accepted |
| Outcomes.VerifyNoticesOneByte | app90_ota/src/ota_handler.c:253-300 | one wrong byte of the image in slot1, anywhere, makes verify answer 0x01 |
| Outcomes.OversizedStartSpoils | app90_ota/src/ota_handler.c:113-123 | an oversized start in COMPLETE keeps every later verification from succeeding until a transfer_done, a cancel or a start that fits |
| DeviceRuns.RunKeepsInv | app90_ota/src/ota_handler.c:96-376 | the invariant, and with it the CRC of slot1 up to the received size, holds after every run |
| DeviceRuns.RebootHistory | app90_ota/src/ota_handler.c:302-376 | behind every accepted reset or arming of the boot flag lie an accepted start, transfers summing to the size of a later accepted transfer_done, and nothing disturbing since |
| DeviceRuns.BootFlagIffRaised | app90_ota/src/ota_handler.c:351-376 | after any run the boot flag is 1 if and only if the last accepted set_boot_flag of 0 or 1 raised it |
| DeviceRuns.BootFlagHasHistory | app90_ota/src/ota_handler.c:351-376 | behind a boot flag of 1 lies a latest arming never undone, and behind that the whole history of an accepted activation: start, transfers summing to the declared size, transfer_done, no restart and nothing disturbing between |
| ImageRuns.PrefixSafety | app90_ota/src/ota_handler.c:157-216 | for any lost, duplicated or reordered frames of one image, slot1 up to the received size is the image up to that size in every reachable state |
| ImageRuns.DoneMeansInPlace | app90_ota/src/ota_handler.c:218-251 | after an accepted transfer_done the acknowledged number of image bytes is in slot1 until the next start that passes its checks |
| ImageRuns.ActivationFindsImage | app90_ota/src/ota_handler.c:302-376 | whenever a reset or the boot flag is accepted, slot1 begins with the image up to the bytes accepted in the session |
| ImageRuns.FlashFrozen | app90_ota/src/ota_handler.c:104-204 | outside RECEIVING slot1 cannot change until a start passes all its checks |
| ImageRuns.VerifiedStaysClosed | app90_ota/src/ota_handler.c:253-376 | in every run from the start of the device: after an accepted verify, without a later cancel or transfer_done, slot1 stays as verified, the device never reboots, its boot flag is not raised and its status is VERIFYING or ERROR |
| ImageRuns.VerifiedIsClosed | app90_ota/src/ota_handler.c:253-376 | from any state in VERIFYING or ERROR no run without cancel and transfer_done writes flash, raises the boot flag, reboots or leaves those two |
| ImageRuns.DoneAcceptedIff | app90_ota/src/ota_handler.c:218-251 | transfer_done is accepted, and leads to COMPLETE, if and only if a session is in progress and the declared size is the received one; slot1 and received size stay |
| ImageRuns.ReopenedOnlyByDone | app90_ota/src/ota_handler.c:218-251 | from there a command restores COMPLETE if and only if it is a transfer_done declaring the received size |
| ImageRuns.RebootsIff | app90_ota/src/ota_handler.c:302-322 | a command reboots the device if and only if it is a reset in COMPLETE |
| ImageRuns.BootFlagIff | app90_ota/src/ota_handler.c:324-376 | exactly when the boot flag is 1 after a command; cancel never changes it |
| Device.OtaDevice.StartUpgrade | app90_ota/src/ota_handler.c:96-155 | new state, slot1 and reply are those of the transition function, oversize and failed-erase paths included |
| Device.OtaDevice.TransferData | app90_ota/src/ota_handler.c:157-216 | new state, slot1 and reply are those of the transition function, failed write included |
| Device.OtaDevice.TransferDone | app90_ota/src/ota_handler.c:218-251 | the object follows the transition function, which overwrites size and CRC in any status while in progress and accepts as `ImageRuns.DoneAcceptedIff` says |
| Device.OtaDevice.VerifyFirmware | app90_ota/src/ota_handler.c:253-300 | the 256-byte block loop computes the CRC of slot1 up to the firmware size, or fails exactly when a block cannot be read |
| Device.OtaDevice.ResetRun | app90_ota/src/ota_handler.c:302-322 | the object follows the transition function, whose reset reboots exactly in COMPLETE (`ImageRuns.RebootsIff`) |
| Device.OtaDevice.CancelUpgrade | app90_ota/src/ota_handler.c:324-336 | the object follows the transition function and leaves flash and boot flag alone; what cancel makes possible is `Replies.CancelMakesRoom` |
| Device.OtaDevice.SetBootFlag | app90_ota/src/ota_handler.c:351-376 | the object follows the transition function, whose flag is decided by `ImageRuns.BootFlagIff` |
| Device.OtaDevice.ProcessFrame | app90_ota/src/ota_protocol.c:178-193 | address filter and command table; the object's trace stays that of a run of the specification |
| Device.OtaDevice.constructor | app90_ota/src/ota_handler.c:21-57 | the initial state |
| RxModel.ParsersAgree | app90_ota/src/ota_protocol.c:97-143 | at a header and below the wrapping length the device accepts exactly what from_bytes accepts or rejects for its tail alone, with equal fields and length |
| RxModel.DeviceUnderstands | app90_ota/src/ota_protocol.c:97-143 | every serialised frame is parsed to itself with its exact length, whatever follows |
| RxModel.OverrunIff | app90_ota/src/ota_protocol.c:116-121 | the declared lengths for which the 16-bit frame length wraps into acceptance |
| RxModel.ConsumesExactlyIff | app90_ota/src/ota_protocol.c:103-142 | what remains after a parsed frame is what followed it if and only if nothing preceded it |
| RxModel.NoiseIsSkipped | app90_ota/src/ota_protocol.c:103-142 | header-free bytes in front of a header change nothing about the parser's decision, frame, length and tail included |
| Misaligned.MisalignedDrain | app90_ota/src/ota_protocol.c:103-142 | what a pass does to noise followed by frames, of any length: each frame is dispatched again for every frame length the parser lags behind, and the lag, less those lengths, stays for the next |
| Misaligned.MisalignedRun | app90_ota/src/ota_protocol.c:28-46 | the same for every run that drops no block, however the stream is cut and whenever passes happen: the frames dispatched are those of one pass, once each if and only if the noise is shorter than each frame |
| Misaligned.RoomIff | app90_ota/src/ota_protocol.c:32-42 | the 4096-byte buffer can take in such a stream without a drop if and only if every frame fits together with the lag it finds |
| Misaligned.DeliveredOnceIff | app90_ota/src/ota_protocol.c:28-46 | some run takes the stream in and dispatches every frame exactly once, in order, if and only if every frame is longer than the noise and fits the buffer together with it |
| Misaligned.OnceEachIff | app90_ota/src/ota_protocol.c:195-217 | in one pass over such a stream every frame is dispatched exactly once, in order, if and only if the noise is shorter than each frame |
| Misaligned.RepeatCount | app90_ota/src/ota_protocol.c:195-217 | one frame is dispatched k times exactly when the noise is at least k - 1 and less than k frame lengths |
| Misaligned.DispatchedTwice | app90_ota/src/ota_protocol.c:195-217 | a frame behind noise of one up to two frame lengths is dispatched twice |
| Misaligned.FrameLost | app90_ota/src/ota_protocol.c:103-142 | a frame whose last bytes contain a header can swallow the next one: a 48-byte stream on which a frame is lost |
| Misaligned.RepeatedTransferEndsSession | app90_ota/src/ota_protocol.c:195-217 | a transfer request behind noise as long as itself takes the device out of RECEIVING, under every flash fault |
| RxModel.ParseExtends | app90_ota/src/ota_protocol.c:97-143 | once the parser accepts or overruns, later bytes do not change its decision |
| RxModel.DrainConcat | app90_ota/src/ota_protocol.c:195-217 | a pass now and another over its rest with whatever comes later yield what a single pass over everything does |
| RxModel.DrainAligned | app90_ota/src/ota_protocol.c:195-217 | a pass over the beginning of an aligned stream yields its complete frames and keeps the partial one |
| RxRuns.RunIsOneDrain | app90_ota/src/ota_protocol.c:28-46 | chunk invariance of the device: for every run without a dropped block, what was dispatched and what the buffer still yields are what one pass over everything that arrived yields |
| RxRuns.ReceivableIff | app90_ota/src/ota_protocol.c:32-42 | a stream can be taken in without a dropped block if and only if, everything handled as early as possible, there is always room for one more byte |
| RxRuns.DropsLeaveNoTrace | app90_ota/src/ota_protocol.c:32-42 | every run, with whatever blocks dropped for lack of room, is step for step the run without those blocks |
| RxRuns.EveryRunIsOneDrain | app90_ota/src/ota_protocol.c:28-46 | so every run yields what one pass over the bytes it kept yields |
| RxRuns.ReceivesWhatIsKept | app90_ota/src/ota_protocol.c:28-46 | and if those are the beginning of an aligned stream, its frames are dispatched once, in order |
| RxRuns.ReceivesInOrder | app90_ota/src/ota_protocol.c:28-46 | for any interleaving of non-dropped arrivals and passes on an aligned stream every frame is dispatched once, in order, and the buffer is the undispatched suffix |
| RxRuns.StuckIff | app90_ota/src/ota_protocol.c:97-121 | any buffer, with a header in view or not, can never again bring the parser to a decision if and only if the announced frame, or the smallest one that could still be announced, counted in 16-bit arithmetic from the earliest possible header, ends beyond the 4096-byte array |
| RxRuns.NoiseWedges | app90_ota/src/ota_protocol.c:195-217 | after 4080 or more header-free bytes, in any blocks, the buffer holds exactly them and no frame is ever dispatched |
| RxRuns.OverlongSticks | app90_ota/src/ota_protocol.c:116-121 | a frame longer than the array sticks once its header fields are in |
| RxRuns.FullIsStuck | app90_ota/src/ota_protocol.c:32-42 | a full buffer without a complete frame can never be completed |
| RxRuns.StuckForGood | app90_ota/src/ota_protocol.c:195-217 | once the buffer cannot be completed, no later arrival or pass dispatches a frame or removes a byte |
| Receiver.OtaReceiver.Arrive | app90_ota/src/ota_protocol.c:32-42 | a block is appended whole or dropped whole |
| Receiver.OtaReceiver.FrameParse | app90_ota/src/ota_protocol.c:97-143 | the scanning loop, field reads and 16-bit length over the array compute the parse function |
| Receiver.OtaReceiver.ProcessRx | app90_ota/src/ota_protocol.c:195-217 | all drained frames are dispatched in order, replies included, and the rest is moved to the front |
| Frames.ParsesBackIff | app90_ota/rust/src-tauri/src/protocol/frame.rs:90-182 | from_bytes of to_bytes and any suffix gives the frame and its length if and only if the data fits 16 bits |
| Frames.WireLayout | app90_ota/rust/src-tauri/src/protocol/frame.rs:90-109 | every byte of a serialised frame, by position, as the protocol document lists them |
| Frames.DeserializeOutcome | app90_ota/rust/src-tauri/src/protocol/frame.rs:112-182 | which error from_bytes reports, in the order length, header, length, tail, and when it accepts |
| Frames.SerializeInvertsDeserialize | app90_ota/rust/src-tauri/src/protocol/frame.rs:90-182 | re-serialising a parsed frame gives the consumed bytes with the two reserved ones zeroed |
| Frames.ToBytes | app90_ota/rust/src-tauri/src/protocol/frame.rs:90-109 | the growing buffer ends as the wire format |
| Frames.FromBytes | app90_ota/rust/src-tauri/src/protocol/frame.rs:112-182 | the position-advancing parser computes the parse function, errors included |
| Decoder.FrameDecoder.Feed | app90_ota/rust/src-tauri/src/protocol/codec.rs:25-88 | emits exactly the reference scanner's frames of buffer plus data, keeps its rest up to one dead byte, stays below 65555 bytes, and terminates |
| Decoder.FrameDecoder.Pending | app90_ota/rust/src-tauri/src/protocol/codec.rs:104-107 | the pending count is the buffer length and below 65555 |
| Decoder.ReadLoop | app90_ota/rust/src-tauri/src/serial/port.rs:49-68 | feeding any chunks emits the frames of their concatenation |
| Decoder.ReadPort | app90_ota/rust/src-tauri/src/serial/port.rs:43-68 | a fresh decoder fed a stream of frames with header-free noise around them, cut anyhow, returns exactly those frames |
| Decoder.ResidueIsInvisible | app90_ota/rust/src-tauri/src/protocol/codec.rs:49-63 | the one byte by which residues may differ changes no later frame and no later rest |
| Scanner.ChunkInvariance | app90_ota/rust/src-tauri/src/protocol/codec.rs:25-88 | however a stream is cut, frames and final rest are the same |
| Scanner.ScanIsLeftmost | app90_ota/rust/src-tauri/src/protocol/codec.rs:29-85 | no frame is lost and none invented: reported frames lie in the stream in order without overlap, and no gap position holds a frame |
| Scanner.CutStreamRoundTrip | app90_ota/rust/src-tauri/src/protocol/codec.rs:25-97 | frames with header-free noise around them, cut anyhow, decode to exactly those frames |
| Scanner.StreamRoundTrip | app90_ota/rust/src-tauri/src/protocol/frame.rs:90-182 | the same on the uncut stream, with what is left over at the end |
| Firmware.SplitConcatenates | app90_ota/rust/src-tauri/src/ota/firmware.rs:23-36 | the packets end to end are the image |
| Firmware.SplitPositions | app90_ota/rust/src-tauri/src/ota/firmware.rs:23-36 | packet k starts k chunks in, and exists exactly if that is inside the image |
| Firmware.SplitCount | app90_ota/rust/src-tauri/src/ota/firmware.rs:23-36 | the number of packets is the rounded-up quotient |
| Firmware.CountFits | app90_ota/rust/src-tauri/src/ota/engine.rs:207-221 | for chunk sizes the engine can choose and images up to 2 MiB the 16-bit packet count is exact |
| Firmware.OffsetsExact | app90_ota/rust/src-tauri/src/ota/firmware.rs:30-33 | each 32-bit offset is the number of image bytes in the packets before it |
| Commands.TransferFrameFitsIff | app90_ota/rust/src-tauri/src/ota/engine.rs:207-242 | a transfer frame fits the device buffer if and only if its packet has at most 4072 bytes |
| Commands.PayloadFields | app90_ota/rust/src-tauri/src/protocol/commands.rs:83-154 | what the device reads back from the builders' payloads is what was put in |
| Bytes.LittleEndian | app90_ota/rust/src-tauri/src/protocol/commands.rs:83-124 | multi-byte fields go out least significant byte first |
| Replies.ErrorReplyRecognisedIff | app90_ota/rust/src-tauri/src/protocol/frame.rs:185-187 | the engine's error check sees a refusal if and only if the command is unknown, or a start that is too short, out of turn, too large or whose erase fails; all other refusals have one or five bytes |
| Replies.CancelMakesRoom | app90_ota/src/ota_handler.c:324-336 | after a cancel, in whatever state, the next start is accepted if and only if it fits the slot and the erase succeeds; slot1 and boot flag stay until then |
| Replies.StatusReportExact | app90_ota/rust/src-tauri/src/protocol/commands.rs:222-243 | the parsed status reply is the device's status, sizes and error code, and asking changes nothing |
| Replies.FreshReport | app90_ota/src/ota_handler.c:38-46 | a device that has just started reports status, sizes and error code of zero |
| Replies.StageReadsBack | app90_ota/rust/src-tauri/src/commands/ota_cmd.rs:101-108 | the PC's status display names every status as what it is |
| Replies.DeviceInfoRead | app90_ota/rust/src-tauri/src/protocol/commands.rs:54-77 | the parsed device info is the device's model, sizes and start address, and a version shown as 0.0.0 |
| Replies.HandshakeRead | app90_ota/src/ota_handler.c:59-68 | the handshake answers the status and the version, minor byte first |
| Replies.ReplyReadableIff | app90_ota/src/ota_protocol.c:145-176 | the transmitted reply bytes parse if and only if the leftovers behind the data end in the tail |
| Crc.ChunkedCrc | app90_ota/src/ota_handler.c:206-207 | the running CRC over any chunks is the one-shot CRC of the whole |
| Crc.NoticesOneByte | app90_ota/rust/src-tauri/src/ota/firmware.rs:16-19 | changing one byte, whatever surrounds it, always changes the CRC |
| Crc.ParametersShow | app90_ota/rust/src-tauri/src/ota/firmware.rs:16-19 | one evaluated CRC that shows initial register, bit order, polynomial and final complement |

## Left out

- Engine.DoUpgrade: its exact stage is for runs without foreign frames and flash faults. The outcome for images of 4 GiB or more is left open, because it can depend on a CRC collision. All of it excludes a second engine's start, transfer and transfer_done frames, replies delivered after their attempt, and bytes already waiting in the receive buffer, because replies carry nothing to match them to requests.
- Engine.Deliver: takes frames that fit the buffer, as all of the program's do. A longer one would stick in the buffer (`OverlongSticks`).
- RxRuns.ReceivesWhatIsKept: speaks of runs whose kept bytes are the beginning of an aligned stream of frames up to 4096 bytes; what else a drop in the middle of a frame leaves is `EveryRunIsOneDrain`.
- Misaligned.MisalignedRun: speaks of streams in which every frame's only header is its own; `FrameLost` shows that other frames behave differently.
- Frame::is_success and FrameDecoder::reset: nothing in the program calls them.
- RxModel.ParsersAgree: stops at a declared length of 65515, above which the device's length arithmetic wraps (`OverrunIff`).
- Replies.ReplyReadableIff: covers reply data up to 65531 bytes, where the leftovers lie inside the data area; the device's replies have at most 34.
- UART interrupts in the middle of a processing pass, and the DMA buffer that overlaps the receive buffer: arrivals happen between passes.
- Requests that are corrupted or arrive in part, replies that arrive after a retry, and two engines at once: outside the link model.
- Device-to-PC replies as bytes, except for `ReplyReadableIff`.
- The memory a wrapped frame length makes the device copy: `Overrun` ends the pass with the buffer as it is, and nothing is claimed of the device after it.
- CRC table implementations, and collisions between data that differ in more than one byte: the CRC is a bitwise fold.
- MCUboot, flash drivers, write alignment, and the delay before a reboot.
- Failing to open the flash areas at start-up, where the device is left without a usable state.
- `poll_logs`: its command is unknown to the device, which answers with the error reply and changes nothing.
- Progress events, logs, serial threads, channels, Tauri commands and the user interface.
- The other `appNN_*` demos, boards and bootloader.
