/**
  What each command does, told from the guards a caller can check before sending it: every branch of
  every handler, with the whole new state.
 */
module Outcomes {
  import opened Bytes
  import opened Crc
  import opened Frames
  import opened Commands
  import opened FlashArea
  import opened DeviceModel
  import opened DeviceInvariant
  import opened DeviceRuns
  import opened ImageRuns

  /** A device that runs, and a frame for it with the given command. */
  predicate Takes(s: State, f: Frame, command: u16) {
    Inv(s) && !s.rebooted && Addressed(f) && f.command == command
  }

  /** Equal but for status and error code. */
  predicate SameButStatus(t: State, s: State) {
    t == s.(status := t.status, errorCode := t.errorCode)
  }

  /** Whether and how the device answers at all: to the sender, with the request's own number and command. */
  lemma {:induction false} AnswersIff(s: State, f: WireFrame, env: Env)
    ensures var r := Dispatch(s, f, env);
            && (r.reply.Some? <==> !s.rebooted && (f.dst == 0x20 || f.dst == 0xFF))
            && (r.reply.None? ==> r.state == s)
            && (r.reply.Some? ==>
                  var a := r.reply.value;
                  && a.seqNo == f.seqNo && a.command == f.command
                  && a.src == 0x20 && a.dst == 0x00 && a.totalPackets == 1 && a.packetSeq == 0)
  {
    hide Crc32, Update;
  }

  /** A command outside the table is answered with the error reply and changes nothing. */
  lemma {:induction false} UnknownOutcome(s: State, f: WireFrame, env: Env)
    requires !s.rebooted && Addressed(f) && !(0x0001 <= f.command <= 0x000A)
    ensures Dispatch(s, f, env).state == s
    ensures Dispatch(s, f, env).reply.Some? && Dispatch(s, f, env).reply.value.data == [0xFF, 0xFF, 0xFF, 0xFF]
  {
  }

  /**
    start: too short or out of turn, it changes nothing. Otherwise size and CRC are stored first, even
    when the size is then found too large; a failed erase leaves an idle device, a successful one an
    empty, erased session.
   */
  lemma {:induction false} StartOutcome(s: State, f: WireFrame, env: Env)
    requires Takes(s, f, CMD_START_UPGRADE)
    ensures var t := Dispatch(s, f, env).state;
            var reply := Dispatch(s, f, env).reply;
            var taken := |f.data| >= 12 && (s.status == Idle || s.status == Complete);
            && reply.Some?
            && (!taken ==> t == s && reply.value.data == ERROR_MARKER)
            && (taken ==> t.firmwareSize == ReadLe32(f.data, 0) && t.firmwareCrc == ReadLe32(f.data, 4))
            && (taken && ReadLe32(f.data, 0) > s.slotSize ==>
                  && t == s.(firmwareSize := t.firmwareSize, firmwareCrc := t.firmwareCrc,
                             errorCode := ERR_FIRMWARE_SIZE)
                  && reply.value.data == ERROR_MARKER)
            && (taken && ReadLe32(f.data, 0) <= s.slotSize && env.fault ==>
                  && t.status == Idle && !t.inProgress && t.errorCode == ERR_FLASH_ERASE
                  && t.receivedSize == t.currentOffset == t.calculatedCrc == 0
                  && t.bootFlag == s.bootFlag && !t.rebooted
                  && reply.value.data == ERROR_MARKER)
            && (taken && ReadLe32(f.data, 0) <= s.slotSize && !env.fault ==>
                  && t.status == Receiving && t.inProgress && t.errorCode == s.errorCode
                  && t.receivedSize == t.currentOffset == t.calculatedCrc == 0
                  && t.bootFlag == s.bootFlag && !t.rebooted
                  && |t.slot1| == |s.slot1| && (forall i :: 0 <= i < |t.slot1| ==> t.slot1[i] == 0xFF)
                  && reply.value.data == [0x00, 0x00, 0x04, 100])
  {
    hide Crc32;
    assert Sized(s) by { InvFacts(s); }
  }

  /** transfer_data: the guards in their order, and what a failed write may have disturbed. */
  lemma {:induction false} TransferOutcome(s: State, f: WireFrame, env: Env)
    requires Takes(s, f, CMD_TRANSFER_DATA)
    ensures var t := Dispatch(s, f, env).state;
            var reply := Dispatch(s, f, env).reply;
            var n := |f.data| - 4;
            var ready := s.status == Receiving && n >= 0;
            && reply.Some?
            && (!ready ==> t == s && reply.value.data == FAIL5)
            && (ready && ReadLe32(f.data, 0) != s.receivedSize ==>
                  && SameButStatus(t, s) && t.status == Error && t.errorCode == ERR_OFFSET_ERROR
                  && reply.value.data == [0x01, 0xFF, 0xFF, 0xFF, 0xFF])
            && (ready && ReadLe32(f.data, 0) == s.receivedSize && s.receivedSize + n > s.firmwareSize ==>
                  && SameButStatus(t, s) && t.status == Error && t.errorCode == ERR_FIRMWARE_SIZE
                  && reply.value.data == FAIL5)
            && (ready && ReadLe32(f.data, 0) == s.receivedSize && s.receivedSize + n <= s.firmwareSize && env.fault ==>
                  && SameButStatus(t.(slot1 := s.slot1), s) && t.status == Error && t.errorCode == ERR_FLASH_WRITE
                  && |t.slot1| == |s.slot1|
                  && (forall i :: 0 <= i < |s.slot1| && !(s.receivedSize <= i < s.receivedSize + n) ==>
                        t.slot1[i] == s.slot1[i])
                  && reply.value.data == FAIL5)
            && (ready && ReadLe32(f.data, 0) == s.receivedSize && s.receivedSize + n <= s.firmwareSize && !env.fault ==>
                  && t.status == Receiving && t.errorCode == s.errorCode && t.inProgress
                  && t.receivedSize == t.currentOffset == s.receivedSize + n
                  && t.firmwareSize == s.firmwareSize && t.firmwareCrc == s.firmwareCrc && t.bootFlag == s.bootFlag
                  && |t.slot1| == |s.slot1|
                  && (forall i :: 0 <= i < |s.slot1| ==>
                        t.slot1[i] == if s.receivedSize <= i < s.receivedSize + n
                                      then f.data[4 + i - s.receivedSize] else s.slot1[i])
                  && t.calculatedCrc == Crc32(t.slot1[..t.receivedSize])
                  && reply.value.data == [0x00] + Le32(t.receivedSize))
  {
    hide Crc32, Update, ReadLe32, Le32;
    TransferKeepsInv(s, f.data, env);
  }

  /** transfer_done: in any status but Idle it compares sizes, then completes the session or fails it. */
  lemma {:induction false} DoneOutcome(s: State, f: WireFrame, env: Env)
    requires Takes(s, f, CMD_TRANSFER_COMPLETE)
    ensures var t := Dispatch(s, f, env).state;
            var reply := Dispatch(s, f, env).reply;
            var w := Window(f.data, env.stale, 8);
            && reply.Some?
            && (s.status == Idle ==> t == s && reply.value.data == FAIL5)
            && (s.status != Idle && ReadLe32(w, 4) != s.receivedSize ==>
                  && SameButStatus(t, s) && t.status == Error && t.errorCode == ERR_FIRMWARE_SIZE
                  && reply.value.data == FAIL5)
            && (s.status != Idle && ReadLe32(w, 4) == s.receivedSize ==>
                  && t == s.(status := Complete, firmwareSize := s.receivedSize, firmwareCrc := ReadLe32(w, 0))
                  && reply.value.data == [0x00] + Le32(s.receivedSize))
  {
    hide Crc32, Update, ReadLe32, Le32;
    InvFacts(s);
  }

  /** Every 256-byte block up to the declared size lies in slot1 and reads without a fault. */
  predicate Readable(s: State, env: Env) {
    s.firmwareSize <= s.slotSize && (env.fault ==> s.firmwareSize <= 256 * env.badBlock)
  }

  /**
    verify: COMPLETE is left in every case, for VERIFYING if all blocks read back, whichever way the
    comparison goes, and for ERROR if not. The answer carries the CRC of what is in slot1, and 0x00
    if and only if that is the declared one.
   */
  lemma {:induction false} VerifyOutcome(s: State, f: WireFrame, env: Env)
    requires Takes(s, f, CMD_VERIFY_FIRMWARE)
    ensures var t := Dispatch(s, f, env).state;
            var reply := Dispatch(s, f, env).reply;
            var crc := Crc32(s.slot1[..s.receivedSize]);
            && reply.Some?
            && (s.status != Complete ==> t == s && reply.value.data == FAIL5)
            && (s.status == Complete && !Readable(s, env) ==>
                  && SameButStatus(t, s) && t.status == Error && t.errorCode == ERR_FLASH_WRITE
                  && reply.value.data == FAIL5)
            && (s.status == Complete && Readable(s, env) ==>
                  && SameButStatus(t, s) && t.status == Verifying && t.calculatedCrc == crc
                  && t.errorCode == (if crc == s.firmwareCrc then s.errorCode else ERR_CRC_MISMATCH)
                  && reply.value.data == [if crc == s.firmwareCrc then 0x00 else 0x01] + Le32(crc))
  {
    hide Crc32, Update, Le32;
  }

  /** reset, in COMPLETE, reboots; nothing else about the device changes, and elsewhere nothing at all. */
  lemma {:induction false} ResetOutcome(s: State, f: WireFrame, env: Env)
    requires Takes(s, f, CMD_RESET_RUN)
    ensures var t := Dispatch(s, f, env).state;
            && t.rebooted == (s.status == Complete) && t.(rebooted := false) == s
            && Dispatch(s, f, env).reply.Some?
            && Dispatch(s, f, env).reply.value.data == [if s.status == Complete then 0x00 else 0xFF]
  {
  }

  /** cancel, in every status, leaves an idle, empty session; declared size and CRC, slot1 and boot flag stay. */
  lemma {:induction false} CancelOutcome(s: State, f: WireFrame, env: Env)
    requires Takes(s, f, CMD_CANCEL_UPGRADE)
    ensures var t := Dispatch(s, f, env).state;
            && t.status == Idle && t.errorCode == ERR_NONE && !t.inProgress
            && t.receivedSize == t.currentOffset == t.calculatedCrc == 0
            && t.firmwareSize == s.firmwareSize && t.firmwareCrc == s.firmwareCrc
            && t.slot1 == s.slot1 && t.bootFlag == s.bootFlag && !t.rebooted
            && Dispatch(s, f, env).reply.Some?
            && Dispatch(s, f, env).reply.value.data == [0x00]
  {
  }

  /** set_boot_flag: 1 is honoured in COMPLETE only, 0 always, everything else is refused. */
  lemma {:induction false} BootFlagOutcome(s: State, f: WireFrame, env: Env)
    requires Takes(s, f, CMD_SET_BOOT_FLAG)
    ensures var t := Dispatch(s, f, env).state;
            var arms := f.data != [] && f.data[0] == 0x01 && s.status == Complete;
            var clears := f.data != [] && f.data[0] == 0x00;
            && t == s.(bootFlag := if arms then 1 else if clears then 0 else s.bootFlag)
            && Dispatch(s, f, env).reply.Some?
            && Dispatch(s, f, env).reply.value.data == [if arms || clears then 0x00 else 0xFF]
  {
  }

  // ---------------------------------------------------------------- consequences over runs

  /** No reset and no arming of the boot flag is accepted in this exchange. */
  predicate NotHonoured(x: Exchange) {
    !Accepted(x, CMD_RESET_RUN) && !Armed(x)
  }

  /**
    A verify handled in COMPLETE closes the device, whatever it answers and whether or not it can read the
    flash: until a transfer_done or a cancel, no reset and no arming is accepted, slot1 stays as it was,
    and the device does not reboot.
   */
  lemma {:induction false} VerifyEndsCompletion(s: State, f: WireFrame, env: Env, reqs: seq<Request>, m: nat)
    requires Takes(s, f, CMD_VERIFY_FIRMWARE) && s.status == Complete && m < |reqs|
    requires forall q :: q in reqs ==>
               q.frame.command != CMD_CANCEL_UPGRADE && q.frame.command != CMD_TRANSFER_COMPLETE
    ensures var h := Run(Dispatch(s, f, env).state, reqs);
            && NotHonoured(h.trace[m])
            && h.state.slot1 == s.slot1 && !h.state.rebooted
            && (h.state.status == Verifying || h.state.status == Error)
  {
    hide Dispatch, NotHonoured, Inv;
    VerifyOutcome(s, f, env);
    var t := Dispatch(s, f, env).state;
    VerifiedIsClosed(t, reqs);
    var before := reqs[..m];
    assert forall q :: q in before ==> q in reqs;
    VerifiedIsClosed(t, before);
    RunPrefix(t, reqs, m + 1);
    assert reqs[..m + 1][..m] == before;
    ClosedRefuses(Run(t, before).state, reqs[m].frame, reqs[m].env);
    assert Run(t, reqs).trace[m] == Run(t, reqs).trace[..m + 1][m];
  }

  lemma {:induction false} ClosedRefuses(s: State, f: WireFrame, env: Env)
    requires Closed(s)
    ensures NotHonoured(Exchange(f.command, f.data, Dispatch(s, f, env).reply))
  {
    hide Crc32, Update;
  }

  /** slot1 differs from the image in one byte. */
  predicate OneByteOff(cells: seq<byte>, image: seq<byte>, at: nat) {
    at < |image| <= |cells| && cells[at] != image[at] && cells[..|image|] == image[at := cells[at]]
  }

  /** What verify is for: a single wrong byte in slot1, anywhere in the image, never passes. */
  lemma {:induction false} VerifyNoticesOneByte(s: State, f: WireFrame, env: Env, image: seq<byte>, at: nat)
    requires Takes(s, f, CMD_VERIFY_FIRMWARE) && s.status == Complete && Readable(s, env)
    requires s.firmwareSize == |image| && s.firmwareCrc == Crc32(image) && OneByteOff(s.slot1, image, at)
    ensures Dispatch(s, f, env).reply.Some? && Dispatch(s, f, env).reply.value.data[0] == 0x01
    ensures Dispatch(s, f, env).state.errorCode == ERR_CRC_MISMATCH
  {
    hide Crc32, Dispatch;
    VerifyOutcome(s, f, env);
    var a, b := image[..at], image[at + 1..];
    NoticesOneByte(a, s.slot1[at], image[at], b);
    assert image == a + [image[at]] + b;
    assert s.slot1[..|image|] == a + [s.slot1[at]] + b;
    InvComplete(s);
  }

  lemma InvComplete(s: State)
    requires Inv(s) && s.status == Complete && s.firmwareSize <= s.slotSize
    ensures s.firmwareSize == s.receivedSize
  {
    hide Crc32;
  }

  /** A start the device has no room for, whose size it nevertheless stored. */
  predicate Oversized(s: State) {
    s.status == Complete && s.firmwareSize > s.slotSize
  }

  /** Requests that neither end the session nor declare a size that fits. */
  predicate LeavesSize(f: Frame, slotSize: u32) {
    && f.command != CMD_CANCEL_UPGRADE && f.command != CMD_TRANSFER_COMPLETE
    && (f.command == CMD_START_UPGRADE && |f.data| >= 12 ==> ReadLe32(f.data, 0) > slotSize)
  }

  /**
    A start for an image too large spoils a completed session: until a transfer_done, a cancel or a start
    that fits, no verification succeeds, and the first one ends in ERROR.
   */
  lemma {:induction false} OversizedStartSpoils(s: State, f: WireFrame, env: Env, reqs: seq<Request>)
    requires Takes(s, f, CMD_START_UPGRADE) && s.status == Complete
    requires |f.data| >= 12 && ReadLe32(f.data, 0) > s.slotSize
    requires forall q :: q in reqs ==> LeavesSize(q.frame, s.slotSize)
    ensures var h := Run(Dispatch(s, f, env).state, reqs);
            && (Oversized(h.state) || h.state.status == Error)
            && (forall m: nat :: m < |reqs| ==> !Verified(h.trace[m]))
            && h.state.slot1 == s.slot1
  {
    hide Dispatch, Inv, Verified, LeavesSize;
    StartOutcome(s, f, env);
    DispatchKeepsInv(s, f, env);
    SpoiledRun(Dispatch(s, f, env).state, reqs);
  }

  lemma {:induction false} SpoiledRun(s: State, reqs: seq<Request>)
    requires Inv(s) && (Oversized(s) || s.status == Error)
    requires forall q :: q in reqs ==> LeavesSize(q.frame, s.slotSize)
    ensures var h := Run(s, reqs);
            && (Oversized(h.state) || h.state.status == Error)
            && h.state.slotSize == s.slotSize && h.state.slot1 == s.slot1
            && (forall m: nat :: m < |reqs| ==> !Verified(h.trace[m]))
    decreases |reqs|
  {
    hide Dispatch, Inv, Verified, LeavesSize, Oversized;
    if reqs != [] {
      var init := reqs[..|reqs| - 1];
      var q := reqs[|reqs| - 1];
      assert q in reqs;
      SpoiledRun(s, init);
      RunKeepsInv(s, init);
      SpoiledStep(Run(s, init).state, q.frame, q.env);
    }
  }

  lemma {:induction false} SpoiledStep(s: State, f: WireFrame, env: Env)
    requires Inv(s) && (Oversized(s) || s.status == Error) && LeavesSize(f, s.slotSize)
    ensures var t := Dispatch(s, f, env).state;
            && (Oversized(t) || t.status == Error)
            && t.slotSize == s.slotSize && t.slot1 == s.slot1
            && !Verified(Exchange(f.command, f.data, Dispatch(s, f, env).reply))
  {
    hide Crc32, Update;
    assert Sized(s) by { InvFacts(s); }
  }
}
