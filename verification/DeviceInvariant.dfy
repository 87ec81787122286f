/** What holds of the device between any two commands, whatever was sent and whatever the flash did. */
module DeviceInvariant {
  import opened Bytes
  import opened Crc
  import opened Frames
  import opened Commands
  import opened FlashArea
  import opened DeviceModel

  /** Fixed facts about the flash partition. */
  predicate Sized(s: State) {
    |s.slot1| == s.slotSize && s.slotSize + MAX_DATA < WRAP
  }

  predicate AllErased(cells: seq<byte>, lo: nat, hi: nat) {
    forall i: nat :: lo <= i < hi && i < |cells| ==> cells[i] == ERASED
  }

  predicate Inv(s: State) {
    && Sized(s)
    && s.status != Erasing
    && (s.inProgress <==> s.status != Idle)
    && s.receivedSize == s.currentOffset <= s.slotSize
    && (s.status == Idle ==> s.receivedSize == 0)
    && (s.status == Receiving ==> s.receivedSize <= s.firmwareSize <= s.slotSize)
    && (s.status == Complete ==> s.firmwareSize == s.receivedSize || s.firmwareSize > s.slotSize)
    && (s.status == Verifying ==> s.firmwareSize == s.receivedSize)
    && s.calculatedCrc == Crc32(s.slot1[..s.receivedSize])
    && (s.status == Receiving ==> AllErased(s.slot1, s.receivedSize, s.slotSize))
  }

  /** The parts of the invariant that do not need the CRC. */
  lemma InvFacts(s: State)
    requires Inv(s)
    ensures Sized(s)
    ensures s.inProgress <==> s.status != Idle
    ensures s.receivedSize == s.currentOffset
    ensures s.status == Receiving ==> s.receivedSize <= s.firmwareSize <= s.slotSize
  {
    hide Crc32;
  }

  lemma CrcOfNothing()
    ensures Crc32([]) == 0
  {
  }

  lemma InitialInv(slot0Offset: u32, slot1: seq<byte>)
    requires |slot1| + MAX_DATA < WRAP
    ensures Inv(Initial(slot0Offset, slot1))
  {
    CrcOfNothing();
    assert slot1[..0] == [];
  }

  lemma StartKeepsInv(s: State, data: seq<byte>, env: Env)
    requires Inv(s)
    ensures Inv(StartUpgrade(s, data, env).state)
  {
    hide Crc32;
    CrcOfNothing();
    var t := StartUpgrade(s, data, env).state;
    assert t.slot1[..0] == [];
  }

  lemma TransferKeepsInv(s: State, data: seq<byte>, env: Env)
    requires Inv(s) && |data| <= MAX_DATA
    ensures Inv(TransferData(s, data, env).state)
  {
    hide Crc32, Update, ReadLe32, Le32;
    var t := TransferData(s, data, env).state;
    assert t.slot1[..s.receivedSize] == s.slot1[..s.receivedSize];
    if t.receivedSize != s.receivedSize || t.calculatedCrc != s.calculatedCrc {
      var chunk := data[4..];
      assert t.slot1[..t.receivedSize] == s.slot1[..s.receivedSize] + chunk;
      CrcExtends(s.slot1[..s.receivedSize], chunk);
    }
  }

  lemma CrcExtends(a: seq<byte>, b: seq<byte>)
    ensures Update(Crc32(a), b) == Crc32(a + b)
  {
    UpdateConcat(0, a, b);
  }

  lemma DoneKeepsInv(s: State, data: seq<byte>, env: Env)
    requires Inv(s)
    ensures Inv(TransferDone(s, data, env).state)
  {
    hide Crc32;
  }

  lemma VerifyKeepsInv(s: State, env: Env)
    requires Inv(s)
    ensures Inv(VerifyFirmware(s, env).state)
  {
    hide Crc32;
  }

  lemma OthersKeepInv(s: State, data: seq<byte>)
    requires Inv(s)
    ensures Inv(ResetRun(s).state) && Inv(CancelUpgrade(s).state) && Inv(SetBootFlag(s, data).state)
    ensures Handshake(s).state == DeviceInfo(s).state == QueryStatus(s).state == s
  {
    hide Crc32;
    CrcOfNothing();
    assert s.slot1[..0] == [];
  }

  /** The whole-machine invariant: every command keeps it, under every flash fault. */
  lemma DispatchKeepsInv(s: State, f: WireFrame, env: Env)
    requires Inv(s)
    ensures Inv(Dispatch(s, f, env).state)
  {
    hide Inv, StartUpgrade, TransferData, TransferDone, VerifyFirmware, ResetRun, CancelUpgrade, SetBootFlag;
    StartKeepsInv(s, f.data, env);
    TransferKeepsInv(s, f.data, env);
    DoneKeepsInv(s, f.data, env);
    VerifyKeepsInv(s, env);
    OthersKeepInv(s, f.data);
  }

  /** In an accepted transfer no 32-bit sum wraps, and only erased cells are written. */
  lemma AcceptedTransfer(s: State, data: seq<byte>, env: Env)
    requires Inv(s) && |data| <= MAX_DATA
    requires TransferData(s, data, env).reply[0] == 0x00
    ensures var t := TransferData(s, data, env).state;
            var n := |data| - 4;
            && n >= 0
            && s.status == t.status == Receiving
            && ReadLe32(data, 0) == s.receivedSize
            && t.receivedSize == s.receivedSize + n <= s.firmwareSize == t.firmwareSize
            && t.slot1 == Overlay(s.slot1, s.receivedSize, data[4..])
            && AllErased(s.slot1, s.receivedSize, t.receivedSize)
            && TransferData(s, data, env).reply == [0x00] + Le32(t.receivedSize)
  {
    hide Crc32, Update;
  }

  /** The exact condition under which a transfer is accepted, in unbounded arithmetic. */
  lemma TransferAcceptedIff(s: State, data: seq<byte>, env: Env)
    requires Inv(s) && |data| <= MAX_DATA
    ensures TransferData(s, data, env).reply[0] == 0x00 <==>
            && s.status == Receiving && |data| >= 4
            && ReadLe32(data, 0) == s.receivedSize
            && s.receivedSize + |data| - 4 <= s.firmwareSize
            && !env.fault
  {
    hide Crc32, Update;
  }

  /** A refused transfer moves nothing forward; a complete one that is refused while RECEIVING ends the session. */
  lemma RefusedTransfer(s: State, data: seq<byte>, env: Env)
    requires TransferData(s, data, env).reply[0] != 0x00
    ensures var t := TransferData(s, data, env).state;
            && t.receivedSize == s.receivedSize && t.currentOffset == s.currentOffset
            && t.inProgress == s.inProgress
            && (t.status == Error || (t == s && (s.inProgress && s.status == Receiving ==> |data| < 4)))
  {
    hide Update;
  }

  lemma DispatchedTransfer(s: State, f: WireFrame, env: Env)
    requires f.command == CMD_TRANSFER_DATA && Dispatch(s, f, env).reply.Some?
    ensures Dispatch(s, f, env).state == TransferData(s, f.data, env).state
    ensures Dispatch(s, f, env).reply.value.data == TransferData(s, f.data, env).reply != []
  {
    hide Update;
  }

  /** A verification reply of 0x00 means exactly that all blocks read back and the CRCs agree. */
  lemma VerifyAnswersZeroIff(s: State, env: Env)
    requires Inv(s)
    ensures VerifyFirmware(s, env).reply[0] == 0x00 <==>
            && s.status == Complete
            && s.firmwareSize == s.receivedSize
            && !(env.fault && env.badBlock * BLOCK < s.receivedSize)
            && Crc32(s.slot1[..s.receivedSize]) == s.firmwareCrc
    ensures VerifyFirmware(s, env).reply[0] == 0x00 ==> s.calculatedCrc == s.firmwareCrc
  {
    hide Crc32;
  }
}
