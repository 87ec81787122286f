/**
  The device's upgrade state machine as a function from state and command to state and reply.
  The imperative handlers are proved against it, and the properties of whole runs are about it.
 */
module DeviceModel {
  import opened Bytes
  import opened Crc
  import opened Frames
  import opened Commands
  import opened FlashArea

  datatype Status = Idle | Erasing | Receiving | Verifying | Complete | Error

  function StatusCode(s: Status): byte {
    match s
    case Idle => 0x00
    case Erasing => 0x01
    case Receiving => 0x02
    case Verifying => 0x03
    case Complete => 0x04
    case Error => 0xFF
  }

  const ERR_NONE: byte := 0x00
  const ERR_FIRMWARE_SIZE: byte := 0x01
  const ERR_FLASH_ERASE: byte := 0x02
  const ERR_FLASH_WRITE: byte := 0x03
  const ERR_CRC_MISMATCH: byte := 0x04
  const ERR_OFFSET_ERROR: byte := 0x05

  const MAX_PACKET_SIZE: u16 := 1024
  const BLOCK := 256
  const ADDR_BROADCAST: u16 := 0xFF
  const WRAP := 0x1_0000_0000

  const FAIL1: seq<byte> := [0xFF]
  const FAIL4: seq<byte> := [0xFF, 0xFF, 0xFF, 0xFF]
  const FAIL5: seq<byte> := [0xFF, 0xFF, 0xFF, 0xFF, 0xFF]

  datatype State = State(
    status: Status,
    errorCode: byte,
    receivedSize: u32,
    firmwareSize: u32,
    firmwareCrc: u32,
    calculatedCrc: u32,
    currentOffset: u32,
    bootFlag: byte,
    slot0Offset: u32,
    slotSize: u32,
    inProgress: bool,
    rebooted: bool,
    slot1: seq<byte>)

  datatype Turn = Turn(state: State, reply: seq<byte>)

  /** The state ota_handler_init leaves, with whatever slot1 held before. */
  function Initial(slot0Offset: u32, slot1: seq<byte>): State
    requires |slot1| < WRAP
  {
    State(Idle, ERR_NONE, 0, 0, 0, 0, 0, 0, slot0Offset, |slot1|, false, false, slot1)
  }

  function Handshake(s: State): Turn {
    Turn(s, [StatusCode(s.status), 0, 1])
  }

  /** "STM32H743" padded to 16 bytes, version, flash size, page size, used size, start address. */
  function DeviceInfo(s: State): Turn {
    Turn(s,
         [0x53, 0x54, 0x4D, 0x33, 0x32, 0x48, 0x37, 0x34, 0x33, 0, 0, 0, 0, 0, 0, 0]
         + Le32(0x0100_0000) + Le32(0x20_0000) + Le16(4096) + Le32(0x2_0000) + Le32(s.slot0Offset))
  }

  function StartUpgrade(s: State, data: seq<byte>, env: Env): Turn {
    if |data| < 12 then Turn(s, FAIL4)
    else if s.status != Idle && s.status != Complete then Turn(s, FAIL4)
    else
      var s := s.(firmwareSize := ReadLe32(data, 0), firmwareCrc := ReadLe32(data, 4));
      if s.firmwareSize > s.slotSize then Turn(s.(errorCode := ERR_FIRMWARE_SIZE), FAIL4)
      else
        var s := s.(receivedSize := 0, currentOffset := 0, calculatedCrc := 0);
        var Access(failed, cells) := EraseCells(s.slot1, 0, s.slotSize, env);
        var s := s.(slot1 := cells);
        if failed then Turn(s.(status := Idle, errorCode := ERR_FLASH_ERASE, inProgress := false), FAIL4)
        else Turn(s.(status := Receiving, inProgress := true), [0x00] + Le16(MAX_PACKET_SIZE) + [100])
  }

  /** Sums are taken in 32-bit arithmetic, as the device's uint32_t does. */
  function TransferData(s: State, data: seq<byte>, env: Env): Turn {
    if !s.inProgress || s.status != Receiving || |data| < 4 then Turn(s, FAIL5)
    else
      var offset := ReadLe32(data, 0);
      var chunk := data[4..];
      if offset != s.currentOffset then
        Turn(s.(errorCode := ERR_OFFSET_ERROR, status := Error), [0x01, 0xFF, 0xFF, 0xFF, 0xFF])
      else if (offset + |chunk|) % WRAP > s.firmwareSize then
        Turn(s.(errorCode := ERR_FIRMWARE_SIZE, status := Error), FAIL5)
      else
        var Access(failed, cells) := WriteCells(s.slot1, offset, chunk, env);
        var s := s.(slot1 := cells);
        if failed then Turn(s.(errorCode := ERR_FLASH_WRITE, status := Error), FAIL5)
        else
          var received := (s.receivedSize + |chunk|) % WRAP;
          Turn(s.(calculatedCrc := Update(s.calculatedCrc, chunk),
                  currentOffset := (s.currentOffset + |chunk|) % WRAP,
                  receivedSize := received),
               [0x00] + Le32(received))
  }

  /** The first `len` bytes a handler sees when it reads without checking the length. */
  function Window(data: seq<byte>, stale: seq<byte>, len: nat): (w: seq<byte>)
    ensures |w| == len
    ensures len <= |data| ==> w == data[..len]
  {
    seq(len, i requires 0 <= i < len =>
      if i < |data| then data[i] else if i < |stale| then stale[i] else 0)
  }

  function TransferDone(s: State, data: seq<byte>, env: Env): Turn {
    if !s.inProgress then Turn(s, FAIL5)
    else
      var w := Window(data, env.stale, 8);
      var declaredCrc := ReadLe32(w, 0);
      var declaredSize := ReadLe32(w, 4);
      if declaredSize != s.receivedSize then
        Turn(s.(errorCode := ERR_FIRMWARE_SIZE, status := Error), FAIL5)
      else
        Turn(s.(firmwareSize := declaredSize, firmwareCrc := declaredCrc, status := Complete),
             [0x00] + Le32(s.receivedSize))
  }

  /** Whether every 256-byte block of the declared firmware can be read back. */
  predicate ReadsBack(s: State, env: Env) {
    s.firmwareSize <= |s.slot1| && !(env.fault && env.badBlock * BLOCK < s.firmwareSize)
  }

  function VerifyFirmware(s: State, env: Env): Turn {
    if s.status != Complete then Turn(s, FAIL5)
    else if !ReadsBack(s, env) then Turn(s.(status := Error, errorCode := ERR_FLASH_WRITE), FAIL5)
    else
      var crc := Crc32(s.slot1[..s.firmwareSize]);
      var s := s.(status := Verifying, calculatedCrc := crc);
      if crc == s.firmwareCrc then Turn(s, [0x00] + Le32(crc))
      else Turn(s.(errorCode := ERR_CRC_MISMATCH), [0x01] + Le32(crc))
  }

  function ResetRun(s: State): Turn {
    if s.status != Complete then Turn(s, FAIL1) else Turn(s.(rebooted := true), [0x00])
  }

  function CancelUpgrade(s: State): Turn {
    Turn(s.(status := Idle, errorCode := ERR_NONE, receivedSize := 0, currentOffset := 0,
            inProgress := false, calculatedCrc := 0),
         [0x00])
  }

  function QueryStatus(s: State): Turn {
    Turn(s, [StatusCode(s.status)] + Le32(s.receivedSize) + Le32(s.firmwareSize) + [s.errorCode, 0, 0, 0, 0])
  }

  function SetBootFlag(s: State, data: seq<byte>): Turn {
    if |data| < 1 then Turn(s, FAIL1)
    else if data[0] == 0x01 && s.status == Complete then Turn(s.(bootFlag := 1), [0x00])
    else if data[0] == 0x00 then Turn(s.(bootFlag := 0), [0x00])
    else Turn(s, FAIL1)
  }

  /** The command table; unknown commands get the four-byte failure reply. */
  function Handle(s: State, command: u16, data: seq<byte>, env: Env): Turn {
    if command == CMD_HANDSHAKE then Handshake(s)
    else if command == CMD_GET_DEVICE_INFO then DeviceInfo(s)
    else if command == CMD_START_UPGRADE then StartUpgrade(s, data, env)
    else if command == CMD_TRANSFER_DATA then TransferData(s, data, env)
    else if command == CMD_TRANSFER_COMPLETE then TransferDone(s, data, env)
    else if command == CMD_VERIFY_FIRMWARE then VerifyFirmware(s, env)
    else if command == CMD_RESET_RUN then ResetRun(s)
    else if command == CMD_CANCEL_UPGRADE then CancelUpgrade(s)
    else if command == CMD_QUERY_STATUS then QueryStatus(s)
    else if command == CMD_SET_BOOT_FLAG then SetBootFlag(s, data)
    else Turn(s, FAIL4)
  }

  predicate Addressed(f: Frame) {
    f.dst == ADDR_DEVICE || f.dst == ADDR_BROADCAST
  }

  datatype Response = Response(state: State, reply: Option<Frame>)

  function ReplyFrame(seqNo: u16, command: u16, data: seq<byte>): Frame {
    Frame(seqNo, ADDR_DEVICE, ADDR_PC, 1, 0, command, data)
  }

  /** One received frame. A rebooted device no longer runs this program; foreign addresses are ignored. */
  function Dispatch(s: State, f: Frame, env: Env): Response {
    if s.rebooted || !Addressed(f) then Response(s, None)
    else
      var t := Handle(s, f.command, f.data, env);
      Response(t.state, Some(ReplyFrame(f.seqNo, f.command, t.reply)))
  }
}
