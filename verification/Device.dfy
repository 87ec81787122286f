/** The device's global upgrade state and its command handlers. */
module Device {
  import opened Bytes
  import opened Crc
  import opened Frames
  import opened Commands
  import opened FlashArea
  import opened DeviceModel
  import opened DeviceInvariant
  import opened DeviceRuns

  class OtaDevice {
    var status: Status
    var errorCode: byte
    var receivedSize: u32
    var firmwareSize: u32
    var firmwareCrc: u32
    var calculatedCrc: u32
    var currentOffset: u32
    var bootFlag: byte
    const slot0Offset: u32
    const slotSize: u32
    var inProgress: bool
    var rebooted: bool
    const slot1: Flash
    // Everything exchanged since start-up, as an observer on the wire sees it.
    ghost var trace: seq<Exchange>
    ghost const origin: seq<byte>
    ghost var requests: seq<Request>

    ghost function Abs(): State
      reads this, slot1.cells
    {
      State(status, errorCode, receivedSize, firmwareSize, firmwareCrc, calculatedCrc, currentOffset, bootFlag,
            slot0Offset, slotSize, inProgress, rebooted, slot1.cells[..])
    }

    /** The object's state and trace are those of a run of the specification from start-up. */
    ghost predicate Valid()
      reads this, slot1.cells
    {
      && |origin| + MAX_DATA < WRAP
      && Run(Initial(slot0Offset, origin), requests) == History(Abs(), trace)
    }

    constructor (slot0Offset: u32, slot1: Flash)
      requires slot1.cells.Length + MAX_DATA < WRAP
      ensures Valid() && Abs() == Initial(slot0Offset, slot1.cells[..])
      ensures this.slot1 == slot1 && trace == []
    {
      status := Idle;
      errorCode := ERR_NONE;
      receivedSize := 0;
      firmwareSize := 0;
      firmwareCrc := 0;
      calculatedCrc := 0;
      currentOffset := 0;
      bootFlag := 0;
      inProgress := false;
      rebooted := false;
      this.slot0Offset := slot0Offset;
      this.slotSize := slot1.cells.Length;
      this.slot1 := slot1;
      trace := [];
      requests := [];
      origin := slot1.cells[..];
    }

    /** Between commands the device satisfies the whole-machine invariant. */
    lemma ValidInv()
      requires Valid()
      ensures Inv(Abs()) && HistoryInv(History(Abs(), trace))
    {
      InitialInv(slot0Offset, origin);
      RunKeepsHistory(Initial(slot0Offset, origin), requests);
    }

    method StartUpgrade(data: seq<byte>, env: Env) returns (reply: seq<byte>)
      modifies this`status, this`errorCode, this`receivedSize, this`firmwareSize, this`firmwareCrc,
               this`calculatedCrc, this`currentOffset, this`inProgress, slot1.cells
      ensures Turn(Abs(), reply) == DeviceModel.StartUpgrade(old(Abs()), data, env)
    {
      hide EraseCells, ReadLe32;
      if |data| < 12 {
        return FAIL4;
      }
      if status != Idle && status != Complete {
        return FAIL4;
      }
      firmwareSize := ReadLe32(data, 0);
      firmwareCrc := ReadLe32(data, 4);
      if firmwareSize > slotSize {
        errorCode := ERR_FIRMWARE_SIZE;
        return FAIL4;
      }
      status := Erasing;
      receivedSize := 0;
      currentOffset := 0;
      inProgress := true;
      calculatedCrc := 0;
      var err := slot1.Erase(0, slotSize, env);
      if err {
        status := Idle;
        errorCode := ERR_FLASH_ERASE;
        inProgress := false;
        return FAIL4;
      }
      status := Receiving;
      reply := [0x00] + Le16(MAX_PACKET_SIZE) + [100];
    }

    method TransferData(data: seq<byte>, env: Env) returns (reply: seq<byte>)
      modifies this`status, this`errorCode, this`receivedSize, this`calculatedCrc, this`currentOffset, slot1.cells
      ensures Turn(Abs(), reply) == DeviceModel.TransferData(old(Abs()), data, env)
    {
      hide Update, WriteCells, ReadLe32;
      if !inProgress || status != Receiving {
        return FAIL5;
      }
      if |data| < 4 {
        return FAIL5;
      }
      var offset := ReadLe32(data, 0);
      var chunk := data[4..];
      if offset != currentOffset {
        errorCode := ERR_OFFSET_ERROR;
        status := Error;
        return [0x01, 0xFF, 0xFF, 0xFF, 0xFF];
      }
      if (offset + |chunk|) % WRAP > firmwareSize {
        errorCode := ERR_FIRMWARE_SIZE;
        status := Error;
        return FAIL5;
      }
      var err := slot1.Write(offset, chunk, env);
      if err {
        errorCode := ERR_FLASH_WRITE;
        status := Error;
        return FAIL5;
      }
      calculatedCrc := Update(calculatedCrc, chunk);
      currentOffset := (currentOffset + |chunk|) % WRAP;
      receivedSize := (receivedSize + |chunk|) % WRAP;
      reply := [0x00] + Le32(receivedSize);
    }

    method TransferDone(data: seq<byte>, env: Env) returns (reply: seq<byte>)
      modifies this`status, this`errorCode, this`firmwareSize, this`firmwareCrc
      ensures Turn(Abs(), reply) == DeviceModel.TransferDone(old(Abs()), data, env)
    {
      if !inProgress {
        return FAIL5;
      }
      var w := Window(data, env.stale, 8);
      var declaredCrc := ReadLe32(w, 0);
      var declaredSize := ReadLe32(w, 4);
      if declaredSize != receivedSize {
        errorCode := ERR_FIRMWARE_SIZE;
        status := Error;
        return FAIL5;
      }
      firmwareSize := declaredSize;
      firmwareCrc := declaredCrc;
      status := Complete;
      reply := [0x00] + Le32(receivedSize);
    }

    /** Reads slot1 back in 256-byte blocks; the running CRC ends up as the CRC of the whole firmware. */
    method VerifyFirmware(env: Env) returns (reply: seq<byte>)
      modifies this`status, this`errorCode, this`calculatedCrc
      ensures Turn(Abs(), reply) == DeviceModel.VerifyFirmware(old(Abs()), env)
    {
      hide Update, Crc32;
      if status != Complete {
        return FAIL5;
      }
      status := Verifying;
      var crc: u32 := 0;
      var remaining: nat := firmwareSize;
      var offset: nat := 0;
      CrcOfNothing();
      ghost var cells := slot1.cells[..];
      assert cells[..0] == [];
      while remaining > 0
        invariant offset + remaining == firmwareSize
        invariant remaining > 0 ==> offset % BLOCK == 0
        invariant offset <= |cells|
        invariant env.fault ==> env.badBlock * BLOCK >= offset
        invariant crc == Crc32(cells[..offset])
        invariant unchanged(slot1.cells) && status == Verifying
        invariant firmwareSize == old(firmwareSize) && errorCode == old(errorCode)
        invariant calculatedCrc == old(calculatedCrc)
      {
        var chunk := if remaining > BLOCK then BLOCK else remaining;
        var err, block := slot1.Read(offset, chunk, env.fault && env.badBlock == offset / BLOCK);
        if err {
          status := Error;
          errorCode := ERR_FLASH_WRITE;
          return FAIL5;
        }
        CrcExtends(cells[..offset], block);
        assert cells[..offset + chunk] == cells[..offset] + block;
        crc := Update(crc, block);
        offset := offset + chunk;
        remaining := remaining - chunk;
      }
      calculatedCrc := crc;
      if crc == firmwareCrc {
        reply := [0x00] + Le32(calculatedCrc);
      } else {
        errorCode := ERR_CRC_MISMATCH;
        reply := [0x01] + Le32(calculatedCrc);
      }
    }

    /** The delay before the reboot is not observable here; sys_reboot does not return. */
    method ResetRun() returns (reply: seq<byte>)
      modifies this`rebooted
      ensures Turn(Abs(), reply) == DeviceModel.ResetRun(old(Abs()))
    {
      if status != Complete {
        return FAIL1;
      }
      rebooted := true;
      reply := [0x00];
    }

    method CancelUpgrade() returns (reply: seq<byte>)
      modifies this`status, this`errorCode, this`receivedSize, this`currentOffset, this`inProgress, this`calculatedCrc
      ensures Turn(Abs(), reply) == DeviceModel.CancelUpgrade(old(Abs()))
    {
      status := Idle;
      errorCode := ERR_NONE;
      receivedSize := 0;
      currentOffset := 0;
      inProgress := false;
      calculatedCrc := 0;
      reply := [0x00];
    }

    method SetBootFlag(data: seq<byte>) returns (reply: seq<byte>)
      modifies this`bootFlag
      ensures Turn(Abs(), reply) == DeviceModel.SetBootFlag(old(Abs()), data)
    {
      if |data| < 1 {
        return FAIL1;
      }
      var flag := data[0];
      if flag == 0x01 && status == Complete {
        bootFlag := 1;
        reply := [0x00];
      } else if flag == 0x00 {
        bootFlag := 0;
        reply := [0x00];
      } else {
        reply := FAIL1;
      }
    }

    method Handshake() returns (reply: seq<byte>)
      ensures Turn(Abs(), reply) == DeviceModel.Handshake(Abs())
    {
      reply := [StatusCode(status), 0, 1];
    }

    method GetDeviceInfo() returns (reply: seq<byte>)
      ensures Turn(Abs(), reply) == DeviceInfo(Abs())
    {
      reply := [0x53, 0x54, 0x4D, 0x33, 0x32, 0x48, 0x37, 0x34, 0x33, 0, 0, 0, 0, 0, 0, 0];
      reply := reply + Le32(0x0100_0000);
      reply := reply + Le32(0x20_0000);
      reply := reply + Le16(4096);
      reply := reply + Le32(0x2_0000);
      reply := reply + Le32(slot0Offset);
    }

    method QueryStatus() returns (reply: seq<byte>)
      ensures Turn(Abs(), reply) == DeviceModel.QueryStatus(Abs())
    {
      reply := [StatusCode(status)] + Le32(receivedSize) + Le32(firmwareSize) + [errorCode, 0, 0, 0, 0];
    }

    /** Finds the handler for a command and runs it. */
    method Handle(command: u16, data: seq<byte>, env: Env) returns (reply: seq<byte>)
      modifies this`status, this`errorCode, this`receivedSize, this`firmwareSize, this`firmwareCrc, this`calculatedCrc,
               this`currentOffset, this`bootFlag, this`inProgress, this`rebooted, slot1.cells
      ensures Turn(Abs(), reply) == DeviceModel.Handle(old(Abs()), command, data, env)
    {
      hide DeviceModel.StartUpgrade, DeviceModel.TransferData, DeviceModel.TransferDone, DeviceModel.VerifyFirmware;
      hide DeviceModel.ResetRun, DeviceModel.CancelUpgrade, DeviceModel.SetBootFlag;
      hide DeviceModel.Handshake, DeviceInfo, DeviceModel.QueryStatus;
      if command == CMD_HANDSHAKE {
        reply := Handshake();
      } else if command == CMD_GET_DEVICE_INFO {
        reply := GetDeviceInfo();
      } else if command == CMD_START_UPGRADE {
        reply := StartUpgrade(data, env);
      } else if command == CMD_TRANSFER_DATA {
        reply := TransferData(data, env);
      } else if command == CMD_TRANSFER_COMPLETE {
        reply := TransferDone(data, env);
      } else if command == CMD_VERIFY_FIRMWARE {
        reply := VerifyFirmware(env);
      } else if command == CMD_RESET_RUN {
        reply := ResetRun();
      } else if command == CMD_CANCEL_UPGRADE {
        reply := CancelUpgrade();
      } else if command == CMD_QUERY_STATUS {
        reply := QueryStatus();
      } else if command == CMD_SET_BOOT_FLAG {
        reply := SetBootFlag(data);
      } else {
        reply := FAIL4;
      }
    }

    /** ota_frame_process: address filter, command table, reply. */
    method ProcessFrame(f: WireFrame, env: Env) returns (reply: Option<Frame>)
      requires Valid()
      modifies this, slot1.cells
      ensures Valid()
      ensures Response(Abs(), reply) == Dispatch(old(Abs()), f, env)
      ensures requests == old(requests) + [Request(f, env)]
      ensures trace == old(trace) + [Exchange(f.command, f.data, reply)]
    {
      hide DeviceModel.Handle;
      if rebooted || !Addressed(f) {
        reply := None;
      } else {
        var data := Handle(f.command, f.data, env);
        reply := Some(ReplyFrame(f.seqNo, f.command, data));
      }
      requests := requests + [Request(f, env)];
      trace := trace + [Exchange(f.command, f.data, reply)];
      assert requests[..|requests| - 1] == old(requests);
    }
  }
}
