/** Payload builders and reply parsers of the PC. */
module Commands {
  import opened Bytes
  import opened Frames

  const CMD_HANDSHAKE: u16 := 0x0001
  const CMD_GET_DEVICE_INFO: u16 := 0x0002
  const CMD_START_UPGRADE: u16 := 0x0003
  const CMD_TRANSFER_DATA: u16 := 0x0004
  const CMD_TRANSFER_COMPLETE: u16 := 0x0005
  const CMD_VERIFY_FIRMWARE: u16 := 0x0006
  const CMD_RESET_RUN: u16 := 0x0007
  const CMD_CANCEL_UPGRADE: u16 := 0x0008
  const CMD_QUERY_STATUS: u16 := 0x0009
  const CMD_SET_BOOT_FLAG: u16 := 0x000A

  function Message(command: u16, data: seq<byte>): Frame {
    Frame(0, ADDR_PC, ADDR_DEVICE, 1, 0, command, data)
  }

  function StartUpgradeRequest(size: u32, crc: u32, version: seq<byte>): Frame {
    Message(CMD_START_UPGRADE, Le32(size) + Le32(crc) + version)
  }

  function TransferDataRequest(offset: u32, chunk: seq<byte>, packetSeq: u16, totalPackets: u16): Frame {
    Message(CMD_TRANSFER_DATA, Le32(offset) + chunk).(packetSeq := packetSeq, totalPackets := totalPackets)
  }

  function TransferCompleteRequest(crc: u32, size: u32): Frame {
    Message(CMD_TRANSFER_COMPLETE, Le32(crc) + Le32(size))
  }

  method BuildStartUpgrade(size: u32, crc: u32, version: seq<byte>) returns (r: Result<Frame>)
    requires |version| == 4
    ensures r == Ok(StartUpgradeRequest(size, crc, version))
  {
    var data := Le32(size);
    data := data + Le32(crc);
    data := data + version;
    r := NewRequest(CMD_START_UPGRADE, data);
  }

  method BuildTransferData(offset: u32, chunk: seq<byte>, packetSeq: u16, totalPackets: u16) returns (r: Result<Frame>)
    ensures r.Ok? <==> |chunk| <= MAX_DATA - 4
    ensures r.Ok? ==> r.value == TransferDataRequest(offset, chunk, packetSeq, totalPackets)
  {
    var data := Le32(offset);
    data := data + chunk;
    r := NewRequest(CMD_TRANSFER_DATA, data);
    if r.Ok? {
      r := Ok(r.value.(packetSeq := packetSeq, totalPackets := totalPackets));
    }
  }

  method BuildTransferComplete(crc: u32, size: u32) returns (r: Result<Frame>)
    ensures r == Ok(TransferCompleteRequest(crc, size))
  {
    var data := Le32(crc);
    data := data + Le32(size);
    r := NewRequest(CMD_TRANSFER_COMPLETE, data);
  }

  datatype StartReply = StartReply(status: byte, maxPacket: u16, eraseProgress: byte)
  datatype SizedReply = SizedReply(status: byte, value: u32)

  function ParseStartUpgrade(f: Frame): Option<StartReply> {
    if |f.data| >= 4 then Some(StartReply(f.data[0], ReadLe16(f.data, 1), f.data[3])) else None
  }

  /** Shared shape of the transfer, transfer-complete and verify replies. */
  function ParseSized(f: Frame): Option<SizedReply> {
    if |f.data| >= 5 then Some(SizedReply(f.data[0], ReadLe32(f.data, 1))) else None
  }

  function ParseFlashTotal(f: Frame): Option<u32> {
    if |f.data| >= 34 then Some(ReadLe32(f.data, 20)) else None
  }

  /** The fields the device reads back out of the builders' payloads are the ones put in. */
  lemma PayloadFields(a: u32, b: u32, rest: seq<byte>)
    ensures ReadLe32(Le32(a) + rest, 0) == a && (Le32(a) + rest)[4..] == rest
    ensures ReadLe32(Le32(a) + Le32(b) + rest, 0) == a && ReadLe32(Le32(a) + Le32(b) + rest, 4) == b
  {
    Le32At(a, [], rest);
    assert [] + Le32(a) + rest == Le32(a) + rest;
    Le32At(a, [], Le32(b) + rest);
    assert [] + Le32(a) + (Le32(b) + rest) == Le32(a) + Le32(b) + rest;
    Le32At(b, Le32(a), rest);
  }

  /** The value behind the result byte of a five-byte reply. */
  lemma Le32Reply(n: u32)
    ensures ReadLe32([0x00] + Le32(n), 1) == n
  {
    Le32At(n, [0x00], []);
    assert [0x00] + Le32(n) + [] == [0x00] + Le32(n);
  }

  /**
    A transfer frame fits the device's 4096-byte receive buffer if and only if its packet has at most
    4072 bytes: always at the advertised 1024, not at the 4096 the engine would be willing to use.
   */
  lemma TransferFrameFitsIff(offset: u32, chunk: seq<byte>, packetSeq: u16, totalPackets: u16)
    ensures |Serialize(TransferDataRequest(offset, chunk, packetSeq, totalPackets))| <= 4096 <==> |chunk| <= 4072
  {
  }
}
