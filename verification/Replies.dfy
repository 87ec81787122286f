/** What the PC can make of the device's replies. */
module Replies {
  import opened Bytes
  import opened Crc
  import opened Frames
  import opened Commands
  import opened FlashArea
  import opened DeviceModel
  import opened DeviceInvariant

  predicate Known(command: u16) {
    CMD_HANDSHAKE <= command <= CMD_SET_BOOT_FLAG
  }

  /** The commands whose reply begins with a result byte, 0x00 for success. */
  predicate AnswersWithResult(command: u16) {
    CMD_START_UPGRADE <= command <= CMD_SET_BOOT_FLAG && command != CMD_QUERY_STATUS
  }

  /** The guards under which a start request is turned down. */
  predicate StartRefused(s: State, data: seq<byte>, env: Env) {
    || |data| < 12
    || (s.status != Idle && s.status != Complete)
    || ReadLe32(data, 0) > s.slotSize
    || s.slotSize > |s.slot1|
    || env.fault
  }

  lemma {:induction false} StartRefusedIff(s: State, data: seq<byte>, env: Env)
    ensures var reply := StartUpgrade(s, data, env).reply;
            && (StartRefused(s, data, env) ==> reply == ERROR_MARKER)
            && (!StartRefused(s, data, env) ==> |reply| == 4 && reply[0] == 0x00)
  {
  }

  /**
    Cancel brings back every device that still runs: whatever state it was in, the next start is accepted
    if and only if it fits the slot and the erase succeeds. Until then slot1 and the boot flag stay.
   */
  lemma {:induction false} CancelMakesRoom(s: State, cancel: WireFrame, env: Env, start: WireFrame, env': Env)
    requires Inv(s) && !s.rebooted
    requires Addressed(cancel) && cancel.command == CMD_CANCEL_UPGRADE
    requires Addressed(start) && start.command == CMD_START_UPGRADE
    ensures var t := Dispatch(s, cancel, env).state;
            var r := Dispatch(t, start, env');
            && t.slot1 == s.slot1 && t.bootFlag == s.bootFlag
            && r.reply.Some?
            && (r.state.status == Receiving <==>
                  |start.data| >= 12 && ReadLe32(start.data, 0) <= s.slotSize && !env'.fault)
            && (r.state.status == Receiving <==> !r.reply.value.IsErrorResponse())
  {
    hide Crc32, Update;
    assert Sized(s) by { InvFacts(s); }
    StartRefusedIff(Dispatch(s, cancel, env).state, start.data, env');
  }

  /**
    The protocol promises that a failed command is answered with four bytes of 0xFF, which is what the
    engine checks for. That check sees a refusal if and only if the command is one the device does not
    know or a start that a guard turns down: the one- and five-byte refusals of all others pass it.
   */
  lemma {:induction false} ErrorReplyRecognisedIff(s: State, f: WireFrame, env: Env)
    requires Dispatch(s, f, env).reply.Some?
    ensures var reply := Dispatch(s, f, env).reply.value;
            && reply.data != []
            && (reply.IsErrorResponse() <==>
                  !Known(f.command) || (f.command == CMD_START_UPGRADE && StartRefused(s, f.data, env)))
            && (AnswersWithResult(f.command) && reply.data[0] != 0x00 && f.command != CMD_START_UPGRADE ==>
                  |reply.data| == 1 || |reply.data| == 5)
  {
    hide Crc32, Update, StartUpgrade, StartRefused;
    StartRefusedIff(s, f.data, env);
  }

  datatype UpgradeStatus = UpgradeStatus(stage: byte, received: u32, total: u32, errorCode: byte)

  /** parse_query_status. */
  function ParseQueryStatus(f: Frame): Option<UpgradeStatus> {
    if |f.data| >= 10 then Some(UpgradeStatus(f.data[0], ReadLe32(f.data, 1), ReadLe32(f.data, 5), f.data[9]))
    else None
  }

  /** The PC reads out of a status reply exactly what the device knows, and asking changes nothing. */
  lemma {:induction false} StatusReportExact(s: State, f: WireFrame, env: Env)
    requires !s.rebooted && Addressed(f) && f.command == CMD_QUERY_STATUS
    ensures var r := Dispatch(s, f, env);
            && r.state == s && r.reply.Some?
            && ParseQueryStatus(r.reply.value)
               == Some(UpgradeStatus(StatusCode(s.status), s.receivedSize, s.firmwareSize, s.errorCode))
  {
    var d := QueryStatus(s).reply;
    var zeros := [s.errorCode, 0, 0, 0, 0];
    Le32At(s.receivedSize, [StatusCode(s.status)], Le32(s.firmwareSize) + zeros);
    assert d == [StatusCode(s.status)] + Le32(s.receivedSize) + (Le32(s.firmwareSize) + zeros);
    Le32At(s.firmwareSize, [StatusCode(s.status)] + Le32(s.receivedSize), zeros);
    assert d == ([StatusCode(s.status)] + Le32(s.receivedSize)) + Le32(s.firmwareSize) + zeros;
  }

  /** What the PC's status display makes of the stage byte. */
  function StageNamed(stage: byte): Status {
    match stage
    case 0 => Idle
    case 1 => Erasing
    case 2 => Receiving
    case 3 => Verifying
    case 4 => Complete
    case _ => Error
  }

  /** Every status is displayed as what it is. */
  lemma StageReadsBack(s: Status)
    ensures StageNamed(StatusCode(s)) == s
  {
  }

  /** A device that has just started reports nothing in progress. */
  lemma FreshReport(slot0Offset: u32, slot1: seq<byte>, f: WireFrame, env: Env)
    requires |slot1| < WRAP && Addressed(f) && f.command == CMD_QUERY_STATUS
    ensures var r := Dispatch(Initial(slot0Offset, slot1), f, env).reply;
            r.Some? && ParseQueryStatus(r.value) == Some(UpgradeStatus(0, 0, 0, 0))
  {
    StatusReportExact(Initial(slot0Offset, slot1), f, env);
  }

  /** parse_device_info, with the model and version bytes as they stand. */
  datatype DeviceInfoReport = DeviceInfoReport(
    model: seq<byte>,
    version: seq<byte>,
    flashTotal: u32,
    pageSize: u16,
    usedSize: u32,
    startAddress: u32)

  function ParseDeviceInfo(f: Frame): Option<DeviceInfoReport> {
    var d := f.data;
    if |d| < 34 then None
    else
      Some(DeviceInfoReport(d[..16], d[16..19], ReadLe32(d, 20), ReadLe16(d, 24), ReadLe32(d, 26), ReadLe32(d, 30)))
  }

  /** All but the start address. */
  function FixedDeviceInfo(): (d: seq<byte>)
    ensures |d| == 30
  {
    [0x53, 0x54, 0x4D, 0x33, 0x32, 0x48, 0x37, 0x34, 0x33, 0, 0, 0, 0, 0, 0, 0]
    + Le32(0x0100_0000) + Le32(0x20_0000) + Le16(4096) + Le32(0x2_0000)
  }

  lemma FixedInfo()
    ensures var d := FixedDeviceInfo();
            && d[16..19] == [0, 0, 0] && ReadLe32(d, 20) == 0x20_0000
            && ReadLe16(d, 24) == 4096 && ReadLe32(d, 26) == 0x2_0000
  {
  }

  /** The version the PC displays is 0.0.0: the device stores its 1 in the one byte the PC does not show. */
  lemma {:induction false} DeviceInfoRead(s: State, f: WireFrame, env: Env)
    requires !s.rebooted && Addressed(f) && f.command == CMD_GET_DEVICE_INFO
    ensures var r := Dispatch(s, f, env);
            && r.state == s && r.reply.Some?
            && var info := ParseDeviceInfo(r.reply.value);
               && info.Some?
               && |info.value.model| == 16
               && info.value.model[..9] == [0x53, 0x54, 0x4D, 0x33, 0x32, 0x48, 0x37, 0x34, 0x33]
               && info.value.version == [0, 0, 0]
               && info.value.flashTotal == 2 * 1024 * 1024
               && info.value.pageSize == 4096
               && info.value.usedSize == 0x2_0000
               && info.value.startAddress == s.slot0Offset
  {
    var d := DeviceInfo(s).reply;
    FixedInfo();
    var fixed := FixedDeviceInfo();
    assert d == fixed + Le32(s.slot0Offset) + [];
    Le32At(s.slot0Offset, fixed, []);
    assert forall i | 0 <= i < 30 :: d[i] == fixed[i];
  }

  /** The handshake answers the status and the protocol version 1.0, minor byte first. */
  lemma {:induction false} HandshakeRead(s: State, f: WireFrame, env: Env)
    requires !s.rebooted && Addressed(f) && f.command == CMD_HANDSHAKE
    ensures var r := Dispatch(s, f, env);
            && r.state == s && r.reply.Some?
            && r.reply.value.data == [StatusCode(s.status), 0, 1]
  {
  }

  /**
    The bytes the device transmits for a reply: a prefix of a structure whose reserved and tail fields
    sit behind the full 65535-byte data area, so the last four bytes sent are whatever `left` in the
    data area follows the reply data.
   */
  function Transmitted(f: WireFrame, left: seq<byte>): seq<byte>
    requires |left| == 4
  {
    Prefix(f, |f.data|) + f.data + left
  }

  /** The PC accepts the transmitted bytes if and only if the leftovers happen to end in the frame tail. */
  lemma {:induction false} ReplyReadableIff(f: WireFrame, left: seq<byte>, rest: seq<byte>)
    requires |left| == 4 && |f.data| <= MAX_DATA - 4
    ensures Deserialize(Transmitted(f, left) + rest) ==
              if left[2..] == TAIL then Ok(Parsed(f, MIN_FRAME_SIZE + |f.data|)) else Err(InvalidTail(left[2..]))
  {
    var s := Transmitted(f, left) + rest;
    var t := Serialize(f) + rest;
    var n := MIN_FRAME_SIZE + |f.data|;
    FieldsOfSerialized(f, rest);
    assert s[..n - 4] == t[..n - 4];
    assert forall i | 0 <= i < 16 :: s[i] == s[..n - 4][i] && t[i] == t[..n - 4][i];
    assert s[16..n - 4] == f.data;
    assert s[n - 2..n] == left[2..];
  }
}
