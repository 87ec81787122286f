/**
  Runs in which nothing interferes but the link and the user: no foreign frame, no flash fault. Which
  losses the engine's retries repair, which end the upgrade, and where a cancel stops it.
 */
module Recovery {
  import opened Bytes
  import opened Crc
  import opened Frames
  import opened Commands
  import opened Firmware
  import opened FlashArea
  import opened DeviceModel
  import opened DeviceInvariant
  import opened ImageRuns
  import opened EngineModel

  predicate Quiet(tick: Tick) {
    tick.foreign == [] && !tick.env.fault
  }

  ghost predicate Steady(tape: Tape) {
    forall i: nat :: Quiet(tape(i))
  }

  lemma SteadyIsUndisturbed(tape: Tape)
    requires Steady(tape)
    ensures SingleEngine(tape) && NobodyElseActivates(tape)
  {
  }

  predicate Through(tick: Tick) {
    tick.arrives && tick.answers
  }

  /** Nothing is lost or cancelled either. */
  ghost predicate Faultless(tape: Tape) {
    forall i: nat :: Quiet(tape(i)) && Through(tape(i)) && !tape(i).cancelled
  }

  /** A send from time `t` on is answered within `n` attempts, and before the cancel flag is seen. */
  predicate Gets(tape: Tape, t: nat, n: nat)
    decreases n
  {
    n > 0 && !tape(t).cancelled && (Through(tape(t)) || Gets(tape, t + 1, n - 1))
  }

  /** How often the device receives that request: once for the answered attempt and once for every lost reply. */
  function Receipts(tape: Tape, t: nat, n: nat): nat
    decreases n
  {
    if n == 0 || tape(t).cancelled then 0
    else if Through(tape(t)) then 1
    else (if tape(t).arrives then 1 else 0) + Receipts(tape, t + 1, n - 1)
  }

  /** When that send is over. */
  function After(tape: Tape, t: nat, n: nat): nat
    decreases n
  {
    if n == 0 then t
    else if tape(t).cancelled || Through(tape(t)) then t + 1
    else After(tape, t + 1, n - 1)
  }

  /** The send is answered, and the cancel flag is still clear when it is read afterwards. */
  predicate Clear(tape: Tape, t: nat, n: nat) {
    Gets(tape, t, n) && !tape(After(tape, t, n)).cancelled
  }

  /** And the device has received it exactly once. */
  predicate ClearOnce(tape: Tape, t: nat, n: nat) {
    Clear(tape, t, n) && Receipts(tape, t, n) == 1
  }

  /** The attempt at time `m` is the first since `t` to reach the device, with the cancel flag clear until then. */
  predicate FirstArrival(tape: Tape, t: nat, m: nat) {
    && t <= m && tape(m).arrives && !tape(m).cancelled
    && forall j: nat :: t <= j < m ==> !tape(j).arrives && !tape(j).cancelled
  }

  /**
    A send is answered after a single receipt if and only if the first request to reach the device, within
    the attempts, has its reply come back.
   */
  lemma {:induction false} AnsweredOnceIff(tape: Tape, t: nat, n: nat)
    ensures Gets(tape, t, n) && Receipts(tape, t, n) == 1 <==>
            exists m: nat :: m < t + n && FirstArrival(tape, t, m) && tape(m).answers
    decreases n
  {
    if n > 0 && !tape(t).cancelled {
      if tape(t).arrives {
        if tape(t).answers {
          assert FirstArrival(tape, t, t);
        } else {
          AnsweredSeen(tape, t + 1, n - 1);
        }
      } else {
        AnsweredOnceIff(tape, t + 1, n - 1);
        forall m: nat ensures FirstArrival(tape, t, m) <==> FirstArrival(tape, t + 1, m) {
        }
      }
    }
  }

  lemma {:induction false} AnsweredSeen(tape: Tape, t: nat, n: nat)
    ensures Gets(tape, t, n) ==> Receipts(tape, t, n) >= 1
    decreases n
  {
    if n > 0 {
      AnsweredSeen(tape, t + 1, n - 1);
    }
  }

  // ---------------------------------------------------------------- the fate of a run

  datatype UpgradeStage =
    | Handshaking
    | GettingDeviceInfo
    | ErasingSlot
    | Transferring
    | Completing
    | VerifyingImage
    | SettingBootFlag
    | Resetting
    | Finished
    | Cancelled

  /** The engine got past its verification step. */
  predicate PastVerification(stage: UpgradeStage) {
    stage == SettingBootFlag || stage == Resetting || stage == Finished
  }

  datatype Step = Go | Stop(stage: UpgradeStage)

  // When the script sends what: each step starts one look at the cancel flag after the one before it.
  function InfoTime(tape: Tape, n: nat): nat { After(tape, 0, n) + 1 }
  function StartTime(tape: Tape, n: nat): nat { After(tape, InfoTime(tape, n), n) + 1 }
  function DataTime(tape: Tape, n: nat): nat { After(tape, StartTime(tape, n), n) + 1 }
  function DoneTime(tape: Tape, n: nat, k: nat): nat { PacketsEnd(tape, DataTime(tape, n), n, k) + 1 }
  function VerifyTime(tape: Tape, n: nat, k: nat): nat { After(tape, DoneTime(tape, n, k), n) + 1 }
  function BootTime(tape: Tape, n: nat, k: nat): nat { After(tape, VerifyTime(tape, n, k), n) + 1 }
  function ResetTime(tape: Tape, n: nat, k: nat): nat { After(tape, BootTime(tape, n, k), n) + 1 }

  /** How the sending of `k` packets from time `t` on ends: the flag is read before each and after the last. */
  function PacketsStep(tape: Tape, t: nat, n: nat, k: nat): Step
    decreases k
  {
    if k == 0 then if tape(t).cancelled then Stop(Transferring) else Go
    else if tape(t).cancelled then Stop(Cancelled)
    else if !Gets(tape, t + 1, n) then Stop(Transferring)
    else PacketsStep(tape, After(tape, t + 1, n), n, k - 1)
  }

  function PacketsEnd(tape: Tape, t: nat, n: nat, k: nat): nat
    decreases k
  {
    if k == 0 then t else PacketsEnd(tape, After(tape, t + 1, n), n, k - 1)
  }

  /** How many of `k` packets the device sees before the first it does not see exactly once. */
  function CleanPackets(tape: Tape, t: nat, n: nat, k: nat): (c: nat)
    ensures c <= k
    decreases k
  {
    if k == 0 || Receipts(tape, t + 1, n) != 1 then 0
    else 1 + CleanPackets(tape, After(tape, t + 1, n), n, k - 1)
  }

  /** Where the script stops when it sends `k` packets, with `n` attempts for every frame. */
  function Fate(tape: Tape, n: nat, k: nat): UpgradeStage {
    if !Clear(tape, 0, n) then Handshaking
    else if !Clear(tape, InfoTime(tape, n), n) then GettingDeviceInfo
    else if !ClearOnce(tape, StartTime(tape, n), n) then ErasingSlot
    else
      match PacketsStep(tape, DataTime(tape, n), n, k)
      case Stop(stage) => stage
      case Go => Ending(tape, n, k)
  }

  function Ending(tape: Tape, n: nat, k: nat): UpgradeStage {
    if !Clear(tape, DoneTime(tape, n, k), n) then Completing
    else if CleanPackets(tape, DataTime(tape, n), n, k) + 1 < k then VerifyingImage
    else if !ClearOnce(tape, VerifyTime(tape, n, k), n) then VerifyingImage
    else if !Clear(tape, BootTime(tape, n, k), n) then SettingBootFlag
    else if !Gets(tape, ResetTime(tape, n, k), n) then Resetting
    else Finished
  }

  predicate ArrivesWithin(tape: Tape, t: nat, n: nat) {
    exists m: nat :: t <= m < t + n && tape(m).arrives
  }

  /**
    Lost requests are always repaired: if only requests get lost, never all attempts of a send, and nobody
    cancels, the script finishes, and every packet is seen exactly once.
   */
  lemma {:induction false} LostRequestsAreRepaired(tape: Tape, n: nat, k: nat)
    requires forall i: nat :: !tape(i).cancelled && (tape(i).arrives ==> tape(i).answers)
    requires forall t: nat :: ArrivesWithin(tape, t, n)
    ensures Fate(tape, n, k) == Finished
    ensures CleanPackets(tape, DataTime(tape, n), n, k) == k
  {
    hide CleanPackets, PacketsStep, PacketsEnd, After, Receipts, Gets;
    forall t: nat ensures ClearOnce(tape, t, n) && Clear(tape, t, n) && Gets(tape, t, n) {
      assert ArrivesWithin(tape, t, n);
      var m: nat :| t <= m < t + n && tape(m).arrives;
      ArrivesOnce(tape, t, n, m);
    }
    PacketsRepaired(tape, DataTime(tape, n), n, k);
  }

  lemma {:induction false} ArrivesOnce(tape: Tape, t: nat, n: nat, m: nat)
    requires forall i: nat :: !tape(i).cancelled && (tape(i).arrives ==> tape(i).answers)
    requires t <= m < t + n && tape(m).arrives
    ensures ClearOnce(tape, t, n)
    decreases n
  {
    if !tape(t).arrives {
      ArrivesOnce(tape, t + 1, n - 1, m);
    }
  }

  lemma {:induction false} PacketsRepaired(tape: Tape, t: nat, n: nat, k: nat)
    requires forall i: nat :: ClearOnce(tape, i, n) && !tape(i).cancelled
    ensures PacketsStep(tape, t, n, k) == Go && CleanPackets(tape, t, n, k) == k
    decreases k
  {
    if k > 0 {
      assert ClearOnce(tape, t + 1, n);
      PacketsRepaired(tape, After(tape, t + 1, n), n, k - 1);
    }
  }

  /** When the script sends packet `i`, right after reading the cancel flag. */
  function PacketTime(tape: Tape, t: nat, n: nat, i: nat): nat { PacketsEnd(tape, t, n, i) + 1 }

  /** The cancel flag is clear when it is read before packet `i`, or after the last one. */
  predicate FlagClear(tape: Tape, t: nat, n: nat, i: nat) {
    !tape(PacketsEnd(tape, t, n, i)).cancelled
  }

  lemma {:induction false} EachPacket(tape: Tape, t: nat, n: nat, k: nat)
    ensures PacketsStep(tape, t, n, k) == Go <==>
            && (forall i: nat :: i < k ==> Gets(tape, PacketTime(tape, t, n, i), n))
            && (forall i: nat :: i <= k ==> FlagClear(tape, t, n, i))
    ensures CleanPackets(tape, t, n, k) + 1 >= k <==>
            forall i: nat :: i + 1 < k ==> Receipts(tape, PacketTime(tape, t, n, i), n) == 1
    decreases k
  {
    hide Gets, Receipts, After;
    assert FlagClear(tape, t, n, 0) == !tape(t).cancelled;
    if k > 0 {
      var u := After(tape, t + 1, n);
      EachPacket(tape, u, n, k - 1);
      assert PacketTime(tape, t, n, 0) == t + 1;
      forall i: nat | i > 0
        ensures PacketTime(tape, t, n, i) == PacketTime(tape, u, n, i - 1)
        ensures FlagClear(tape, t, n, i) == FlagClear(tape, u, n, i - 1)
      {
      }
      forall i: nat
        ensures PacketTime(tape, u, n, i) == PacketTime(tape, t, n, i + 1)
        ensures FlagClear(tape, u, n, i) == FlagClear(tape, t, n, i + 1)
      {
      }
      assert (forall i: nat :: i < k ==> Gets(tape, PacketTime(tape, t, n, i), n)) <==>
             Gets(tape, t + 1, n) && forall i: nat :: i < k - 1 ==> Gets(tape, PacketTime(tape, u, n, i), n);
      assert (forall i: nat :: i <= k ==> FlagClear(tape, t, n, i)) <==>
             !tape(t).cancelled && forall i: nat :: i <= k - 1 ==> FlagClear(tape, u, n, i);
    }
  }

  // ---------------------------------------------------------------- the device on such a run

  /** An idle or complete device with room for the image. */
  predicate Startable(s: State, image: seq<byte>) {
    Inv(s) && !s.rebooted && (s.status == Idle || s.status == Complete) && |image| <= s.slotSize
  }

  datatype Mode =
    | Fresh
    | Flowing(sent: nat)       // RECEIVING, all that was sent is in place
    | Broken(received: nat)    // a packet came twice: ERROR, with this much in place
    | Checkable                // the whole image is in place and its CRC declared
    | Delivered                // verified

  predicate At(s: State, m: Mode, image: seq<byte>) {
    && !s.rebooted
    && match m
       case Fresh => Startable(s, image)
       case Flowing(sent) =>
         && Inv(s) && Holds(s, image) && s.status == Receiving
         && s.receivedSize == sent <= |image| == s.firmwareSize
       case Broken(received) =>
         && Inv(s) && Holds(s, image) && s.status == Error
         && s.receivedSize == received <= |image| < WRAP
       case Checkable =>
         && Inv(s) && s.status == Complete
         && s.receivedSize == s.firmwareSize == |image| <= |s.slot1|
         && s.firmwareCrc == Crc32(image) && s.slot1[..|image|] == image
       case Delivered => s.status == Verifying && |image| <= |s.slot1| && s.slot1[..|image|] == image
  }

  const VERSION: seq<byte> := [1, 0, 1, 0]

  function StartFrame(image: seq<byte>): WireFrame {
    StartUpgradeRequest(FwSize(image), Crc32(image), VERSION)
  }

  function DoneFrame(image: seq<byte>): Frame {
    TransferCompleteRequest(Crc32(image), FwSize(image))
  }

  lemma {:induction false} StartReceived(s: State, env: Env, image: seq<byte>)
    requires !env.fault
    requires At(s, Fresh, image) || At(s, Flowing(0), image)
    ensures var r := Dispatch(s, StartFrame(image), env);
            && At(r.state, Flowing(0), image) && r.reply.Some?
            && r.reply.value.data ==
               if At(s, Flowing(0), image) then ERROR_MARKER else [0x00] + Le16(MAX_PACKET_SIZE) + [100]
  {
    hide Crc32, Inv;
    var f := StartFrame(image);
    InvFacts(s);
    PayloadFields(FwSize(image), Crc32(image), VERSION);
    DispatchKeepsInv(s, f, env);
    var t := Dispatch(s, f, env).state;
    assert t.slot1[..0] == image[..0];
  }

  /** In turn, every packet is accepted and the acknowledgement is exactly the number of bytes sent. */
  lemma {:induction false} PacketReceived(s: State, f: WireFrame, env: Env, image: seq<byte>, sent: nat, n: nat)
    requires !env.fault && Addressed(f) && IsPacket(f, image, sent, n)
    requires At(s, Flowing(sent), image)
    ensures var r := Dispatch(s, f, env);
            && At(r.state, Flowing(sent + n), image)
            && r.reply.Some? && r.reply.value.data == [0x00] + Le32(sent + n)
  {
    hide Crc32, Inv, TransferData, Dispatch, FromImage, Holds, ReadLe32;
    InvFacts(s);
    Answers(s, f, env);
    DispatchedTransfer(s, f, env);
    DispatchKeepsInv(s, f, env);
    assert FromImage(f, image) by { PacketIsFromImage(f, image, sent, n); }
    DispatchKeepsPrefix(s, f, env, image);
    TransferAcceptedIff(s, f.data, env);
    AcceptedTransfer(s, f.data, env);
    DispatchActivates(s, f, env);
  }

  lemma Answers(s: State, f: WireFrame, env: Env)
    requires !s.rebooted && Addressed(f)
    ensures Dispatch(s, f, env).reply.Some?
  {
  }

  lemma StaleOffset(s: State, data: seq<byte>, env: Env)
    requires s.inProgress && s.status == Receiving && |data| >= 4 && ReadLe32(data, 0) != s.currentOffset
    ensures TransferData(s, data, env) ==
            Turn(s.(errorCode := ERR_OFFSET_ERROR, status := Error), [0x01, 0xFF, 0xFF, 0xFF, 0xFF])
  {
    hide Update, WriteCells;
  }

  /** The same packet again finds the offset moved on and ends the session; its answer is not the error reply. */
  lemma {:induction false} PacketAgain(s: State, f: WireFrame, env: Env, image: seq<byte>, sent: nat, n: nat)
    requires Addressed(f) && IsPacket(f, image, sent, n)
    requires At(s, Flowing(sent + n), image)
    ensures var r := Dispatch(s, f, env);
            && At(r.state, Broken(sent + n), image)
            && r.reply.Some? && r.reply.value.data != ERROR_MARKER
  {
    hide Crc32, Inv, TransferData, Dispatch, Holds, ReadLe32;
    InvFacts(s);
    Answers(s, f, env);
    DispatchedTransfer(s, f, env);
    DispatchKeepsInv(s, f, env);
    StaleOffset(s, f.data, env);
    var t := Dispatch(s, f, env).state;
    assert Holds(t, image) by { SameHolds(s, t, image); }
  }

  lemma SameHolds(s: State, t: State, image: seq<byte>)
    requires Holds(s, image) && t.slot1 == s.slot1 && t.receivedSize == s.receivedSize
    ensures Holds(t, image)
  {
  }

  lemma {:induction false} BrokenStays(s: State, f: WireFrame, env: Env, image: seq<byte>, received: nat)
    requires At(s, Broken(received), image) && Addressed(f)
    requires
      || f.command == CMD_TRANSFER_DATA
      || (f == DoneFrame(image) && received < |image|)
      || f.command == CMD_VERIFY_FIRMWARE
    ensures var r := Dispatch(s, f, env);
            && At(r.state, Broken(received), image)
            && r.reply.Some? && r.reply.value.data == FAIL5
  {
    hide Crc32, Inv, Update;
    InvFacts(s);
    DispatchKeepsInv(s, f, env);
    if f == DoneFrame(image) {
      DoneFields(image, env);
    }
  }

  lemma DoneFields(image: seq<byte>, env: Env)
    ensures var f := DoneFrame(image);
            var w := Window(f.data, env.stale, 8);
            && f.command == CMD_TRANSFER_COMPLETE
            && ReadLe32(w, 0) == Crc32(image) && ReadLe32(w, 4) == FwSize(image)
            && |f.data| == 8 && ReadLe32(f.data, 4) == FwSize(image)
  {
    hide Crc32;
    var f := DoneFrame(image);
    PayloadFields(Crc32(image), FwSize(image), []);
    assert Le32(Crc32(image)) + Le32(FwSize(image)) + [] == f.data;
    assert Window(f.data, env.stale, 8) == f.data;
  }

  lemma {:induction false} DoneReceived(s: State, env: Env, image: seq<byte>)
    requires At(s, Flowing(|image|), image) || At(s, Broken(|image|), image) || At(s, Checkable, image)
    ensures var r := Dispatch(s, DoneFrame(image), env);
            && At(r.state, Checkable, image)
            && r.reply.Some? && r.reply.value.data == [0x00] + Le32(|image|)
  {
    hide Crc32, Inv;
    InvFacts(s);
    DoneFields(image, env);
    DispatchKeepsInv(s, DoneFrame(image), env);
  }

  lemma {:induction false} VerifyReceived(s: State, env: Env, image: seq<byte>)
    requires !env.fault && (At(s, Checkable, image) || At(s, Delivered, image))
    ensures var r := Dispatch(s, Message(CMD_VERIFY_FIRMWARE, []), env);
            && At(r.state, Delivered, image)
            && r.reply.Some?
            && r.reply.value.data == if s.status == Complete then [0x00] + Le32(Crc32(image)) else FAIL5
  {
    hide Crc32, Inv;
  }

  // ---------------------------------------------------------------- one send

  /** A frame the script sends, and where its first and any further receipt take the device. */
  datatype Shot = Shot(f: WireFrame, from: Mode, once: Mode, more: Mode)

  predicate Probing(f: Frame) {
    f == Message(CMD_HANDSHAKE, []) || f == Message(CMD_GET_DEVICE_INFO, [])
  }

  predicate Activation(f: Frame) {
    f == Message(CMD_SET_BOOT_FLAG, [0x01]) || f == Message(CMD_RESET_RUN, Le16(100))
  }

  predicate Legal(x: Shot, image: seq<byte>) {
    && Addressed(x.f)
    && (|| (Probing(x.f) && x.from == x.once == x.more == Fresh)
        || (x.f == StartFrame(image) && x.from == Fresh && x.once == x.more == Flowing(0))
        || (x.from.Flowing? && x.once.Flowing? && x.once.sent > x.from.sent && x.more == Broken(x.once.sent)
            && IsPacket(x.f, image, x.from.sent, x.once.sent - x.from.sent))
        || (x.f.command == CMD_TRANSFER_DATA && x.from.Broken? && x.from == x.once == x.more)
        || (x.f == DoneFrame(image) && (x.from == Flowing(|image|) || x.from == Broken(|image|))
            && x.once == x.more == Checkable)
        || (x.f == DoneFrame(image) && x.from.Broken? && x.from.received < |image| && x.from == x.once == x.more)
        || (x.f == Message(CMD_VERIFY_FIRMWARE, []) && x.from == Checkable && x.once == x.more == Delivered)
        || (x.f == Message(CMD_VERIFY_FIRMWARE, []) && x.from.Broken? && x.from == x.once == x.more)
        || (Activation(x.f) && x.from == x.once == x.more == Delivered))
  }

  /** Where the device is after `seen` receipts of the frame. */
  predicate AtSeen(s: State, x: Shot, seen: nat, image: seq<byte>) {
    At(s, if seen == 0 then x.from else if seen == 1 then x.once else x.more, image)
  }

  /** What the device answered to the `seen`-th receipt. */
  predicate AnswerIs(x: Shot, seen: nat, data: seq<byte>, image: seq<byte>) {
    if x.f.command == CMD_START_UPGRADE then
      data == if seen == 1 then [0x00] + Le16(MAX_PACKET_SIZE) + [100] else ERROR_MARKER
    else if x.f.command == CMD_VERIFY_FIRMWARE then
      data == if x.from == Checkable && seen == 1 then [0x00] + Le32(Crc32(image)) else FAIL5
    else
      && data != ERROR_MARKER
      && (x.f.command == CMD_TRANSFER_DATA && x.from.Flowing? && seen == 1 ==>
            x.once.Flowing? && x.once.sent < WRAP && data == [0x00] + Le32(x.once.sent))
      && (x.f.command == CMD_GET_DEVICE_INFO ==> |data| >= 34 && ReadLe32(data, 20) == 0x20_0000)
  }

  lemma {:induction false} ProbeReceived(s: State, f: WireFrame, env: Env)
    requires !s.rebooted && Probing(f)
    ensures var r := Dispatch(s, f, env);
            && r.state == s && r.reply.Some? && r.reply.value.data != ERROR_MARKER
            && (f.command == CMD_GET_DEVICE_INFO ==>
                  |r.reply.value.data| >= 34 && ReadLe32(r.reply.value.data, 20) == 0x20_0000)
  {
  }

  lemma {:induction false} ActivationReceived(s: State, f: WireFrame, env: Env, image: seq<byte>)
    requires At(s, Delivered, image) && Activation(f)
    ensures var r := Dispatch(s, f, env);
            r.state == s && r.reply.Some? && r.reply.value.data == FAIL1
  {
  }

  lemma {:induction false} ShotReceived(s: State, x: Shot, seen: nat, env: Env, image: seq<byte>)
    requires Legal(x, image) && AtSeen(s, x, seen, image) && !env.fault
    ensures var r := Dispatch(s, x.f, env);
            && AtSeen(r.state, x, seen + 1, image)
            && r.reply.Some? && AnswerIs(x, seen + 1, r.reply.value.data, image)
  {
    hide Dispatch, IsPacket, Inv, Holds, Crc32;
    var f := x.f;
    LegalEnds(x, image);
    if Probing(f) {
      ProbeReceived(s, f, env);
    } else if Activation(f) {
      ActivationReceived(s, f, env, image);
    } else if x.from == Fresh {
      StartReceived(s, env, image);
      ModesDiffer(s, image);
    } else if x.from.Broken? && x.once.Broken? {
      BrokenStays(s, f, env, image, x.from.received);
    } else if x.from == Checkable {
      VerifyReceived(s, env, image);
    } else if x.once == Checkable {
      DoneReceived(s, env, image);
    } else {
      PacketShot(s, x, seen, env, image);
    }
  }

  lemma LegalEnds(x: Shot, image: seq<byte>)
    requires Legal(x, image)
    ensures Probing(x.f) ==> x.from == x.once == x.more == Fresh
    ensures Activation(x.f) ==> x.from == x.once == x.more == Delivered
  {
    hide Crc32;
  }

  lemma ModesDiffer(s: State, image: seq<byte>)
    ensures !(At(s, Fresh, image) && At(s, Flowing(0), image))
  {
    hide Inv, Holds;
  }

  lemma {:induction false} PacketShot(s: State, x: Shot, seen: nat, env: Env, image: seq<byte>)
    requires AtSeen(s, x, seen, image) && !env.fault && Addressed(x.f)
    requires x.from.Flowing? && x.once.Flowing? && x.once.sent > x.from.sent && x.more == Broken(x.once.sent)
    requires IsPacket(x.f, image, x.from.sent, x.once.sent - x.from.sent)
    ensures var r := Dispatch(s, x.f, env);
            && AtSeen(r.state, x, seen + 1, image)
            && r.reply.Some? && AnswerIs(x, seen + 1, r.reply.value.data, image)
  {
    hide Dispatch, Inv, Holds, Crc32;
    var sent := x.from.sent;
    var n := x.once.sent - sent;
    if seen == 0 {
      PacketReceived(s, x.f, env, image, sent, n);
    } else if seen == 1 {
      PacketAgain(s, x.f, env, image, sent, n);
    } else {
      BrokenStays(s, x.f, env, image, x.once.sent);
    }
  }

  /** A send with its losses and retries, counted in receipts. */
  lemma {:induction false} SendShot(s: State, x: Shot, seen: nat, tape: Tape, t: nat, n: nat, image: seq<byte>)
    requires Steady(tape) && Legal(x, image) && AtSeen(s, x, seen, image)
    ensures var r := Send(s, x.f, tape, t, n);
            var total := seen + Receipts(tape, t, n);
            && AtSeen(r.state, x, total, image)
            && (r.reply.Some? <==> Gets(tape, t, n))
            && (r.reply.Some? ==> AnswerIs(x, total, r.reply.value.data, image))
            && (r.reply.Some? ==> Receipts(tape, t, n) >= 1)
            && r.next == After(tape, t, n)
    decreases n
  {
    hide Dispatch, Legal, AnswerIs, At;
    if n > 0 {
      var tick := tape(t);
      assert Quiet(tick);
      assert Interfere(s, tick.foreign) == s;
      ShotReceived(s, x, seen, tick.env, image);
      var r := Attempt(s, x.f, tick);
      if r.reply.None? {
        SendShot(r.state, x, if tick.arrives then seen + 1 else seen, tape, t + 1, n - 1, image);
      }
    }
  }

  // ---------------------------------------------------------------- a device that will not take the image

  /** Handshake and device information are answered in every status and change nothing. */
  lemma {:induction false} SendProbe(s: State, f: WireFrame, tape: Tape, t: nat, n: nat)
    requires Steady(tape) && Probing(f)
    ensures var r := Send(s, f, tape, t, n);
            && r.state == s
            && (r.reply.Some? <==> !s.rebooted && Gets(tape, t, n))
            && (r.reply.Some? ==>
                  && r.next == After(tape, t, n)
                  && !r.reply.value.IsErrorResponse()
                  && (f.command == CMD_GET_DEVICE_INFO ==>
                        |r.reply.value.data| >= 34 && ReadLe32(r.reply.value.data, 20) == 0x20_0000))
    decreases n
  {
    hide Dispatch;
    if n > 0 {
      assert Quiet(tape(t));
      assert Interfere(s, tape(t).foreign) == s;
      if s.rebooted {
        RebootedIsSilent(s, f, tape(t).env);
      } else {
        ProbeReceived(s, f, tape(t).env);
      }
      SendProbe(s, f, tape, t + 1, n - 1);
    }
  }

  lemma RebootedIsSilent(s: State, f: WireFrame, env: Env)
    requires s.rebooted
    ensures Dispatch(s, f, env) == Response(s, None)
  {
  }

  /** A device that runs, but is in the middle of something or too small for the image. */
  predicate Unwilling(s: State, image: seq<byte>) {
    Inv(s) && !s.rebooted && ((s.status != Idle && s.status != Complete) || s.slotSize < |image|)
  }

  /** Flash, status, boot flag and the device as such are as they were. */
  predicate Untouched(s: State, s0: State) {
    && s.slot1 == s0.slot1 && s.slotSize == s0.slotSize
    && s.status == s0.status && s.bootFlag == s0.bootFlag && s.rebooted == s0.rebooted
  }

  lemma {:induction false} StartTurnedDown(s: State, env: Env, image: seq<byte>)
    requires Unwilling(s, image) && |image| < WRAP
    ensures var r := Dispatch(s, StartFrame(image), env);
            && Unwilling(r.state, image) && Untouched(r.state, s)
            && r.reply.Some? && r.reply.value.IsErrorResponse()
  {
    hide Crc32, Inv;
    PayloadFields(FwSize(image), Crc32(image), VERSION);
    DispatchKeepsInv(s, StartFrame(image), env);
  }

  /** However often it is sent and received, the start is answered with the error reply or not at all. */
  lemma {:induction false} SendTurnedDown(s: State, image: seq<byte>, tape: Tape, t: nat, n: nat)
    requires Steady(tape) && Unwilling(s, image) && |image| < WRAP
    ensures var r := Send(s, StartFrame(image), tape, t, n);
            && Untouched(r.state, s)
            && (r.reply.Some? ==> r.reply.value.IsErrorResponse())
    decreases n
  {
    hide Dispatch, Unwilling, StartFrame;
    if n > 0 {
      assert Quiet(tape(t));
      assert Interfere(s, tape(t).foreign) == s;
      StartTurnedDown(s, tape(t).env, image);
      var r := Attempt(s, StartFrame(image), tape(t));
      if r.reply.None? {
        SendTurnedDown(r.state, image, tape, t + 1, n - 1);
      }
    }
  }

  /** Whatever happens, the only packet size a device ever advertises is 1024. */
  lemma {:induction false} StartReplies(s: State, f: WireFrame, tape: Tape, t: nat, n: nat)
    requires f.command == CMD_START_UPGRADE
    ensures var r := Send(s, f, tape, t, n).reply;
            r.Some? && !r.value.IsErrorResponse() ==>
              r.value.data == [0x00] + Le16(MAX_PACKET_SIZE) + [100]
    decreases n
  {
    hide Dispatch, Interfere;
    if n > 0 {
      StartReplyData(Interfere(s, tape(t).foreign), f, tape(t).env);
      StartReplies(Attempt(s, f, tape(t)).state, f, tape, t + 1, n - 1);
    }
  }

  lemma StartReplyData(s: State, f: WireFrame, env: Env)
    requires f.command == CMD_START_UPGRADE
    ensures var r := Dispatch(s, f, env).reply;
            r.Some? && !r.value.IsErrorResponse() ==>
              r.value.data == [0x00] + Le16(MAX_PACKET_SIZE) + [100]
  {
  }

  /** Where the script stops on a device that will not take the image. */
  function Rejection(s: State, image: seq<byte>, tape: Tape, n: nat): UpgradeStage {
    if s.rebooted || !Clear(tape, 0, n) then Handshaking
    else if |image| > 0x20_0000 || !Clear(tape, InfoTime(tape, n), n) then GettingDeviceInfo
    else ErasingSlot
  }

  /** An idle or complete device, and an image that fits its slot and the flash size it reports. */
  predicate Uploadable(s: State, image: seq<byte>) {
    Startable(s, image) && |image| <= 0x20_0000
  }

  /** Where the script stops, from any state of the device. */
  function ScriptEnd(s: State, image: seq<byte>, tape: Tape, n: nat): UpgradeStage {
    if Uploadable(s, image) then Fate(tape, n, |Split(image, 1024)|) else Rejection(s, image, tape, n)
  }

  /**
    Past the verification, exactly: the device is idle or complete with room for the image, the cancel flag is
    clear whenever it is read, every send up to verify is answered, and start, verify and every packet but
    the last are seen once. Lost replies elsewhere do no harm.
   */
  lemma {:induction false} SurvivesIff(s: State, image: seq<byte>, tape: Tape, n: nat)
    ensures var k := |Split(image, 1024)|;
            var data := DataTime(tape, n);
            PastVerification(ScriptEnd(s, image, tape, n)) <==>
            && Uploadable(s, image)
            && Clear(tape, 0, n) && Clear(tape, InfoTime(tape, n), n)
            && ClearOnce(tape, StartTime(tape, n), n)
            && (forall i: nat :: i <= k ==> FlagClear(tape, data, n, i))
            && (forall i: nat :: i < k ==> Gets(tape, PacketTime(tape, data, n, i), n))
            && (forall i: nat :: i + 1 < k ==> Receipts(tape, PacketTime(tape, data, n, i), n) == 1)
            && Clear(tape, DoneTime(tape, n, k), n)
            && ClearOnce(tape, VerifyTime(tape, n, k), n)
  {
    hide Split, Uploadable, Gets, After, Receipts, CleanPackets, PacketsEnd, Clear, ClearOnce;
    EachPacket(tape, DataTime(tape, n), n, |Split(image, 1024)|);
    PacketsStopEarly(tape, DataTime(tape, n), n, |Split(image, 1024)|);
  }

  lemma {:induction false} PacketsStopEarly(tape: Tape, t: nat, n: nat, k: nat)
    ensures PacketsStep(tape, t, n, k).Stop? ==> !PastVerification(PacketsStep(tape, t, n, k).stage)
    decreases k
  {
    if k > 0 {
      PacketsStopEarly(tape, After(tape, t + 1, n), n, k - 1);
    }
  }
}
