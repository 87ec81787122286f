/** The PC's upgrade engine, driving a device through its receive buffer, byte for byte. */
module Engine {
  import opened Bytes
  import opened Crc
  import opened Frames
  import opened Commands
  import opened Firmware
  import opened FlashArea
  import opened DeviceModel
  import opened DeviceInvariant
  import opened RxModel
  import opened Receiver
  import opened EngineModel
  import opened Recovery
  import opened Script

  lemma {:induction false} OneFrameDrains(f: FittingFrame)
    ensures Drain(Serialize(f)) == Drained([AsReceived(f)], [], false)
  {
    hide Serialize, Parse;
    var s := Serialize(f);
    DeviceUnderstands(f, []);
    assert s + [] == s;
    NothingIsIncomplete();
    assert s[|s|..] == [];
  }

  lemma {:induction false} OneFrameDispatches(s: State, f: WireFrame, env: Env)
    ensures var r := Dispatch(s, f, env);
            DispatchAll(s, [AsReceived(f)], [env], 0) == Batch(r.state, [r.reply])
  {
    hide Dispatch;
  }

  /**
    A request goes over the wire as bytes, in UART blocks with a processing pass after each: the device
    acts once, when the last block completes the frame.
   */
  method Deliver(rx: OtaReceiver, f: FittingFrame, env: Env, blocks: seq<nat>) returns (reply: Option<Frame>)
    requires rx.Valid() && rx.Contents() == []
    modifies rx, rx.rxBuf, rx.device, rx.device.slot1.cells
    ensures rx.Valid() && rx.Contents() == []
    ensures Response(rx.device.Abs(), reply) == Dispatch(old(rx.device.Abs()), f, env)
  {
    hide Serialize, Drain, DispatchAll, Dispatch;
    var bytes := ToBytes(f);
    var pos := DeliverFront(rx, f, bytes, env, blocks);
    rx.Arrive(bytes[pos..]);
    assert bytes[..pos] + bytes[pos..] == bytes;
    assert rx.Contents() == bytes;
    OneFrameDrains(f);
    OneFrameDispatches(rx.device.Abs(), f, env);
    var replies, _ := rx.ProcessRx([env]);
    reply := replies[0];
  }

  /** All blocks but the last: an incomplete frame waits in the buffer. */
  method DeliverFront(rx: OtaReceiver, f: FittingFrame, bytes: seq<byte>, env: Env, blocks: seq<nat>)
    returns (pos: nat)
    requires rx.Valid() && rx.Contents() == []
    requires bytes == Serialize(f)
    modifies rx, rx.rxBuf, rx.device, rx.device.slot1.cells
    ensures rx.Valid() && pos < |bytes| && rx.Contents() == bytes[..pos]
    ensures rx.device.Abs() == old(rx.device.Abs())
  {
    hide Serialize, Drain, DispatchAll, Dispatch;
    FrameLength(f);
    pos := 0;
    for i := 0 to |blocks|
      invariant rx.Valid() && pos < |bytes| && rx.Contents() == bytes[..pos]
      invariant rx.device.Abs() == old(rx.device.Abs())
    {
      var n := Min(blocks[i], |bytes| - 1 - pos);
      rx.Arrive(bytes[pos..pos + n]);
      assert bytes[..pos] + bytes[pos..pos + n] == bytes[..pos + n];
      pos := pos + n;
      PartialDrains(f, pos);
      EmptyBatch(rx.device.Abs(), env);
      var _, _ := rx.ProcessRx([env]);
    }
  }

  lemma PartialDrains(f: FittingFrame, n: nat)
    requires n < |Serialize(f)|
    ensures Drain(Serialize(f)[..n]) == Drained([], Serialize(f)[..n], false)
  {
    hide Serialize, Parse;
    PartialIsIncomplete(f, n);
  }

  lemma EmptyBatch(s: State, env: Env)
    ensures DispatchAll(s, [], [env], 0) == Batch(s, [])
  {
  }

  /** One attempt: whatever else reaches the device first, then the request, then perhaps the reply. */
  method SendAndRecv(rx: OtaReceiver, f: FittingFrame, tick: Tick) returns (reply: Option<Frame>)
    requires rx.Valid() && rx.Contents() == []
    modifies rx, rx.rxBuf, rx.device, rx.device.slot1.cells
    ensures rx.Valid() && rx.Contents() == []
    ensures Response(rx.device.Abs(), reply) == Attempt(old(rx.device.Abs()), f, tick)
  {
    hide Dispatch;
    ghost var s0 := rx.device.Abs();
    for i := 0 to |tick.foreign|
      invariant rx.Valid() && rx.Contents() == []
      invariant Interfere(s0, tick.foreign) == Interfere(rx.device.Abs(), tick.foreign[i..])
    {
      assert tick.foreign[i..][1..] == tick.foreign[i + 1..];
      var _ := Deliver(rx, tick.foreign[i].frame, tick.foreign[i].env, tick.foreign[i].blocks);
    }
    reply := None;
    if tick.arrives {
      var r := Deliver(rx, f, tick.env, tick.blocks);
      if tick.answers {
        reply := r;
      }
    }
  }

  /** Sends with retries; no reply means cancelled or given up. */
  method SendFrame(rx: OtaReceiver, f: FittingFrame, tape: Tape, t: nat, maxRetries: nat)
    returns (reply: Option<Frame>, next: nat)
    requires rx.Valid() && rx.Contents() == [] && maxRetries >= 1
    modifies rx, rx.rxBuf, rx.device, rx.device.slot1.cells
    ensures rx.Valid() && rx.Contents() == []
    ensures Sent(rx.device.Abs(), reply, next) == Send(old(rx.device.Abs()), f, tape, t, maxRetries)
  {
    hide Attempt;
    next := t;
    ghost var total := Send(rx.device.Abs(), f, tape, t, maxRetries);
    for attempt := 1 to maxRetries + 1
      invariant rx.Valid() && rx.Contents() == []
      invariant total == Send(rx.device.Abs(), f, tape, next, maxRetries + 1 - attempt)
    {
      if tape(next).cancelled {
        return None, next + 1;
      }
      var r := SendAndRecv(rx, f, tape(next));
      next := next + 1;
      if r.Some? {
        return r, next;
      }
    }
    reply := None;
  }

  /** A request without data that changes nothing: sent, checked for the error reply, then the cancel flag. */
  method Probe(rx: OtaReceiver, command: u16, image: seq<byte>, tape: Tape, t: nat, maxRetries: nat, ghost s0: State,
               ghost frames: seq<Frame>, ghost which: nat)
    returns (resp: Option<Frame>, next: nat)
    requires rx.Valid() && rx.Contents() == [] && maxRetries >= 1
    requires command == CMD_HANDSHAKE || command == CMD_GET_DEVICE_INFO
    requires Progress(rx.device.Abs(), s0, Before, image, tape)
    requires which < |frames| && frames[which] == Message(command, [])
    requires Story(rx.device.Abs(), s0, frames, which, which, tape, t)
    modifies rx, rx.rxBuf, rx.device, rx.device.slot1.cells
    ensures rx.Valid() && rx.Contents() == []
    ensures Progress(rx.device.Abs(), s0, Before, image, tape)
    ensures Story(rx.device.Abs(), s0, frames, 0, which + 1, tape, next + 1)
    ensures resp.Some? ==> Story(rx.device.Abs(), s0, frames, which + 1, which + 1, tape, next + 1)
    ensures Steady(tape) ==>
              && rx.device.Abs() == old(rx.device.Abs())
              && (resp.Some? <==> !old(rx.device.Abs()).rebooted && Gets(tape, t, maxRetries))
              && (resp.Some? ==> next == After(tape, t, maxRetries))
              && (resp.Some? && command == CMD_GET_DEVICE_INFO ==> ParseFlashTotal(resp.value) == Some(0x20_0000))
  {
    hide Send, Dispatch, Serialize, Moves, In, Progress, After, Gets, Steady, Story;
    var f := Message(command, []);
    ProbeMoves(f, image);
    ghost var s := rx.device.Abs();
    SendStory(s, s0, f, which, frames, tape, t, maxRetries);
    ghost var _, _ := SendProgress(s, s0, f, tape, t, maxRetries, Before, Before, image);
    if Steady(tape) {
      SendProbe(s, f, tape, t, maxRetries);
    }
    FrameLength(f);
    resp, next := SendFrame(rx, f, tape, t, maxRetries);
    if resp.Some? && resp.value.IsErrorResponse() {
      resp := None;
    }
  }

  /** Steps 1 and 2: handshake and device information. */
  method Introduce(rx: OtaReceiver, image: seq<byte>, tape: Tape, t: nat, maxRetries: nat, ghost s0: State,
                   ghost frames: seq<Frame>)
    returns (step: Step, next: nat)
    requires rx.Valid() && rx.Contents() == [] && maxRetries >= 1
    requires Progress(rx.device.Abs(), s0, Before, image, tape)
    requires |frames| >= 2
    requires frames[0] == Message(CMD_HANDSHAKE, []) && frames[1] == Message(CMD_GET_DEVICE_INFO, [])
    requires Story(rx.device.Abs(), s0, frames, 0, 0, tape, t)
    modifies rx, rx.rxBuf, rx.device, rx.device.slot1.cells
    ensures rx.Valid() && rx.Contents() == []
    ensures step.Stop? ==> step.stage == Handshaking || step.stage == GettingDeviceInfo
    ensures step.Stop? ==> Story(rx.device.Abs(), s0, frames, 0, Limit(step.stage, 0), tape, next)
    ensures step == Go ==> Story(rx.device.Abs(), s0, frames, 2, 2, tape, next)
    ensures Progress(rx.device.Abs(), s0, Before, image, tape)
    ensures Steady(tape) ==>
              && rx.device.Abs() == old(rx.device.Abs())
              && Introduced(rx.device.Abs(), image, step, tape, t, next, maxRetries)
  {
    hide Progress, After, Gets, Story;
    var resp;
    resp, next := Probe(rx, CMD_HANDSHAKE, image, tape, t, maxRetries, s0, frames, 0);
    if resp.None? || tape(next).cancelled {
      return Stop(Handshaking), next + 1;
    }
    resp, next := Probe(rx, CMD_GET_DEVICE_INFO, image, tape, next + 1, maxRetries, s0, frames, 1);
    if resp.None? {
      return Stop(GettingDeviceInfo), next + 1;
    }
    var flashTotal := ParseFlashTotal(resp.value);
    if flashTotal.Some? && FwSize(image) > flashTotal.value {
      return Stop(GettingDeviceInfo), next + 1;
    }
    if tape(next).cancelled {
      return Stop(GettingDeviceInfo), next + 1;
    }
    return Go, next + 1;
  }

  /** How an undisturbed introduction ends. */
  predicate Introduced(s: State, image: seq<byte>, step: Step, tape: Tape, t: nat, next: nat, n: nat) {
    var infoTime := After(tape, t, n) + 1;
    && step == (if s.rebooted || !Clear(tape, t, n) then Stop(Handshaking)
                else if FwSize(image) > 0x20_0000 || !Clear(tape, infoTime, n) then Stop(GettingDeviceInfo)
                else Go)
    && (step == Go ==> next == After(tape, infoTime, n) + 1)
  }

  lemma ProbeMoves(f: Frame, image: seq<byte>)
    requires !Disruptive(f.command)
    ensures Moves(f, Before, Before, image) && Moves(f, Finishing, Finishing, image) && Moves(f, Spent, Spent, image)
  {
  }

  /** Step 3: the device erases slot1 and advertises its packet size. */
  method Start(rx: OtaReceiver, image: seq<byte>, tape: Tape, t: nat, maxRetries: nat, ghost s0: State,
               ghost frames: seq<Frame>)
    returns (step: Step, chunk: nat, next: nat)
    requires rx.Valid() && rx.Contents() == [] && maxRetries >= 1
    requires Progress(rx.device.Abs(), s0, Before, image, tape)
    requires |frames| >= 3 && frames[2] == StartFrame(image) && Story(rx.device.Abs(), s0, frames, 2, 2, tape, t)
    modifies rx, rx.rxBuf, rx.device, rx.device.slot1.cells
    ensures rx.Valid() && rx.Contents() == []
    ensures chunk == 1024
    ensures step.Stop? ==> Story(rx.device.Abs(), s0, frames, 0, Limit(step.stage, 0), tape, next)
    ensures step == Go ==> Story(rx.device.Abs(), s0, frames, 3, 3, tape, next)
    ensures step == Go ==> Progress(rx.device.Abs(), s0, Sending(0), image, tape)
    ensures step.Stop? ==> step.stage == ErasingSlot && Progress(rx.device.Abs(), s0, Before, image, tape)
    ensures Steady(tape) ==>
              Started(rx.device.Abs(), old(rx.device.Abs()), image, step, tape, t, next, maxRetries)
  {
    hide Send, Dispatch, Serialize, Inv, Crc32, In, NotActivated, At, After, Gets, Receipts, Unwilling, Untouched,
         Story;
    var fwSize := FwSize(image);
    var fwCrc := Crc32(image);
    var built := BuildStartUpgrade(fwSize, fwCrc, VERSION);
    var f: Frame := built.value;
    ghost var s := rx.device.Abs();
    ghost var s1, env := SendProgress(s, s0, f, tape, t, maxRetries, Before, Before, image);
    SendStory(s, s0, f, 2, frames, tape, t, maxRetries);
    StartSteady(s, image, tape, t, maxRetries);
    StartReplies(s, f, tape, t, maxRetries);
    if Steady(tape) && Unwilling(s, image) && |image| < WRAP {
      SendTurnedDown(s, image, tape, t, maxRetries);
    }
    FrameLength(f);
    chunk := 1024;
    var resp;
    resp, next := SendFrame(rx, f, tape, t, maxRetries);
    if resp.None? || resp.value.IsErrorResponse() {
      return Stop(ErasingSlot), chunk, next;
    }
    var parsed := ParseStartUpgrade(resp.value);
    if parsed.None? || parsed.value.status != 0x00 {
      return Stop(ErasingSlot), chunk, next;
    }
    if SingleEngine(tape) {
      InvOfIn(s1, Before, image);
      StartAnswered(s1, f, env, image);
    }
    var atLeast := if parsed.value.maxPacket >= 128 then parsed.value.maxPacket else 128;
    chunk := Min(atLeast, 4096);
    if tape(next).cancelled {
      return Stop(ErasingSlot), chunk, next + 1;
    }
    return Go, chunk, next + 1;
  }

  /** How an undisturbed start ends, on a device with room for the image and on one that will not take it. */
  predicate Started(s: State, s0: State, image: seq<byte>, step: Step, tape: Tape, t: nat, next: nat, n: nat) {
    && (At(s0, Fresh, image) ==>
          && step == (if ClearOnce(tape, t, n) then Go else Stop(ErasingSlot))
          && (step == Go ==> At(s, Flowing(0), image) && next == After(tape, t, n) + 1))
    && (Unwilling(s0, image) && |image| < WRAP ==> step == Stop(ErasingSlot) && Untouched(s, s0))
  }

  lemma InvOfIn(s: State, p: Phase, image: seq<byte>)
    ensures In(s, p, image) ==> Inv(s)
    ensures p == Before && Inv(s) ==> In(s, p, image)
  {
  }

  lemma {:induction false} StartSteady(s: State, image: seq<byte>, tape: Tape, t: nat, maxRetries: nat)
    ensures Steady(tape) && At(s, Fresh, image) ==>
              var r := Send(s, StartFrame(image), tape, t, maxRetries);
              && r.next == After(tape, t, maxRetries)
              && (r.reply.Some? && !r.reply.value.IsErrorResponse() <==>
                    Gets(tape, t, maxRetries) && Receipts(tape, t, maxRetries) == 1)
              && (Gets(tape, t, maxRetries) && Receipts(tape, t, maxRetries) == 1 ==>
                    && At(r.state, Flowing(0), image)
                    && ParseStartUpgrade(r.reply.value) == Some(StartReply(0x00, 1024, 100)))
  {
    hide Send, At, After, Gets, Receipts, Crc32;
    if Steady(tape) && At(s, Fresh, image) {
      SendShot(s, Shot(StartFrame(image), Fresh, Flowing(0), Flowing(0)), 0, tape, t, maxRetries, image);
      assert ([0x00] + Le16(MAX_PACKET_SIZE) + [100])[0] != ERROR_MARKER[0];
    }
  }

  /** What a device that sees every packet once answers: the number of bytes sent so far. */
  ghost predicate ExactAcks(acks: seq<seq<byte>>, packets: seq<Packet>) {
    && |acks| == |packets|
    && forall i :: 0 <= i < |acks| ==>
         packets[i].offset + |packets[i].data| < WRAP && acks[i] == [0x00] + Le32(packets[i].offset + |packets[i].data|)
  }

  /** An undisturbed send of packet `p`: answered or not, how often it came decides the mode and the answer. */
  predicate PacketSent(s: State, image: seq<byte>, p: Packet, m: Mode, ack: Option<seq<byte>>, tape: Tape, t: nat,
                       next: nat, n: nat) {
    var receipts := Receipts(tape, t, n);
    && next == After(tape, t, n) && (ack.Some? <==> Gets(tape, t, n))
    && (ack.Some? ==> At(s, ModeAfter(m, |p.data|, receipts), image))
    && (ack.Some? && m.Flowing? && receipts == 1 ==>
          p.offset + |p.data| < WRAP && ack.value == [0x00] + Le32(p.offset + |p.data|))
  }

  /** One packet: built, sent with retries, and its answer checked for the four-byte error reply. */
  method SendPacket(rx: OtaReceiver, image: seq<byte>, p: Packet, packetSeq: u16, totalPackets: u16,
                    tape: Tape, t: nat, maxRetries: nat, ghost sent: nat, ghost m: Mode, ghost s0: State,
                    ghost frames: seq<Frame>, ghost which: nat)
    returns (ack: Option<seq<byte>>, next: nat)
    requires rx.Valid() && rx.Contents() == [] && maxRetries >= 1
    requires 1 <= |p.data| <= 4072 && sent + |p.data| <= |image|
    requires p == Packet(sent % WRAP, image[sent..sent + |p.data|])
    requires Progress(rx.device.Abs(), s0, Sending(sent), image, tape)
    requires which < |frames| && frames[which] == TransferDataRequest(p.offset, p.data, packetSeq, totalPackets)
    requires Story(rx.device.Abs(), s0, frames, which, which, tape, t)
    modifies rx, rx.rxBuf, rx.device, rx.device.slot1.cells
    ensures rx.Valid() && rx.Contents() == []
    ensures next >= t && Story(rx.device.Abs(), s0, frames, 0, which + 1, tape, next)
    ensures ack.Some? ==> Story(rx.device.Abs(), s0, frames, which + 1, which + 1, tape, next)
    ensures Progress(rx.device.Abs(), s0, if ack.Some? then Sending(sent + |p.data|) else Before, image, tape)
    ensures Steady(tape) && At(old(rx.device.Abs()), m, image) && (m == Flowing(sent) || m.Broken?) ==>
              PacketSent(rx.device.Abs(), image, p, m, ack, tape, t, next, maxRetries)
  {
    hide Send, Dispatch, Serialize, In, Progress, At, After, Gets, Receipts, Story;
    ghost var n := |p.data|;
    var built := BuildTransferData(p.offset, p.data, packetSeq, totalPackets);
    var f: Frame := built.value;
    ghost var s := rx.device.Abs();
    SendStory(s, s0, f, which, frames, tape, t, maxRetries);
    PacketFrame(f, image, sent, n, packetSeq, totalPackets);
    ghost var _, _ := SendProgress(s, s0, f, tape, t, maxRetries, Sending(sent), Sending(sent + n), image);
    PacketSteady(s, image, sent, n, f, m, tape, t, maxRetries);
    var resp;
    resp, next := SendFrame(rx, f, tape, t, maxRetries);
    Forget(rx.device.Abs(), s0, Sending(sent), image, tape);
    Forget(rx.device.Abs(), s0, Sending(sent + n), image, tape);
    if resp.None? || resp.value.IsErrorResponse() {
      return None, next;
    }
    ack := Some(resp.value.data);
  }

  /** Cancelled between packets: a last cancel command, without waiting for its answer. */
  method Abort(rx: OtaReceiver, image: seq<byte>, tape: Tape, t: nat, ghost sent: nat, ghost s0: State)
    requires rx.Valid() && rx.Contents() == []
    requires Progress(rx.device.Abs(), s0, Sending(sent), image, tape)
    modifies rx, rx.rxBuf, rx.device, rx.device.slot1.cells
    ensures rx.Valid() && rx.Contents() == []
    ensures Progress(rx.device.Abs(), s0, Before, image, tape)
    ensures rx.device.Abs() == Aftermath(old(rx.device.Abs()), Cancelled, tape(t))
  {
    hide Dispatch, Serialize, Progress;
    FrameLength(Message(CMD_CANCEL_UPGRADE, []));
    if tape(t).arrives {
      CancelProgress(rx.device.Abs(), s0, tape(t).env, sent, image, tape);
      var _ := Deliver(rx, Message(CMD_CANCEL_UPGRADE, []), tape(t).env, tape(t).blocks);
    } else {
      Forget(rx.device.Abs(), s0, Sending(sent), image, tape);
    }
  }

  /** Step 4: one frame per packet, in order. */
  method Transfer(rx: OtaReceiver, image: seq<byte>, chunk: nat, tape: Tape, t: nat, maxRetries: nat, ghost s0: State,
                  ghost frames: seq<Frame>)
    returns (step: Step, next: nat, ghost acks: seq<seq<byte>>)
    requires rx.Valid() && rx.Contents() == [] && maxRetries >= 1 && 128 <= chunk <= 4072
    requires Progress(rx.device.Abs(), s0, Sending(0), image, tape)
    requires frames == ScriptFrames(image, chunk) && Story(rx.device.Abs(), s0, frames, 3, 3, tape, t)
    modifies rx, rx.rxBuf, rx.device, rx.device.slot1.cells
    ensures rx.Valid() && rx.Contents() == []
    ensures step.Stop? ==> step.stage == Transferring || step.stage == Cancelled
    ensures Told(rx.device.Abs(), s0, frames, step, tape, next)
    ensures step == Go ==> Progress(rx.device.Abs(), s0, Sending(|image|), image, tape)
    ensures step.Stop? ==> !PastVerification(step.stage) && Progress(rx.device.Abs(), s0, Before, image, tape)
    ensures Steady(tape) && At(old(rx.device.Abs()), Flowing(0), image) ==>
              TransferEnd(rx.device.Abs(), image, chunk, step, acks, tape, t, next, maxRetries)
  {
    hide Serialize, Progress, Split, Covered, ExactAcks, At, Tracked, TransferEnd, PacketSent, Steady, ScriptFrames,
         Story, Told, Aftermath, TransferDataRequest;
    PacketsCover(image, chunk);
    var packets := Split(image, chunk);
    var totalPackets := |packets| % 0x1_0000;
    ghost var start := rx.device.Abs();
    ghost var good := Steady(tape) && At(start, Flowing(0), image);
    ghost var mode := Flowing(0);
    TrackStarts(start, image, chunk, tape, t, maxRetries);
    acks := [];
    next := t;
    ghost var sent := 0;
    for i := 0 to |packets|
      invariant rx.Valid() && rx.Contents() == []
      invariant sent == Covered(image, chunk, i)
      invariant Progress(rx.device.Abs(), s0, Sending(sent), image, tape)
      invariant good ==> Tracked(rx.device.Abs(), mode, image, chunk, i, acks, tape, t, next, maxRetries)
      invariant next >= t && Story(rx.device.Abs(), s0, frames, i + 3, i + 3, tape, next)
    {
      if tape(next).cancelled {
        if good {
          TrackCancelled(rx.device.Abs(), mode, image, chunk, i, acks, tape, t, next, maxRetries);
        }
        ToldCancelled(rx.device.Abs(), s0, frames, i + 3, tape, next);
        Abort(rx, image, tape, next, sent, s0);
        return Stop(Cancelled), next + 1, acks;
      }
      PacketOf(image, chunk, i);
      var p := packets[i];
      ghost var s, was := rx.device.Abs(), next;
      StoryLater(s, s0, frames, i + 3, i + 3, tape, next, i + 3, i + 3, next + 1);
      PacketFrameAt(image, chunk, i);
      if good {
        TrackMode(s, mode, image, chunk, i, acks, tape, t, next, maxRetries);
      }
      var ack;
      ack, next := SendPacket(rx, image, p, i % 0x1_0000, totalPackets, tape, next + 1, maxRetries, sent, mode, s0,
                              frames, i + 3);
      if good {
        TrackStep(s, rx.device.Abs(), mode, image, chunk, i, acks, ack, tape, t, was, next, maxRetries);
      }
      if ack.None? {
        ToldStopped(rx.device.Abs(), s0, frames, 0, i + 4, tape, next);
        return Stop(Transferring), next, acks;
      }
      mode := ModeAfter(mode, |p.data|, Receipts(tape, was + 1, maxRetries));
      sent := sent + |p.data|;
      acks := acks + [ack.value];
    }
    if good {
      TrackEnds(rx.device.Abs(), mode, image, chunk, acks, tape, t, next, maxRetries);
    }
    ghost var done := |packets| + 3;
    if tape(next).cancelled {
      Forget(rx.device.Abs(), s0, Sending(sent), image, tape);
      ToldStopped(rx.device.Abs(), s0, frames, done, done, tape, next);
      return Stop(Transferring), next + 1, acks;
    }
    ToldAll(rx.device.Abs(), s0, frames, tape, next);
    return Go, next + 1, acks;
  }

  /** The account after the packets: all tried, or where it stopped. */
  ghost predicate Told(s: State, s0: State, frames: seq<Frame>, step: Step, tape: Tape, next: nat)
    requires |frames| >= 7
  {
    match step
    case Go => Story(s, s0, frames, |frames| - 4, |frames| - 4, tape, next)
    case Stop(stage) => Over(s, s0, frames, stage, |frames| - 4, tape)
  }

  lemma ToldAll(s: State, s0: State, frames: seq<Frame>, tape: Tape, next: nat)
    requires |frames| >= 7 && Story(s, s0, frames, |frames| - 4, |frames| - 4, tape, next)
    ensures Told(s, s0, frames, Go, tape, next + 1)
  {
    hide Story;
    StoryLater(s, s0, frames, |frames| - 4, |frames| - 4, tape, next, |frames| - 4, |frames| - 4, next + 1);
  }

  lemma ToldStopped(s: State, s0: State, frames: seq<Frame>, lo: nat, hi: nat, tape: Tape, next: nat)
    requires |frames| >= 7 && hi <= |frames| - 4 && Story(s, s0, frames, lo, hi, tape, next)
    ensures forall later: nat :: Told(s, s0, frames, Stop(Transferring), tape, later)
  {
    hide Story, Over;
    StoryOver(s, s0, frames, lo, hi, tape, next, Transferring, |frames| - 4);
  }

  lemma ToldCancelled(s: State, s0: State, frames: seq<Frame>, i: nat, tape: Tape, next: nat)
    requires |frames| >= 7 && i <= |frames| - 4 && Story(s, s0, frames, i, i, tape, next) && tape(next).cancelled
    ensures forall later: nat ::
              Told(Aftermath(s, Cancelled, tape(next)), s0, frames, Stop(Cancelled), tape, later)
  {
    hide Story, Over, Aftermath;
    CancelledOver(s, s0, frames, i, i, tape, next, |frames| - 4);
  }

  /** What a packet of `n` bytes, received that often, does to the session. */
  function ModeAfter(m: Mode, n: nat, receipts: nat): Mode {
    if !m.Flowing? then m else if receipts == 1 then Flowing(m.sent + n) else Broken(m.sent + n)
  }

  /** Where the device is after all packets when the first `clean` of them came once. */
  function Landed(image: seq<byte>, chunk: nat, clean: nat): Mode
    requires chunk > 0
  {
    if clean >= |Split(image, chunk)| then Flowing(|image|) else Broken(Covered(image, chunk, clean + 1))
  }

  /** Before packet `i`, at time `next`: what is still to come decides the same, and the mode says what has come. */
  predicate OnTrack(m: Mode, image: seq<byte>, chunk: nat, i: nat, tape: Tape, t: nat, next: nat, n: nat)
    requires chunk > 0 && i <= |Split(image, chunk)|
  {
    var k := |Split(image, chunk)|;
    var clean := CleanPackets(tape, t, n, k);
    && PacketsStep(tape, t, n, k) == PacketsStep(tape, next, n, k - i)
    && PacketsEnd(tape, t, n, k) == PacketsEnd(tape, next, n, k - i)
    && (|| (m == Flowing(Covered(image, chunk, i)) && clean == i + CleanPackets(tape, next, n, k - i))
        || (clean < i && m == Broken(Covered(image, chunk, clean + 1))))
  }

  /** An undisturbed transfer before packet `i`. */
  ghost predicate Tracked(s: State, m: Mode, image: seq<byte>, chunk: nat, i: nat, acks: seq<seq<byte>>, tape: Tape,
                          t: nat, next: nat, n: nat)
    requires chunk > 0 && i <= |Split(image, chunk)|
  {
    && At(s, m, image)
    && OnTrack(m, image, chunk, i, tape, t, next, n)
    && (m.Flowing? ==> ExactAcks(acks, Split(image, chunk)[..i]))
  }

  /** How an undisturbed transfer ends. */
  ghost predicate TransferEnd(s: State, image: seq<byte>, chunk: nat, step: Step, acks: seq<seq<byte>>, tape: Tape,
                              t: nat, next: nat, n: nat)
    requires chunk > 0
  {
    var k := |Split(image, chunk)|;
    var clean := CleanPackets(tape, t, n, k);
    && step == PacketsStep(tape, t, n, k)
    && (step == Go ==>
          && next == PacketsEnd(tape, t, n, k) + 1
          && At(s, Landed(image, chunk, clean), image)
          && (clean == k ==> ExactAcks(acks, Split(image, chunk))))
  }

  lemma TrackStarts(s: State, image: seq<byte>, chunk: nat, tape: Tape, t: nat, n: nat)
    requires chunk > 0
    ensures At(s, Flowing(0), image) ==> Tracked(s, Flowing(0), image, chunk, 0, [], tape, t, t, n)
  {
    hide Split, At;
    PacketsCover(image, chunk);
  }

  lemma TrackMode(s: State, m: Mode, image: seq<byte>, chunk: nat, i: nat, acks: seq<seq<byte>>, tape: Tape, t: nat,
                  next: nat, n: nat)
    requires chunk > 0 && i <= |Split(image, chunk)| && Tracked(s, m, image, chunk, i, acks, tape, t, next, n)
    ensures At(s, m, image) && (m == Flowing(Covered(image, chunk, i)) || m.Broken?)
  {
    hide At;
  }

  lemma TrackCancelled(s: State, m: Mode, image: seq<byte>, chunk: nat, i: nat, acks: seq<seq<byte>>, tape: Tape,
                       t: nat, next: nat, n: nat)
    requires chunk > 0 && i < |Split(image, chunk)| && Tracked(s, m, image, chunk, i, acks, tape, t, next, n)
    requires tape(next).cancelled
    ensures forall s': State, next': nat ::
              TransferEnd(s', image, chunk, Stop(Cancelled), acks, tape, t, next', n)
  {
    hide At;
  }

  lemma {:induction false} TrackStep(s: State, s': State, m: Mode, image: seq<byte>, chunk: nat, i: nat,
                                     acks: seq<seq<byte>>, ack: Option<seq<byte>>, tape: Tape, t: nat, next: nat,
                                     next': nat, n: nat)
    requires chunk > 0 && i < |Split(image, chunk)| && Tracked(s, m, image, chunk, i, acks, tape, t, next, n)
    requires !tape(next).cancelled && PacketSent(s', image, Split(image, chunk)[i], m, ack, tape, next + 1, next', n)
    ensures ack.None? ==> TransferEnd(s', image, chunk, Stop(Transferring), acks, tape, t, next', n)
    ensures ack.Some? ==>
              var m' := ModeAfter(m, |Split(image, chunk)[i].data|, Receipts(tape, next + 1, n));
              Tracked(s', m', image, chunk, i + 1, acks + [ack.value], tape, t, next', n)
  {
    hide Split, Covered, Receipts, Gets, After, At, ExactAcks;
    PacketOf(image, chunk, i);
    if ack.Some? && m.Flowing? && Receipts(tape, next + 1, n) == 1 {
      AckStep(acks, Split(image, chunk), i, ack.value);
    }
  }

  lemma TrackEnds(s: State, m: Mode, image: seq<byte>, chunk: nat, acks: seq<seq<byte>>, tape: Tape, t: nat,
                  next: nat, n: nat)
    requires chunk > 0
    requires Tracked(s, m, image, chunk, |Split(image, chunk)|, acks, tape, t, next, n)
    ensures TransferEnd(s, image, chunk, if tape(next).cancelled then Stop(Transferring) else Go, acks, tape, t,
                        next + 1, n)
  {
    hide Split, At, ExactAcks;
    PacketsCover(image, chunk);
    assert Split(image, chunk)[..|Split(image, chunk)|] == Split(image, chunk);
  }

  lemma AckStep(acks: seq<seq<byte>>, packets: seq<Packet>, i: nat, ack: seq<byte>)
    requires i < |packets| && ExactAcks(acks, packets[..i])
    requires packets[i].offset + |packets[i].data| < WRAP && ack == [0x00] + Le32(packets[i].offset + |packets[i].data|)
    ensures ExactAcks(acks + [ack], packets[..i + 1])
  {
    assert packets[..i + 1] == packets[..i] + [packets[i]];
  }

  /** How much of the image the first `i` packets cover. */
  function Covered(image: seq<byte>, chunk: nat, i: nat): nat {
    Min(i * chunk, |image|)
  }

  lemma PacketOf(image: seq<byte>, chunk: nat, i: nat)
    requires chunk > 0 && i < |Split(image, chunk)|
    ensures var p := Split(image, chunk)[i];
            var sent := Covered(image, chunk, i);
            && 1 <= |p.data| <= chunk
            && sent + |p.data| == Covered(image, chunk, i + 1) <= |image|
            && p == Packet(sent % WRAP, image[sent..sent + |p.data|])
  {
    hide SplitFrom;
    SplitPositions(image, chunk, 0, i);
    assert (i + 1) * chunk == i * chunk + chunk;
  }

  lemma PacketsCover(image: seq<byte>, chunk: nat)
    requires chunk > 0
    ensures Covered(image, chunk, 0) == 0 && Covered(image, chunk, |Split(image, chunk)|) == |image|
  {
    hide SplitFrom;
    SplitCount(image, chunk);
  }

  /** Every phase is a special case of the one nothing is known about. */
  lemma Forget(s: State, s0: State, p: Phase, image: seq<byte>, tape: Tape)
    ensures Progress(s, s0, p, image, tape) ==> Progress(s, s0, Before, image, tape)
  {
    hide Inv, NotActivated;
  }

  lemma CancelProgress(s: State, s0: State, env: Env, sent: nat, image: seq<byte>, tape: Tape)
    requires Progress(s, s0, Sending(sent), image, tape)
    ensures Progress(Dispatch(s, Message(CMD_CANCEL_UPGRADE, []), env).state, s0, Before, image, tape)
  {
    hide Inv, Dispatch, Serialize;
    var f := Message(CMD_CANCEL_UPGRADE, []);
    if SingleEngine(tape) {
      NeutralKeepsPhase(s, f, env, Before, image);
      DispatchActivates(s, f, env);
    }
  }

  lemma PacketFrame(f: WireFrame, image: seq<byte>, sent: nat, n: nat, packetSeq: u16, total: u16)
    requires 1 <= n <= 4072 && sent + n <= |image|
    requires f == TransferDataRequest(sent % WRAP, image[sent..sent + n], packetSeq, total)
    ensures Addressed(f) && IsPacket(f, image, sent, n)
    ensures Moves(f, Sending(sent), Sending(sent + n), image)
    ensures |Serialize(f)| <= RX_BUF_SIZE
  {
    PayloadFields(sent % WRAP, 0, image[sent..sent + n]);
    TransferFrameFitsIff(sent % WRAP, image[sent..sent + n], packetSeq, total);
  }

  lemma {:induction false} PacketSteady(s: State, image: seq<byte>, sent: nat, n: nat, f: WireFrame, m: Mode,
                                        tape: Tape, t: nat, maxRetries: nat)
    requires Addressed(f) && IsPacket(f, image, sent, n)
    ensures Steady(tape) && At(s, m, image) && (m == Flowing(sent) || m.Broken?) ==>
              var r := Send(s, f, tape, t, maxRetries);
              && r.next == After(tape, t, maxRetries) && (r.reply.Some? <==> Gets(tape, t, maxRetries))
              && (r.reply.Some? ==>
                    && !r.reply.value.IsErrorResponse()
                    && At(r.state, ModeAfter(m, n, Receipts(tape, t, maxRetries)), image))
              && (r.reply.Some? && m.Flowing? && Receipts(tape, t, maxRetries) == 1 ==>
                    sent + n < WRAP && sent % WRAP == sent && r.reply.value.data == [0x00] + Le32(sent + n))
  {
    hide Send, At, After, Gets, Receipts, IsPacket, Legal, Steady;
    if Steady(tape) && At(s, m, image) && (m == Flowing(sent) || m.Broken?) {
      var x := if m.Flowing? then Shot(f, m, Flowing(sent + n), Broken(sent + n)) else Shot(f, m, m, m);
      PacketLegal(x, image, sent, n);
      SendShot(s, x, 0, tape, t, maxRetries, image);
    }
  }

  lemma PacketLegal(x: Shot, image: seq<byte>, sent: nat, n: nat)
    requires Addressed(x.f) && IsPacket(x.f, image, sent, n)
    requires (x.from == Flowing(sent) && x.once == Flowing(sent + n) && x.more == Broken(sent + n))
             || (x.from.Broken? && x.from == x.once == x.more)
    ensures Legal(x, image) && x.f.command == CMD_TRANSFER_DATA && n >= 1
  {
  }

  /** Step 5: transfer_done with the CRC and size of the file. */
  method CompleteTransfer(rx: OtaReceiver, image: seq<byte>, tape: Tape, t: nat, maxRetries: nat, ghost m: Mode,
                          ghost s0: State, ghost frames: seq<Frame>, ghost which: nat)
    returns (step: Step, next: nat)
    requires rx.Valid() && rx.Contents() == [] && maxRetries >= 1
    requires Progress(rx.device.Abs(), s0, Sending(|image|), image, tape)
    requires which < |frames| && frames[which] == DoneFrame(image)
    requires Story(rx.device.Abs(), s0, frames, which, which, tape, t)
    modifies rx, rx.rxBuf, rx.device, rx.device.slot1.cells
    ensures rx.Valid() && rx.Contents() == []
    ensures Progress(rx.device.Abs(), s0, if step == Go then Finishing else Before, image, tape)
    ensures step.Stop? ==> step.stage == Completing && Story(rx.device.Abs(), s0, frames, 0, which + 1, tape, next)
    ensures step == Go ==> Story(rx.device.Abs(), s0, frames, which + 1, which + 1, tape, next)
    ensures Steady(tape) ==> DoneSent(rx.device.Abs(), old(rx.device.Abs()), image, m, step, tape, t, next, maxRetries)
  {
    hide Send, Dispatch, Serialize, Crc32, Progress, Moves, At, After, Gets, Steady, Story;
    var built := BuildTransferComplete(Crc32(image), FwSize(image));
    var f: Frame := built.value;
    ghost var s := rx.device.Abs();
    DoneMoves(f, image);
    SendStory(s, s0, f, which, frames, tape, t, maxRetries);
    ghost var _, _ := SendProgress(s, s0, f, tape, t, maxRetries, Sending(|image|), Finishing, image);
    DoneSteady(s, image, m, tape, t, maxRetries);
    var resp;
    FrameLength(f);
    resp, next := SendFrame(rx, f, tape, t, maxRetries);
    Forget(rx.device.Abs(), s0, Sending(|image|), image, tape);
    Forget(rx.device.Abs(), s0, Finishing, image, tape);
    if resp.None? || resp.value.IsErrorResponse() || tape(next).cancelled {
      return Stop(Completing), next + 1;
    }
    return Go, next + 1;
  }

  /** How an undisturbed transfer_done ends. */
  predicate DoneSent(s: State, s0: State, image: seq<byte>, m: Mode, step: Step, tape: Tape, t: nat, next: nat,
                     n: nat) {
    At(s0, m, image) && (m == Flowing(|image|) || m.Broken?) ==>
      && step == (if Clear(tape, t, n) then Go else Stop(Completing))
      && (step == Go ==> At(s, ModeDone(m, image), image) && next == After(tape, t, n) + 1)
  }

  /** Step 6: the device verifies and the engine looks at the result byte. */
  method Verify(rx: OtaReceiver, image: seq<byte>, tape: Tape, t: nat, maxRetries: nat, ghost m: Mode, ghost s0: State,
                ghost frames: seq<Frame>, ghost which: nat)
    returns (step: Step, next: nat)
    requires rx.Valid() && rx.Contents() == [] && maxRetries >= 1
    requires Progress(rx.device.Abs(), s0, Finishing, image, tape)
    requires which < |frames| && frames[which] == Message(CMD_VERIFY_FIRMWARE, [])
    requires Story(rx.device.Abs(), s0, frames, which, which, tape, t)
    modifies rx, rx.rxBuf, rx.device, rx.device.slot1.cells
    ensures rx.Valid() && rx.Contents() == []
    ensures Progress(rx.device.Abs(), s0, if step == Go then Spent else Before, image, tape)
    ensures step.Stop? ==> step.stage == VerifyingImage && Story(rx.device.Abs(), s0, frames, 0, which + 1, tape, next)
    ensures step == Go ==> Story(rx.device.Abs(), s0, frames, which + 1, which + 1, tape, next)
    ensures Steady(tape) ==>
              VerifySent(rx.device.Abs(), old(rx.device.Abs()), image, m, step, tape, t, next, maxRetries)
  {
    hide Send, Dispatch, Serialize, Crc32, Progress, Moves, At, After, Gets, Receipts, Steady, Story;
    var f := Message(CMD_VERIFY_FIRMWARE, []);
    ghost var s := rx.device.Abs();
    SendStory(s, s0, f, which, frames, tape, t, maxRetries);
    ProbeMoves(f, image);
    ghost var s1, env := SendProgress(s, s0, f, tape, t, maxRetries, Finishing, Finishing, image);
    VerifySteady(s, image, m, tape, t, maxRetries);
    var resp;
    FrameLength(f);
    resp, next := SendFrame(rx, f, tape, t, maxRetries);
    Forget(rx.device.Abs(), s0, Finishing, image, tape);
    if resp.None? || resp.value.IsErrorResponse() {
      return Stop(VerifyingImage), next;
    }
    VerifyProgress(s1, s0, f, env, rx.device.Abs(), resp, image, tape);
    var parsed := ParseSized(resp.value);
    if parsed.Some? && parsed.value.status != 0x00 {
      return Stop(VerifyingImage), next;
    }
    Forget(rx.device.Abs(), s0, Spent, image, tape);
    if tape(next).cancelled {
      return Stop(VerifyingImage), next + 1;
    }
    return Go, next + 1;
  }

  /** How an undisturbed verification ends. */
  predicate VerifySent(s: State, s0: State, image: seq<byte>, m: Mode, step: Step, tape: Tape, t: nat, next: nat,
                       n: nat) {
    At(s0, m, image) && (m == Checkable || m.Broken?) ==>
      && step == (if m == Checkable && ClearOnce(tape, t, n) then Go else Stop(VerifyingImage))
      && (step == Go ==> At(s, Delivered, image) && next == After(tape, t, n) + 1)
  }

  /** Where transfer_done leaves the device: an incomplete image stays incomplete. */
  function ModeDone(m: Mode, image: seq<byte>): Mode {
    if m.Broken? && m.received < |image| then m else Checkable
  }

  lemma DoneMoves(f: WireFrame, image: seq<byte>)
    requires f == TransferCompleteRequest(Crc32(image), FwSize(image))
    ensures Moves(f, Sending(|image|), Finishing, image)
  {
    hide Crc32;
    PayloadFields(Crc32(image), FwSize(image), []);
    assert Le32(Crc32(image)) + Le32(FwSize(image)) + [] == f.data;
  }

  lemma VerifyProgress(s1: State, s0: State, f: WireFrame, env: Env, s: State, reply: Option<Frame>,
                       image: seq<byte>, tape: Tape)
    requires f.command == CMD_VERIFY_FIRMWARE && reply.Some?
    requires Progress(s, s0, Finishing, image, tape)
    requires SingleEngine(tape) ==> In(s1, Finishing, image) && Response(s, reply) == Dispatch(s1, f, env)
    ensures SingleEngine(tape) ==> ParseSized(reply.value).Some?
    ensures ParseSized(reply.value).Some? && ParseSized(reply.value).value.status == 0x00 ==>
              Progress(s, s0, Spent, image, tape)
    ensures ParseSized(reply.value).None? ==> Progress(s, s0, Spent, image, tape)
  {
    hide In, Dispatch, NotActivated;
    if SingleEngine(tape) {
      VerifyAnswered(s1, f, env, image);
    }
  }

  lemma {:induction false} DoneSteady(s: State, image: seq<byte>, m: Mode, tape: Tape, t: nat, maxRetries: nat)
    ensures Steady(tape) && At(s, m, image) && (m == Flowing(|image|) || m.Broken?) ==>
              var r := Send(s, DoneFrame(image), tape, t, maxRetries);
              && r.next == After(tape, t, maxRetries) && (r.reply.Some? <==> Gets(tape, t, maxRetries))
              && (r.reply.Some? ==>
                    !r.reply.value.IsErrorResponse() && At(r.state, ModeDone(m, image), image))
  {
    hide Send, After, Gets, Receipts, Crc32, Inv;
    if Steady(tape) && At(s, m, image) && (m == Flowing(|image|) || m.Broken?) {
      var done := ModeDone(m, image);
      SendShot(s, Shot(DoneFrame(image), m, done, done), 0, tape, t, maxRetries, image);
    }
  }

  lemma {:induction false} VerifySteady(s: State, image: seq<byte>, m: Mode, tape: Tape, t: nat, maxRetries: nat)
    ensures Steady(tape) && At(s, m, image) && (m == Checkable || m.Broken?) ==>
              var r := Send(s, Message(CMD_VERIFY_FIRMWARE, []), tape, t, maxRetries);
              && r.next == After(tape, t, maxRetries) && (r.reply.Some? <==> Gets(tape, t, maxRetries))
              && (r.reply.Some? ==>
                    && !r.reply.value.IsErrorResponse() && ParseSized(r.reply.value).Some?
                    && (ParseSized(r.reply.value).value.status == 0x00 <==>
                          m == Checkable && Receipts(tape, t, maxRetries) == 1)
                    && (m == Checkable ==> At(r.state, Delivered, image)))
  {
    hide Send, At, After, Gets, Receipts, Crc32;
    if Steady(tape) && At(s, m, image) && (m == Checkable || m.Broken?) {
      var after := if m == Checkable then Delivered else m;
      SendShot(s, Shot(Message(CMD_VERIFY_FIRMWARE, []), m, after, after), 0, tape, t, maxRetries, image);
    }
  }

  /** Steps 7 and 8: boot flag and reset; only the four-byte error reply would stop the engine here. */
  method Activate(rx: OtaReceiver, image: seq<byte>, tape: Tape, t: nat, maxRetries: nat, ghost s0: State,
                  ghost frames: seq<Frame>, ghost which: nat)
    returns (step: Step, next: nat)
    requires rx.Valid() && rx.Contents() == [] && maxRetries >= 1
    requires Progress(rx.device.Abs(), s0, Spent, image, tape)
    requires which + 2 == |frames|
    requires frames[which] == Message(CMD_SET_BOOT_FLAG, [0x01])
    requires frames[which + 1] == Message(CMD_RESET_RUN, Le16(100))
    requires Story(rx.device.Abs(), s0, frames, which, which, tape, t)
    modifies rx, rx.rxBuf, rx.device, rx.device.slot1.cells
    ensures rx.Valid() && rx.Contents() == []
    ensures Progress(rx.device.Abs(), s0, Spent, image, tape)
    ensures step.Stop? ==>
              && (step.stage == SettingBootFlag || step.stage == Resetting)
              && Story(rx.device.Abs(), s0, frames, 0, if step.stage == SettingBootFlag then which + 1 else which + 2,
                       tape, next)
    ensures step == Go ==> Story(rx.device.Abs(), s0, frames, |frames|, |frames|, tape, next)
    ensures Steady(tape) ==> ActivationSent(rx.device.Abs(), old(rx.device.Abs()), image, step, tape, t, maxRetries)
  {
    hide Send, Dispatch, Serialize, Progress, Moves, At, After, Gets, Steady, Story;
    var f := Message(CMD_SET_BOOT_FLAG, [0x01]);
    ProbeMoves(f, image);
    ghost var s := rx.device.Abs();
    SendStory(s, s0, f, which, frames, tape, t, maxRetries);
    ghost var _, _ := SendProgress(s, s0, f, tape, t, maxRetries, Spent, Spent, image);
    ActivationSteady(s, image, f, tape, t, maxRetries);
    FrameLength(f);
    var resp;
    resp, next := SendFrame(rx, f, tape, t, maxRetries);
    if resp.None? || resp.value.IsErrorResponse() || tape(next).cancelled {
      return Stop(SettingBootFlag), next + 1;
    }
    f := Message(CMD_RESET_RUN, Le16(100));
    ProbeMoves(f, image);
    s := rx.device.Abs();
    SendStory(s, s0, f, which + 1, frames, tape, next + 1, maxRetries);
    ghost var _, _ := SendProgress(s, s0, f, tape, next + 1, maxRetries, Spent, Spent, image);
    ActivationSteady(s, image, f, tape, next + 1, maxRetries);
    FrameLength(f);
    resp, next := SendFrame(rx, f, tape, next + 1, maxRetries);
    if resp.None? || resp.value.IsErrorResponse() {
      return Stop(Resetting), next;
    }
    return Go, next;
  }

  /** How the undisturbed last two steps end. */
  predicate ActivationSent(s: State, s0: State, image: seq<byte>, step: Step, tape: Tape, t: nat, n: nat) {
    At(s0, Delivered, image) ==> step == StepTo(Activated(tape, t, n)) && At(s, Delivered, image)
  }

  /** After a verification the boot flag and the reset are refused with one byte, which passes the error check. */
  lemma {:induction false} ActivationSteady(s: State, image: seq<byte>, f: WireFrame, tape: Tape, t: nat,
                                            maxRetries: nat)
    requires Activation(f)
    ensures Steady(tape) && At(s, Delivered, image) ==>
              var r := Send(s, f, tape, t, maxRetries);
              && At(r.state, Delivered, image)
              && r.next == After(tape, t, maxRetries) && (r.reply.Some? <==> Gets(tape, t, maxRetries))
              && (r.reply.Some? ==> !r.reply.value.IsErrorResponse())
  {
    hide Send, At, After, Gets, Receipts, Steady, IsPacket;
    if Steady(tape) && At(s, Delivered, image) {
      SendShot(s, Shot(f, Delivered, Delivered, Delivered), 0, tape, t, maxRetries, image);
    }
  }

  /** How the first four steps end when they are undisturbed. */
  ghost predicate ImageSent(s: State, image: seq<byte>, step: Step, acks: seq<seq<byte>>, tape: Tape, next: nat,
                            n: nat) {
    var k := |Split(image, 1024)|;
    if step.Stop? then Fate(tape, n, k) == step.stage
    else
      && Fate(tape, n, k) == Ending(tape, n, k)
      && TransferEnd(s, image, 1024, Go, acks, tape, DataTime(tape, n), next, n)
  }

  /** Both for a device that takes the image and for one that does not. */
  ghost predicate FirstResult(s: State, s0: State, image: seq<byte>, step: Step, acks: seq<seq<byte>>, tape: Tape,
                              next: nat, n: nat) {
    if Uploadable(s0, image) then ImageSent(s, image, step, acks, tape, next, n)
    else |image| < WRAP ==> step == Stop(Rejection(s0, image, tape, n)) && Untouched(s, s0)
  }

  lemma StopsIntroduced(s: State, image: seq<byte>, step: Step, acks: seq<seq<byte>>, tape: Tape, next: nat, n: nat)
    requires Inv(s) && step.Stop? && Introduced(s, image, step, tape, 0, next, n)
    ensures FirstResult(s, s, image, step, acks, tape, next, n)
  {
    hide Split, After, Clear, ClearOnce, Ending, PacketsStep, Inv;
    NotUploadable(s, image);
  }

  lemma StopsStarted(s: State, s0: State, image: seq<byte>, step: Step, acks: seq<seq<byte>>, tape: Tape, t: nat,
                     next: nat, n: nat)
    requires Inv(s0) && Introduced(s0, image, Go, tape, 0, t, n)
    requires step.Stop? && Started(s, s0, image, step, tape, t, next, n)
    ensures FirstResult(s, s0, image, step, acks, tape, next, n)
  {
    hide Split, After, Clear, ClearOnce, Ending, PacketsStep, Inv, At, Unwilling, Untouched;
    NotUploadable(s0, image);
    if Uploadable(s0, image) {
      UploadableFresh(s0, image);
    }
  }

  lemma GoesOn(s: State, s1: State, s0: State, image: seq<byte>, step: Step, acks: seq<seq<byte>>, tape: Tape, t: nat,
               t': nat, next: nat, n: nat)
    requires Inv(s0) && Introduced(s0, image, Go, tape, 0, t, n) && Started(s1, s0, image, Go, tape, t, t', n)
    requires At(s1, Flowing(0), image) ==> TransferEnd(s, image, 1024, step, acks, tape, t', next, n)
    ensures FirstResult(s, s0, image, step, acks, tape, next, n)
  {
    hide Split, After, Clear, ClearOnce, Ending, PacketsStep, PacketsEnd, CleanPackets, Landed, ExactAcks, Inv, At,
         Unwilling, Untouched;
    NotUploadable(s0, image);
    if Uploadable(s0, image) {
      UploadableFresh(s0, image);
    }
  }

  /** Steps 1 to 4. */
  method SendImage(rx: OtaReceiver, image: seq<byte>, tape: Tape, maxRetries: nat, ghost frames: seq<Frame>)
    returns (step: Step, next: nat, ghost acks: seq<seq<byte>>)
    requires rx.Valid() && rx.Contents() == [] && maxRetries >= 1
    requires frames == ScriptFrames(image, 1024)
    modifies rx, rx.rxBuf, rx.device, rx.device.slot1.cells
    ensures rx.Valid() && rx.Contents() == []
    ensures Progress(rx.device.Abs(), old(rx.device.Abs()),
                     if step == Go then Sending(|image|) else Before, image, tape)
    ensures step.Stop? ==> !PastVerification(step.stage) && step.stage != Finished
    ensures FirstPart(rx.device.Abs(), old(rx.device.Abs()), frames, step, tape, next)
    ensures Steady(tape) ==>
              FirstResult(rx.device.Abs(), old(rx.device.Abs()), image, step, acks, tape, next, maxRetries)
  {
    hide Progress, SingleEngine, Inv, Steady, At, TransferEnd, Story, Told, FirstPart, FirstResult, Introduced,
         Started, ScriptFrames, Split, Limit;
    ghost var s0 := rx.device.Abs();
    FirstFrames(image, 1024);
    StoryStarts(s0, frames, tape);
    acks := [];
    rx.device.ValidInv();
    ProgressStarts(s0, image, tape);
    step, next := Introduce(rx, image, tape, 0, maxRetries, s0, frames);
    if step.Stop? {
      FirstPartEarly(rx.device.Abs(), s0, frames, step, tape, next);
      if Steady(tape) {
        StopsIntroduced(s0, image, step, acks, tape, next, maxRetries);
      }
      return;
    }
    ghost var t := next;
    var chunk;
    step, chunk, next := Start(rx, image, tape, next, maxRetries, s0, frames);
    ghost var s1 := rx.device.Abs();
    if step.Stop? {
      FirstPartEarly(s1, s0, frames, step, tape, next);
      if Steady(tape) {
        StopsStarted(s1, s0, image, step, acks, tape, t, next, maxRetries);
      }
      return;
    }
    ghost var t' := next;
    step, next, acks := Transfer(rx, image, chunk, tape, next, maxRetries, s0, frames);
    FirstPartTold(rx.device.Abs(), s0, frames, step, tape, next);
    if Steady(tape) {
      GoesOn(rx.device.Abs(), s1, s0, image, step, acks, tape, t, t', next, maxRetries);
    }
  }

  /** The account after the first four steps. */
  ghost predicate FirstPart(s: State, s0: State, frames: seq<Frame>, step: Step, tape: Tape, next: nat)
    requires |frames| >= 7
  {
    match step
    case Go => Story(s, s0, frames, |frames| - 4, |frames| - 4, tape, next)
    case Stop(stage) => Over(s, s0, frames, stage, Limit(stage, |frames| - 7), tape)
  }

  lemma FirstPartEarly(s: State, s0: State, frames: seq<Frame>, step: Step, tape: Tape, next: nat)
    requires |frames| >= 7 && step.Stop?
    requires step.stage == Handshaking || step.stage == GettingDeviceInfo || step.stage == ErasingSlot
    requires Story(s, s0, frames, 0, Limit(step.stage, 0), tape, next)
    ensures FirstPart(s, s0, frames, step, tape, next)
  {
    hide Story, Over;
    StoryOver(s, s0, frames, 0, Limit(step.stage, 0), tape, next, step.stage, Limit(step.stage, |frames| - 7));
  }

  lemma FirstPartTold(s: State, s0: State, frames: seq<Frame>, step: Step, tape: Tape, next: nat)
    requires |frames| >= 7 && Told(s, s0, frames, step, tape, next)
    requires step.Stop? ==> step.stage == Transferring || step.stage == Cancelled
    ensures FirstPart(s, s0, frames, step, tape, next)
  {
    hide Story, Over;
  }

  lemma NotUploadable(s: State, image: seq<byte>)
    requires Inv(s)
    ensures |image| < WRAP ==>
              && FwSize(image) == |image|
              && (Uploadable(s, image) || s.rebooted || |image| > 0x20_0000 || Unwilling(s, image))
    ensures Untouched(s, s)
  {
    hide Inv;
    assert Sized(s) by { InvFacts(s); }
  }

  lemma UploadableFresh(s: State, image: seq<byte>)
    requires Uploadable(s, image)
    ensures At(s, Fresh, image) && FwSize(image) <= 0x20_0000 && !s.rebooted
  {
    hide Inv;
  }

  /**
    The state a successful run leaves is one the next run cannot leave: even on a faultless link the script
    then stops at the start, for any image the device has the flash for.
   */
  lemma {:induction false} SecondRunStops(s: State, image: seq<byte>, image': seq<byte>, tape: Tape, n: nat)
    requires At(s, Delivered, image) && Faultless(tape) && n >= 1
    ensures !Uploadable(s, image')
    ensures Rejection(s, image', tape, n) == if |image'| > 0x20_0000 then GettingDeviceInfo else ErasingSlot
  {
    assert Through(tape(0)) && Through(tape(InfoTime(tape, n)));
    assert !tape(0).cancelled && !tape(1).cancelled && !tape(InfoTime(tape, n)).cancelled;
    assert !tape(InfoTime(tape, n) + 1).cancelled;
  }

  lemma ProgressStarts(s: State, image: seq<byte>, tape: Tape)
    requires Inv(s)
    ensures Progress(s, s, Before, image, tape)
  {
    hide Inv;
  }

  /** Steps 5 to 8. */
  method Conclude(rx: OtaReceiver, image: seq<byte>, tape: Tape, t: nat, maxRetries: nat, ghost m: Mode,
                  ghost s0: State, ghost frames: seq<Frame>)
    returns (step: Step, next: nat)
    requires rx.Valid() && rx.Contents() == [] && maxRetries >= 1
    requires Progress(rx.device.Abs(), s0, Sending(|image|), image, tape)
    requires frames == ScriptFrames(image, 1024)
    requires Story(rx.device.Abs(), s0, frames, |frames| - 4, |frames| - 4, tape, t)
    modifies rx, rx.rxBuf, rx.device, rx.device.slot1.cells
    ensures rx.Valid() && rx.Contents() == []
    ensures step.Stop? ==> step.stage != Finished
    ensures LastPart(rx.device.Abs(), s0, frames, step, tape, next)
    ensures Progress(rx.device.Abs(), s0,
                     if step == Go || PastVerification(step.stage) then Spent else Before, image, tape)
    ensures Steady(tape) ==> LastResult(rx.device.Abs(), old(rx.device.Abs()), image, m, step, tape, t, maxRetries)
  {
    hide Progress, Steady, Story, ScriptFrames, LastPart, Limit, DoneSent, CheckResult, LastResult, Message, Le16,
         DoneFrame, ModeDone;
    ghost var s := rx.device.Abs();
    LimitsAtEnd(|frames| - 7);
    LastFrames(image, 1024);
    step, next := CompleteTransfer(rx, image, tape, t, maxRetries, m, s0, frames, |frames| - 4);
    if step.Stop? {
      LastPartStopped(rx.device.Abs(), s0, frames, step.stage, |frames| - 3, tape, next);
      if Steady(tape) {
        DoneThenStop(rx.device.Abs(), s, image, m, step, tape, t, next, maxRetries);
      }
      return;
    }
    ghost var s1, t1 := rx.device.Abs(), next;
    step, next := CheckAndActivate(rx, image, tape, next, maxRetries, ModeDone(m, image), s0, frames);
    if Steady(tape) {
      DoneThenCheck(rx.device.Abs(), s1, s, image, m, step, tape, t, t1, maxRetries);
    }
  }

  /** Steps 6 to 8. */
  method CheckAndActivate(rx: OtaReceiver, image: seq<byte>, tape: Tape, t: nat, maxRetries: nat, ghost m: Mode,
                          ghost s0: State, ghost frames: seq<Frame>)
    returns (step: Step, next: nat)
    requires rx.Valid() && rx.Contents() == [] && maxRetries >= 1
    requires Progress(rx.device.Abs(), s0, Finishing, image, tape)
    requires frames == ScriptFrames(image, 1024)
    requires Story(rx.device.Abs(), s0, frames, |frames| - 3, |frames| - 3, tape, t)
    modifies rx, rx.rxBuf, rx.device, rx.device.slot1.cells
    ensures rx.Valid() && rx.Contents() == []
    ensures step.Stop? ==> step.stage != Finished
    ensures LastPart(rx.device.Abs(), s0, frames, step, tape, next)
    ensures Progress(rx.device.Abs(), s0,
                     if step == Go || PastVerification(step.stage) then Spent else Before, image, tape)
    ensures Steady(tape) ==> CheckResult(rx.device.Abs(), old(rx.device.Abs()), image, m, step, tape, t, maxRetries)
  {
    hide Progress, Steady, Story, ScriptFrames, LastPart, Limit, VerifySent, ActivationSent, CheckResult, Message, Le16;
    ghost var s := rx.device.Abs();
    LimitsAtEnd(|frames| - 7);
    LastFrames(image, 1024);
    step, next := Verify(rx, image, tape, t, maxRetries, m, s0, frames, |frames| - 3);
    if step.Stop? {
      LastPartStopped(rx.device.Abs(), s0, frames, step.stage, |frames| - 2, tape, next);
      if Steady(tape) {
        VerifyThenStop(rx.device.Abs(), s, image, m, step, tape, t, next, maxRetries);
      }
      return;
    }
    ghost var s1, t1 := rx.device.Abs(), next;
    step, next := Activate(rx, image, tape, next, maxRetries, s0, frames, |frames| - 2);
    if step.Stop? {
      LastPartStopped(rx.device.Abs(), s0, frames, step.stage,
                      if step.stage == SettingBootFlag then |frames| - 1 else |frames|, tape, next);
    } else {
      LastPartDone(rx.device.Abs(), s0, frames, tape, next);
    }
    if Steady(tape) {
      VerifyThenActivate(rx.device.Abs(), s1, s, image, m, step, tape, t, t1, maxRetries);
    }
  }

  /** How the undisturbed last four steps, and the last three, end. */
  predicate LastResult(s: State, s0: State, image: seq<byte>, m: Mode, step: Step, tape: Tape, t: nat, n: nat) {
    At(s0, m, image) && (m == Flowing(|image|) || m.Broken?) ==>
      var end := Concluded(m, image, tape, t, n);
      step == StepTo(end) && (PastVerification(end) ==> At(s, Delivered, image))
  }

  predicate CheckResult(s: State, s0: State, image: seq<byte>, m: Mode, step: Step, tape: Tape, t: nat, n: nat) {
    At(s0, m, image) && (m == Checkable || m.Broken?) ==>
      var end := Checked(m, tape, t, n);
      step == StepTo(end) && (PastVerification(end) ==> At(s, Delivered, image))
  }

  lemma DoneThenStop(s: State, s0: State, image: seq<byte>, m: Mode, step: Step, tape: Tape, t: nat, next: nat, n: nat)
    requires step.Stop? && DoneSent(s, s0, image, m, step, tape, t, next, n)
    ensures LastResult(s, s0, image, m, step, tape, t, n)
  {
    hide At, Clear, After;
  }

  lemma DoneThenCheck(s: State, s1: State, s0: State, image: seq<byte>, m: Mode, step: Step, tape: Tape, t: nat,
                      t1: nat, n: nat)
    requires DoneSent(s1, s0, image, m, Go, tape, t, t1, n)
    requires CheckResult(s, s1, image, ModeDone(m, image), step, tape, t1, n)
    ensures LastResult(s, s0, image, m, step, tape, t, n)
  {
    hide At, Clear, After, Checked;
  }

  lemma VerifyThenStop(s: State, s0: State, image: seq<byte>, m: Mode, step: Step, tape: Tape, t: nat, next: nat,
                       n: nat)
    requires step.Stop? && VerifySent(s, s0, image, m, step, tape, t, next, n)
    ensures CheckResult(s, s0, image, m, step, tape, t, n)
  {
    hide At, ClearOnce, After;
  }

  lemma VerifyThenActivate(s: State, s1: State, s0: State, image: seq<byte>, m: Mode, step: Step, tape: Tape, t: nat,
                           t1: nat, n: nat)
    requires VerifySent(s1, s0, image, m, Go, tape, t, t1, n)
    requires ActivationSent(s, s1, image, step, tape, t1, n)
    ensures CheckResult(s, s0, image, m, step, tape, t, n)
  {
    hide At, ClearOnce, After, Activated;
  }

  /** The account after the last four steps. */
  ghost predicate LastPart(s: State, s0: State, frames: seq<Frame>, step: Step, tape: Tape, next: nat)
    requires |frames| >= 7
  {
    match step
    case Go => Story(s, s0, frames, |frames|, |frames|, tape, next)
    case Stop(stage) => Over(s, s0, frames, stage, Limit(stage, |frames| - 7), tape)
  }

  lemma LastPartStopped(s: State, s0: State, frames: seq<Frame>, stage: UpgradeStage, tried: nat, tape: Tape,
                        next: nat)
    requires |frames| >= 7 && stage != Cancelled && tried <= Limit(stage, |frames| - 7)
    requires Story(s, s0, frames, 0, tried, tape, next)
    ensures LastPart(s, s0, frames, Stop(stage), tape, next)
  {
    hide Story, Over;
    StoryOver(s, s0, frames, 0, tried, tape, next, stage, Limit(stage, |frames| - 7));
  }

  lemma LimitsAtEnd(k: nat)
    ensures Limit(Completing, k) == k + 4 && Limit(VerifyingImage, k) == k + 5
    ensures Limit(SettingBootFlag, k) == k + 6 && Limit(Resetting, k) == k + 7
  {
  }

  lemma LastPartDone(s: State, s0: State, frames: seq<Frame>, tape: Tape, next: nat)
    requires |frames| >= 7 && Story(s, s0, frames, |frames|, |frames|, tape, next)
    ensures LastPart(s, s0, frames, Go, tape, next)
  {
    hide Story;
  }

  function StepTo(end: UpgradeStage): Step {
    if end == Finished then Go else Stop(end)
  }

  /** Where the last four steps stop, from time `t` on; the last three; and the last two. */
  function Concluded(m: Mode, image: seq<byte>, tape: Tape, t: nat, n: nat): UpgradeStage {
    if !Clear(tape, t, n) then Completing else Checked(ModeDone(m, image), tape, After(tape, t, n) + 1, n)
  }

  function Checked(m: Mode, tape: Tape, t: nat, n: nat): UpgradeStage {
    if m != Checkable || !ClearOnce(tape, t, n) then VerifyingImage else Activated(tape, After(tape, t, n) + 1, n)
  }

  function Activated(tape: Tape, t: nat, n: nat): UpgradeStage {
    if !Clear(tape, t, n) then SettingBootFlag
    else if !Gets(tape, After(tape, t, n) + 1, n) then Resetting
    else Finished
  }

  lemma ConcludedIsEnding(m: Mode, image: seq<byte>, tape: Tape, n: nat)
    requires var k := |Split(image, 1024)|;
             m == Landed(image, 1024, CleanPackets(tape, DataTime(tape, n), n, k))
    ensures var k := |Split(image, 1024)|;
            Concluded(m, image, tape, DoneTime(tape, n, k), n) == Ending(tape, n, k)
    ensures m == Flowing(|image|) || m.Broken?
  {
    hide Split, Gets, After, Clear, ClearOnce, CleanPackets, DataTime, PacketsEnd, Landed, ModeDone;
    LandedComplete(image, 1024, CleanPackets(tape, DataTime(tape, n), n, |Split(image, 1024)|));
  }

  datatype Outcome = Outcome(ok: bool, stage: UpgradeStage)

  /**
    The whole upgrade script.

    Safety, for every image, every loss of requests and replies, every retry, cancel, flash fault and
    interleaved frame that is not another engine's: once the engine is past its verification, slot1
    begins with the firmware file.

    The script never activates the image: whatever it reports, the device has not rebooted and the boot
    flag has not been raised unless somebody else did it.

    Account, under the same conditions and against any other engine: the log lists attempts with the script's
    frames, in order, none made under a set cancel flag, and their replay is what became of the device. Only
    a stop between packets adds one cancel command, which leaves an idle device if it arrives.

    Recovery, when nothing interferes but the link and the user: the step the script stops at is determined
    by the state of the device at the beginning, by which requests and replies got through and by when the
    cancel flag was set (see Recovery.SurvivesIff). Past the verification the image is in slot1. A device that
    is not idle or complete, or has no room for the image, keeps its slot1 and its status.

    Completeness, on a faultless link: every packet is acknowledged with exactly the bytes sent so far,
    the image arrives and verifies, and the engine reports success.
   */
  method DoUpgrade(rx: OtaReceiver, image: seq<byte>, tape: Tape, maxRetries: nat)
    returns (r: Outcome, ghost acks: seq<seq<byte>>, ghost log: seq<Entry>, ghost end: nat)
    requires rx.Valid() && rx.Contents() == [] && maxRetries >= 1
    modifies rx, rx.rxBuf, rx.device, rx.device.slot1.cells
    ensures rx.Valid() && rx.Contents() == []
    ensures r.ok <==> r.stage == Finished
    ensures Accounted(rx.device.Abs(), old(rx.device.Abs()), image, r, tape, log, end)
    ensures SingleEngine(tape) && PastVerification(r.stage) ==> BeginsWith(rx.device.Abs().slot1, image)
    ensures SingleEngine(tape) && NobodyElseActivates(tape) ==> NotActivated(rx.device.Abs(), old(rx.device.Abs()))
    ensures Steady(tape) && |image| < WRAP ==>
              UndisturbedEnd(rx.device.Abs(), old(rx.device.Abs()), image, r, acks, tape, maxRetries)
    ensures Faultless(tape) && Uploadable(old(rx.device.Abs()), image) ==>
              FaultlessEnd(rx.device.Abs(), old(rx.device.Abs()), image, r, acks)
  {
    hide NotActivated, Progress, Split, ExactAcks, SingleEngine, NobodyElseActivates, At, Steady, Uploadable, Faultless,
         FirstResult, LastResult, UndisturbedEnd, Accounted, Story, Over, LastPart, ScriptFrames;
    ghost var frames := ScriptFrames(image, 1024);
    ghost var s0 := rx.device.Abs();
    SteadyIsSafe(tape);
    var step, next;
    step, next, acks := SendImage(rx, image, tape, maxRetries, frames);
    ghost var s1, t := rx.device.Abs(), next;
    if step.Stop? {
      UnpackProgress(s1, s0, Before, image, tape);
      log, end := AccountFirst(s1, s0, image, step, tape, next);
      if Steady(tape) {
        EndsEarly(s1, s0, image, step, acks, tape, next, maxRetries);
      }
      return Outcome(false, step.stage), acks, log, end;
    }
    ghost var m := if Steady(tape) then Arrived(image, tape, maxRetries) else Checkable;
    step, next := Conclude(rx, image, tape, next, maxRetries, m, s0, frames);
    UnpackProgress(rx.device.Abs(), s0, Before, image, tape);
    UnpackProgress(rx.device.Abs(), s0, Spent, image, tape);
    log, end := AccountLast(rx.device.Abs(), s0, image, step, tape, next);
    r := if step == Go then Outcome(true, Finished) else Outcome(false, step.stage);
    if Steady(tape) {
      EndsLate(rx.device.Abs(), s1, s0, image, step, acks, tape, t, maxRetries);
    }
  }

  /**
    How a run ends that nothing but the link and the user disturbs: at the stage the script's end predicts,
    with the image in slot1 if that is past the verification, with exact acknowledgements if no packet came
    twice, and with an untouched device if that would not take the image.
   */
  ghost predicate UndisturbedEnd(s: State, s0: State, image: seq<byte>, r: Outcome, acks: seq<seq<byte>>, tape: Tape,
                                 n: nat) {
    var end := ScriptEnd(s0, image, tape, n);
    var k := |Split(image, 1024)|;
    && r == Outcome(end == Finished, end)
    && (PastVerification(end) ==> At(s, Delivered, image))
    && (PastVerification(end) && CleanPackets(tape, DataTime(tape, n), n, k) == k ==>
          ExactAcks(acks, Split(image, 1024)))
    && (!Uploadable(s0, image) ==> Untouched(s, s0))
  }

  /** How a run ends that nothing disturbs at all. */
  ghost predicate FaultlessEnd(s: State, s0: State, image: seq<byte>, r: Outcome, acks: seq<seq<byte>>) {
    && r == Outcome(true, Finished)
    && At(s, Delivered, image)
    && ExactAcks(acks, Split(image, 1024))
    && NotActivated(s, s0)
  }

  /** The declared part of the firmware file, which below 4 GiB is all of it, is at the beginning of the slot. */
  predicate BeginsWith(cells: seq<byte>, image: seq<byte>) {
    FwSize(image) <= |cells| && cells[..FwSize(image)] == image[..FwSize(image)]
  }

  /** The mode in which the last steps find the device. */
  function Arrived(image: seq<byte>, tape: Tape, n: nat): Mode {
    Landed(image, 1024, CleanPackets(tape, DataTime(tape, n), n, |Split(image, 1024)|))
  }

  lemma EndsEarly(s: State, s0: State, image: seq<byte>, step: Step, acks: seq<seq<byte>>, tape: Tape, next: nat,
                  n: nat)
    requires step.Stop? && !PastVerification(step.stage) && FirstResult(s, s0, image, step, acks, tape, next, n)
    ensures |image| < WRAP ==>
              UndisturbedEnd(s, s0, image, Outcome(false, step.stage), acks, tape, n)
    ensures Faultless(tape) && Uploadable(s0, image) && n >= 1 ==> false
  {
    hide Split, Fate, Rejection, Untouched, At, ExactAcks, CleanPackets, DataTime, Uploadable, Faultless;
    if Faultless(tape) && n >= 1 {
      FaultlessFate(tape, n, |Split(image, 1024)|);
    }
  }

  lemma EndsLate(s: State, s1: State, s0: State, image: seq<byte>, step: Step, acks: seq<seq<byte>>, tape: Tape, t: nat,
                 n: nat)
    requires FirstResult(s1, s0, image, Go, acks, tape, t, n)
    requires LastResult(s, s1, image, Arrived(image, tape, n), step, tape, t, n)
    ensures var r := if step == Go then Outcome(true, Finished) else Outcome(false, step.stage);
            && (|image| < WRAP ==> UndisturbedEnd(s, s0, image, r, acks, tape, n))
            && (Faultless(tape) && Uploadable(s0, image) && n >= 1 ==>
                  && r == Outcome(true, Finished) && At(s, Delivered, image)
                  && ExactAcks(acks, Split(image, 1024)))
  {
    hide Split, Fate, Ending, Untouched, At, ExactAcks, PacketsStep, PacketsEnd, CleanPackets, DataTime, Concluded,
         Landed, Uploadable, Faultless;
    if Uploadable(s0, image) {
      ConcludedIsEnding(Arrived(image, tape, n), image, tape, n);
      UploadableFresh(s0, image);
    }
    if Faultless(tape) && n >= 1 {
      FaultlessFate(tape, n, |Split(image, 1024)|);
    }
  }

  /**
    A complete account of a run: the log is in the script's order, goes no further than the stage allows,
    and leads to the device's state; a run that succeeds has tried every frame, and one that was stopped
    between packets has left a running device idle if its cancel arrived.
   */
  ghost predicate Accounted(s: State, s0: State, image: seq<byte>, r: Outcome, tape: Tape, log: seq<Entry>, end: nat) {
    var frames := ScriptFrames(image, 1024);
    && OverAt(s, s0, frames, r.stage, Limit(r.stage, |frames| - 7), tape, log, end)
    && (r.ok ==> Tried(log) == |frames|)
    && (r.stage == Cancelled ==> EndsCancelled(s, tape(end)))
  }

  lemma Account(s: State, s0: State, image: seq<byte>, stage: UpgradeStage, tape: Tape)
    returns (log: seq<Entry>, end: nat)
    requires var frames := ScriptFrames(image, 1024); Over(s, s0, frames, stage, Limit(stage, |frames| - 7), tape)
    ensures Accounted(s, s0, image, Outcome(false, stage), tape, log, end)
  {
    hide Replay, Orderly, Aftermath, EndsCancelled, ScriptFrames, Limit;
    var frames := ScriptFrames(image, 1024);
    log, end :| OverAt(s, s0, frames, stage, Limit(stage, |frames| - 7), tape, log, end);
    if stage == Cancelled {
      CancelLeavesIdle(Replay(s0, log, tape), tape(end));
    }
  }

  lemma AccountFirst(s: State, s0: State, image: seq<byte>, step: Step, tape: Tape, next: nat)
    returns (log: seq<Entry>, end: nat)
    requires step.Stop? && FirstPart(s, s0, ScriptFrames(image, 1024), step, tape, next)
    ensures Accounted(s, s0, image, Outcome(false, step.stage), tape, log, end)
  {
    hide Over, Accounted, ScriptFrames, Limit;
    log, end := Account(s, s0, image, step.stage, tape);
  }

  lemma AccountLast(s: State, s0: State, image: seq<byte>, step: Step, tape: Tape, next: nat)
    returns (log: seq<Entry>, end: nat)
    requires LastPart(s, s0, ScriptFrames(image, 1024), step, tape, next)
    ensures Accounted(s, s0, image, if step == Go then Outcome(true, Finished) else Outcome(false, step.stage), tape,
                      log, end)
  {
    hide Replay, Orderly, ScriptFrames;
    var frames := ScriptFrames(image, 1024);
    if step == Go {
      log :| s == Replay(s0, log, tape) && Orderly(log, frames, tape, next) && |frames| <= Tried(log) <= |frames|;
      end := next;
    } else {
      log, end := Account(s, s0, image, step.stage, tape);
    }
  }

  lemma LandedComplete(image: seq<byte>, chunk: nat, clean: nat)
    requires chunk > 0
    ensures var m := Landed(image, chunk, clean);
            && (m == Flowing(|image|) || m.Broken?)
            && (ModeDone(m, image) == Checkable <==> clean + 1 >= |Split(image, chunk)|)
            && (ModeDone(m, image) == Checkable || ModeDone(m, image).Broken?)
  {
    hide Split, Covered;
    PacketsCover(image, chunk);
    if clean < |Split(image, chunk)| {
      PacketOf(image, chunk, clean);
      if clean + 1 < |Split(image, chunk)| {
        PacketOf(image, chunk, clean + 1);
      }
    }
  }

  lemma SteadyIsSafe(tape: Tape)
    ensures Faultless(tape) ==> Steady(tape)
    ensures Steady(tape) ==> SingleEngine(tape) && NobodyElseActivates(tape)
  {
    hide SingleEngine, NobodyElseActivates;
    if Steady(tape) {
      SteadyIsUndisturbed(tape);
    }
  }

  lemma FaultlessFate(tape: Tape, maxRetries: nat, k: nat)
    requires maxRetries >= 1
    ensures Faultless(tape) ==>
              && Steady(tape) && Fate(tape, maxRetries, k) == Finished
              && CleanPackets(tape, DataTime(tape, maxRetries), maxRetries, k) == k
  {
    hide Fate, CleanPackets, DataTime;
    if Faultless(tape) {
      forall i: nat ensures Quiet(tape(i)) && Through(tape(i)) {
      }
      forall t: nat ensures ArrivesWithin(tape, t, maxRetries) {
        assert Through(tape(t));
      }
      LostRequestsAreRepaired(tape, maxRetries, k);
    }
  }

  lemma UnpackProgress(s: State, s0: State, p: Phase, image: seq<byte>, tape: Tape)
    ensures Progress(s, s0, p, image, tape) && SingleEngine(tape) && NobodyElseActivates(tape) ==> NotActivated(s, s0)
    ensures Progress(s, s0, p, image, tape) && SingleEngine(tape) && p == Spent ==>
              BeginsWith(s.slot1, image)
  {
    hide Inv, NotActivated;
  }
}
