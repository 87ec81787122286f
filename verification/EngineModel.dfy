/**
  The PC's upgrade script against the device over a lossy link, as functions: what one send with
  retries does to the device, and the phases the device goes through.
 */
module EngineModel {
  import opened Bytes
  import opened Crc
  import opened Frames
  import opened Commands
  import opened FlashArea
  import opened DeviceModel
  import opened DeviceInvariant
  import opened ImageRuns
  import opened RxModel

  /** A request that reaches the device, in UART blocks of the given sizes and a last one with the remainder. */
  datatype Delivery = Delivery(frame: FittingFrame, env: Env, blocks: seq<nat>)

  /**
    One moment of the outside world: frames other parts of the program get through to the device,
    whether the cancel flag reads as set, whether the request and the reply survive the link, and in
    which blocks the request comes in.
   */
  datatype Tick = Tick(
    foreign: seq<Delivery>,
    cancelled: bool,
    arrives: bool,
    answers: bool,
    env: Env,
    blocks: seq<nat>)

  type Tape = nat -> Tick

  predicate Disruptive(command: u16) {
    command == CMD_START_UPGRADE || command == CMD_TRANSFER_DATA || command == CMD_TRANSFER_COMPLETE
  }

  predicate Activating(command: u16) {
    command == CMD_RESET_RUN || command == CMD_SET_BOOT_FLAG
  }

  /** Only one engine upgrades: nobody else sends start, transfer or transfer_done. */
  ghost predicate SingleEngine(tape: Tape) {
    forall i: nat, d :: d in tape(i).foreign ==> !Disruptive(d.frame.command)
  }

  /** Nobody else sends reset or set_boot_flag. */
  ghost predicate NobodyElseActivates(tape: Tape) {
    forall i: nat, d :: d in tape(i).foreign ==> !Activating(d.frame.command)
  }

  function Interfere(s: State, foreign: seq<Delivery>): State
    decreases |foreign|
  {
    if foreign == [] then s
    else Interfere(Dispatch(s, foreign[0].frame, foreign[0].env).state, foreign[1..])
  }

  function Attempt(s: State, f: WireFrame, tick: Tick): Response {
    var s := Interfere(s, tick.foreign);
    if !tick.arrives then Response(s, None)
    else
      var r := Dispatch(s, f, tick.env);
      if tick.answers then r else Response(r.state, None)
  }

  datatype Sent = Sent(state: State, reply: Option<Frame>, next: nat)

  /** A send with up to `attempts` tries; no reply means cancelled or given up. */
  function Send(s: State, f: WireFrame, tape: Tape, t: nat, attempts: nat): Sent
    decreases attempts
  {
    if attempts == 0 then Sent(s, None, t)
    else if tape(t).cancelled then Sent(s, None, t + 1)
    else
      var r := Attempt(s, f, tape(t));
      if r.reply.Some? then Sent(r.state, r.reply, t + 1)
      else Send(r.state, f, tape, t + 1, attempts - 1)
  }

  /** The size the engine declares: the file length in 32 bits. */
  function FwSize(image: seq<byte>): u32 {
    |image| % WRAP
  }

  datatype Phase =
    | Before                // anything may have happened to the device
    | Sending(sent: nat)    // our start was accepted and `sent` bytes have been offered
    | Finishing             // our transfer_done has been seen
    | Spent                 // our verification answered 0x00

  predicate In(s: State, p: Phase, image: seq<byte>) {
    && Inv(s)
    && match p
       case Before => true
       case Sending(sent) =>
         && Holds(s, image)
         && s.status != Complete && s.status != Verifying
         && (s.status == Receiving ==> s.receivedSize == sent)
       case Finishing =>
         && Holds(s, image)
         && s.status != Receiving
         && (s.status == Complete || s.status == Verifying ==> s.receivedSize == FwSize(image))
       case Spent =>
         && s.status != Receiving && s.status != Complete
         && FwSize(image) <= |s.slot1|
         && s.slot1[..FwSize(image)] == image[..FwSize(image)]
  }

  /** The transfer frame for the packet at position `sent`. */
  predicate IsPacket(f: Frame, image: seq<byte>, sent: nat, n: nat) {
    && f.command == CMD_TRANSFER_DATA
    && |f.data| == n + 4
    && 1 <= n && sent + n <= |image|
    && ReadLe32(f.data, 0) == sent % WRAP
    && f.data[4..] == image[sent..sent + n]
  }

  predicate IsDone(f: Frame, image: seq<byte>) {
    f.command == CMD_TRANSFER_COMPLETE && |f.data| == 8 && ReadLe32(f.data, 4) == FwSize(image)
  }

  /** Sending frame `f` takes the device from phase `p` to phase `q`. */
  predicate Moves(f: Frame, p: Phase, q: Phase, image: seq<byte>) {
    || (p == q && !Disruptive(f.command))
    || (p == q == Before)
    || (p.Sending? && q.Sending? && q.sent > p.sent && IsPacket(f, image, p.sent, q.sent - p.sent))
    || (p.Sending? && q == Finishing && IsDone(f, image))
  }

  lemma {:induction false} NeutralKeepsPhase(s: State, f: WireFrame, env: Env, p: Phase, image: seq<byte>)
    requires In(s, p, image) && !Disruptive(f.command)
    ensures In(Dispatch(s, f, env).state, p, image)
  {
    hide Crc32, Update, Inv;
    DispatchKeepsInv(s, f, env);
    SlotKept(s, f, env);
    var t := Dispatch(s, f, env).state;
    assert Holds(t, image) <== Holds(s, image) by { assert t.slot1[..0] == image[..0]; }
    if t.status == Verifying && s.status != Verifying {
      VerifyingWasComplete(s, f, env);
    }
  }

  lemma {:induction false} SlotKept(s: State, f: WireFrame, env: Env)
    requires !Disruptive(f.command)
    ensures var t := Dispatch(s, f, env).state;
            && t.slot1 == s.slot1
            && (t.receivedSize == s.receivedSize || (t.receivedSize == 0 && t.status == Idle))
            && (t.status == s.status || t.status == Idle || (s.status == Complete && Closed(t)))
  {
    hide Crc32;
  }

  lemma {:induction false} VerifyingWasComplete(s: State, f: WireFrame, env: Env)
    requires Dispatch(s, f, env).state.status == Verifying && s.status != Verifying
    ensures s.status == Complete
  {
    hide Crc32, Update;
  }

  lemma {:induction false} PacketMovesPhase(s: State, f: WireFrame, env: Env, p: Phase, q: Phase, image: seq<byte>)
    requires p.Sending? && q.Sending? && q.sent > p.sent && IsPacket(f, image, p.sent, q.sent - p.sent)
    requires In(s, p, image) || In(s, q, image)
    requires Dispatch(s, f, env).reply.Some?
    ensures In(Dispatch(s, f, env).state, q, image)
  {
    hide Crc32, Inv, Dispatch, TransferData, FromImage, Holds;
    InvFacts(s);
    DispatchKeepsInv(s, f, env);
    DispatchedTransfer(s, f, env);
    if s.status == Receiving {
      assert FromImage(f, image) by { PacketIsFromImage(f, image, p.sent, q.sent - p.sent); }
      DispatchKeepsPrefix(s, f, env, image);
    }
    if TransferData(s, f.data, env).reply[0] == 0x00 {
      AcceptedTransfer(s, f.data, env);
    } else {
      RefusedTransfer(s, f.data, env);
      if s.status != Receiving {
        NothingReceived(s, f, env, image);
      }
    }
  }

  lemma PacketIsFromImage(f: Frame, image: seq<byte>, sent: nat, n: nat)
    requires IsPacket(f, image, sent, n) && sent < WRAP
    ensures FromImage(f, image)
  {
  }

  lemma {:induction false} NothingReceived(s: State, f: WireFrame, env: Env, image: seq<byte>)
    requires s.status != Receiving && Holds(s, image) && f.command == CMD_TRANSFER_DATA
    ensures Holds(Dispatch(s, f, env).state, image)
  {
    hide Update;
  }

  lemma {:induction false} DoneMovesPhase(s: State, f: WireFrame, env: Env, p: Phase, image: seq<byte>)
    requires p.Sending? && IsDone(f, image)
    requires In(s, p, image) || In(s, Finishing, image)
    requires Dispatch(s, f, env).reply.Some?
    ensures In(Dispatch(s, f, env).state, Finishing, image)
  {
    hide Crc32, Update, Inv;
    DispatchKeepsInv(s, f, env);
    assert Window(f.data, env.stale, 8) == f.data;
    InvFacts(s);
  }

  lemma SilentMeansUnchanged(s: State, f: WireFrame, env: Env)
    ensures Dispatch(s, f, env).reply.None? ==> Dispatch(s, f, env).state == s
  {
  }

  lemma {:induction false} DispatchMoves(s: State, f: WireFrame, env: Env, p: Phase, q: Phase, image: seq<byte>)
    requires Moves(f, p, q, image) && (In(s, p, image) || In(s, q, image))
    ensures var r := Dispatch(s, f, env);
            if r.reply.Some? then In(r.state, q, image) else r.state == s
  {
    SilentMeansUnchanged(s, f, env);
    hide Dispatch, IsPacket, IsDone, Inv;
    if Dispatch(s, f, env).reply.None? {
    } else if p == q && !Disruptive(f.command) {
      NeutralKeepsPhase(s, f, env, p, image);
    } else if p == q == Before {
      DispatchKeepsInv(s, f, env);
    } else if q == Finishing {
      DoneMovesPhase(s, f, env, p, image);
    } else {
      PacketMovesPhase(s, f, env, p, q, image);
    }
  }

  predicate Neutral(foreign: seq<Delivery>) {
    forall d :: d in foreign ==> !Disruptive(d.frame.command)
  }

  lemma {:induction false} InterfereKeepsPhase(s: State, foreign: seq<Delivery>, p: Phase, image: seq<byte>)
    requires In(s, p, image) && Neutral(foreign)
    ensures In(Interfere(s, foreign), p, image)
    decreases |foreign|
  {
    hide Dispatch, In;
    if foreign != [] {
      assert foreign[0] in foreign;
      NeutralKeepsPhase(s, foreign[0].frame, foreign[0].env, p, image);
      InterfereKeepsPhase(Dispatch(s, foreign[0].frame, foreign[0].env).state, foreign[1..], p, image);
    }
  }

  /**
    A whole send, with its losses, duplicates, retries and interruptions: the device ends in one of the
    two phases, in the later one if a reply came back, and that reply is the device's answer to its last
    receipt of the frame.
   */
  lemma {:induction false} SendMoves(s: State, f: WireFrame, tape: Tape, t: nat, attempts: nat, p: Phase,
                                     q: Phase, image: seq<byte>)
    returns (s1: State, env: Env)
    requires SingleEngine(tape) && Moves(f, p, q, image) && (In(s, p, image) || In(s, q, image))
    ensures var r := Send(s, f, tape, t, attempts);
            && (In(r.state, p, image) || In(r.state, q, image))
            && (r.reply.Some? ==>
                  && In(r.state, q, image)
                  && (In(s1, p, image) || In(s1, q, image))
                  && Response(r.state, r.reply) == Dispatch(s1, f, env))
    decreases attempts
  {
    hide Dispatch, In, Moves, Interfere;
    s1, env := s, CALM;
    if attempts > 0 && !tape(t).cancelled {
      var tick := tape(t);
      assert Neutral(tick.foreign);
      var s' := Interfere(s, tick.foreign);
      if In(s, p, image) {
        InterfereKeepsPhase(s, tick.foreign, p, image);
      } else {
        InterfereKeepsPhase(s, tick.foreign, q, image);
      }
      DispatchMoves(s', f, tick.env, p, q, image);
      var r := Attempt(s, f, tick);
      if r.reply.Some? {
        s1, env := s', tick.env;
      } else {
        s1, env := SendMoves(r.state, f, tape, t + 1, attempts - 1, p, q, image);
      }
    }
  }

  /** An accepted start leaves an empty, erased session and advertises 1024-byte packets. */
  lemma {:induction false} StartAnswered(s: State, f: WireFrame, env: Env, image: seq<byte>)
    requires Inv(s) && f.command == CMD_START_UPGRADE
    requires var r := Dispatch(s, f, env).reply; r.Some? && r.value.data[0] == 0x00
    ensures In(Dispatch(s, f, env).state, Sending(0), image)
    ensures Dispatch(s, f, env).reply.value.data == [0x00] + Le16(MAX_PACKET_SIZE) + [100]
  {
    hide Crc32, Inv;
    DispatchKeepsInv(s, f, env);
    var t := Dispatch(s, f, env).state;
    assert t.slot1[..0] == image[..0];
  }

  /** A verification answer of 0x00 after our transfer_done means our whole image is in slot1. */
  lemma {:induction false} VerifyAnswered(s: State, f: WireFrame, env: Env, image: seq<byte>)
    requires In(s, Finishing, image) && f.command == CMD_VERIFY_FIRMWARE
    requires Dispatch(s, f, env).reply.Some?
    ensures var r := Dispatch(s, f, env);
            |r.reply.value.data| == 5 && (r.reply.value.data[0] == 0x00 ==> In(r.state, Spent, image))
  {
    hide Crc32, Inv;
    DispatchKeepsInv(s, f, env);
  }

  /** The device has not been sent into a reboot, nor its boot flag raised, since `s0`. */
  predicate NotActivated(s: State, s0: State) {
    s.rebooted == s0.rebooted && (s.bootFlag == s0.bootFlag || s.bootFlag == 0)
  }

  lemma {:induction false} DispatchActivates(s: State, f: WireFrame, env: Env)
    requires !Activating(f.command) || s.status != Complete
    ensures NotActivated(Dispatch(s, f, env).state, s)
  {
    hide Crc32, Update;
  }

  lemma {:induction false} InterfereActivates(s: State, foreign: seq<Delivery>)
    requires forall d :: d in foreign ==> !Activating(d.frame.command)
    ensures NotActivated(Interfere(s, foreign), s)
    decreases |foreign|
  {
    hide Dispatch;
    if foreign != [] {
      assert foreign[0] in foreign;
      DispatchActivates(s, foreign[0].frame, foreign[0].env);
      InterfereActivates(Dispatch(s, foreign[0].frame, foreign[0].env).state, foreign[1..]);
    }
  }

  /** No send activates the new image: before its verification the engine does not try, afterwards it is refused. */
  lemma {:induction false} SendActivates(s: State, f: WireFrame, tape: Tape, t: nat, attempts: nat, p: Phase,
                                         q: Phase, image: seq<byte>)
    requires SingleEngine(tape) && NobodyElseActivates(tape)
    requires Moves(f, p, q, image) && (In(s, p, image) || In(s, q, image))
    requires Activating(f.command) ==> p == q == Spent
    ensures NotActivated(Send(s, f, tape, t, attempts).state, s)
    decreases attempts
  {
    hide Dispatch, Inv, Moves, Interfere;
    if attempts > 0 && !tape(t).cancelled {
      var tick := tape(t);
      assert Neutral(tick.foreign);
      var s' := Interfere(s, tick.foreign);
      InterfereActivates(s, tick.foreign);
      if In(s, p, image) {
        InterfereKeepsPhase(s, tick.foreign, p, image);
      } else {
        InterfereKeepsPhase(s, tick.foreign, q, image);
      }
      DispatchMoves(s', f, tick.env, p, q, image);
      DispatchActivates(s', f, tick.env);
      var r := Attempt(s, f, tick);
      if r.reply.None? {
        SendActivates(r.state, f, tape, t + 1, attempts - 1, p, q, image);
      }
    }
  }

  /** Everything claimed about a possibly faulty run, at one point of the script. */
  ghost predicate Progress(s: State, s0: State, p: Phase, image: seq<byte>, tape: Tape) {
    SingleEngine(tape) ==>
      && In(s, p, image)
      && (NobodyElseActivates(tape) ==> NotActivated(s, s0))
  }

  lemma {:induction false} SendProgress(s: State, s0: State, f: WireFrame, tape: Tape, t: nat, attempts: nat,
                                        p: Phase, q: Phase, image: seq<byte>)
    returns (s1: State, env: Env)
    requires Progress(s, s0, p, image, tape) && Moves(f, p, q, image)
    requires Activating(f.command) ==> p == q == Spent
    ensures var r := Send(s, f, tape, t, attempts);
            && (r.reply.Some? ==>
                  && Progress(r.state, s0, q, image, tape)
                  && (SingleEngine(tape) ==>
                        && (In(s1, p, image) || In(s1, q, image))
                        && Response(r.state, r.reply) == Dispatch(s1, f, env)))
            && (Progress(r.state, s0, p, image, tape) || Progress(r.state, s0, q, image, tape))
  {
    hide In, Moves, Send, Dispatch;
    s1, env := s, CALM;
    if SingleEngine(tape) {
      s1, env := SendMoves(s, f, tape, t, attempts, p, q, image);
      if NobodyElseActivates(tape) {
        SendActivates(s, f, tape, t, attempts, p, q, image);
      }
    }
  }
}
