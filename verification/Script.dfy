/**
  What the script puts on the wire, whatever the link, the flash, the user and the rest of the program do:
  a log of its attempts that accounts for everything that happened to the device.
 */
module Script {
  import opened Bytes
  import opened Frames
  import opened Commands
  import opened Firmware
  import opened DeviceModel
  import opened EngineModel
  import opened Recovery

  /** The transfer requests for the packets of that size. */
  function PacketFrames(image: seq<byte>, chunk: nat): (frames: seq<Frame>)
    requires chunk > 0
    ensures |frames| == |Split(image, chunk)|
  {
    var packets := Split(image, chunk);
    seq(|packets|, i requires 0 <= i < |packets| =>
      TransferDataRequest(packets[i].offset, packets[i].data, i % 0x1_0000, |packets| % 0x1_0000))
  }

  /** Everything the script has to say, in order. */
  function ScriptFrames(image: seq<byte>, chunk: nat): (frames: seq<Frame>)
    requires chunk > 0
    ensures |frames| == |Split(image, chunk)| + 7
  {
    [Message(CMD_HANDSHAKE, []), Message(CMD_GET_DEVICE_INFO, []), StartFrame(image)]
    + PacketFrames(image, chunk)
    + [DoneFrame(image), Message(CMD_VERIFY_FIRMWARE, []), Message(CMD_SET_BOOT_FLAG, [0x01]),
       Message(CMD_RESET_RUN, Le16(100))]
  }

  lemma FirstFrames(image: seq<byte>, chunk: nat)
    requires chunk > 0
    ensures var frames := ScriptFrames(image, chunk);
            && frames[0] == Message(CMD_HANDSHAKE, []) && frames[1] == Message(CMD_GET_DEVICE_INFO, [])
            && frames[2] == StartFrame(image)
  {
    hide PacketFrames, StartFrame, DoneFrame;
  }

  lemma LastFrames(image: seq<byte>, chunk: nat)
    requires chunk > 0
    ensures var frames := ScriptFrames(image, chunk);
            var n := |frames|;
            && frames[n - 4] == DoneFrame(image) && frames[n - 3] == Message(CMD_VERIFY_FIRMWARE, [])
            && frames[n - 2] == Message(CMD_SET_BOOT_FLAG, [0x01]) && frames[n - 1] == Message(CMD_RESET_RUN, Le16(100))
  {
    hide PacketFrames, StartFrame, DoneFrame;
  }

  lemma PacketFrameAt(image: seq<byte>, chunk: nat, i: nat)
    requires chunk > 0 && i < |Split(image, chunk)|
    ensures var packets := Split(image, chunk);
            ScriptFrames(image, chunk)[i + 3] ==
              TransferDataRequest(packets[i].offset, packets[i].data, i % 0x1_0000, |packets| % 0x1_0000)
  {
    hide StartFrame, DoneFrame, Split;
    assert ScriptFrames(image, chunk)[i + 3] == PacketFrames(image, chunk)[i];
  }

  /** An attempt: at which time, and with which frame of the script. */
  datatype Entry = Entry(time: nat, which: nat, frame: WireFrame)

  /** What the attempts, and the frames of others that came with them, make of the device. */
  function Replay(s: State, log: seq<Entry>, tape: Tape): State
    decreases |log|
  {
    if log == [] then s
    else
      var last := log[|log| - 1];
      Attempt(Replay(s, log[..|log| - 1], tape), last.frame, tape(last.time)).state
  }

  /** How many frames of the script have been tried. */
  function Tried(log: seq<Entry>): nat {
    if log == [] then 0 else log[|log| - 1].which + 1
  }

  /**
    Attempts before time `now`, one at a time, each with the cancel flag clear: the script's frames from the
    first one on, in order, none left out, each any number of times.
   */
  predicate Orderly(log: seq<Entry>, frames: seq<Frame>, tape: Tape, now: nat)
    decreases |log|
  {
    log == [] ||
      var init := log[..|log| - 1];
      var last := log[|log| - 1];
      && last.time < now && !tape(last.time).cancelled
      && last.which < |frames| && last.frame == frames[last.which]
      && last.which <= Tried(init) <= last.which + 1
      && Orderly(init, frames, tape, last.time)
  }

  /** The device is where such attempts lead, and they have come to frame `lo` at least and `hi` at most. */
  ghost predicate Story(s: State, s0: State, frames: seq<Frame>, lo: nat, hi: nat, tape: Tape, now: nat) {
    exists log: seq<Entry> :: s == Replay(s0, log, tape) && Orderly(log, frames, tape, now) && lo <= Tried(log) <= hi
  }

  lemma StoryStarts(s: State, frames: seq<Frame>, tape: Tape)
    ensures Story(s, s, frames, 0, 0, tape, 0)
  {
    var log: seq<Entry> := [];
    assert s == Replay(s, log, tape);
  }

  lemma {:induction false} OrderlyLater(log: seq<Entry>, frames: seq<Frame>, tape: Tape, now: nat, later: nat)
    requires Orderly(log, frames, tape, now) && now <= later
    ensures Orderly(log, frames, tape, later)
  {
  }

  lemma StoryLater(s: State, s0: State, frames: seq<Frame>, lo: nat, hi: nat, tape: Tape, now: nat, lo': nat, hi': nat,
                   later: nat)
    requires Story(s, s0, frames, lo, hi, tape, now) && lo' <= lo && hi <= hi' && now <= later
    ensures Story(s, s0, frames, lo', hi', tape, later)
  {
    hide Replay, Orderly;
    var log: seq<Entry> :|
      s == Replay(s0, log, tape) && Orderly(log, frames, tape, now) && lo <= Tried(log) <= hi;
    OrderlyLater(log, frames, tape, now, later);
  }

  /** A send adds its attempts to the log: none once the flag is set. */
  lemma {:induction false} SendLog(s0: State, log: seq<Entry>, f: WireFrame, which: nat, frames: seq<Frame>, tape: Tape,
                                   t: nat, n: nat)
    returns (log': seq<Entry>)
    requires Orderly(log, frames, tape, t) && which <= Tried(log) <= which + 1
    requires which < |frames| && f == frames[which]
    ensures var r := Send(Replay(s0, log, tape), f, tape, t, n);
            && r.next >= t
            && r.state == Replay(s0, log', tape) && Orderly(log', frames, tape, r.next)
            && which <= Tried(log') <= which + 1
            && (r.reply.Some? ==> Tried(log') == which + 1)
    decreases n
  {
    hide Attempt;
    if n == 0 {
      log' := log;
    } else if tape(t).cancelled {
      OrderlyLater(log, frames, tape, t, t + 1);
      log' := log;
    } else {
      var longer := log + [Entry(t, which, f)];
      assert longer[..|longer| - 1] == log;
      var r := Attempt(Replay(s0, log, tape), f, tape(t));
      if r.reply.Some? {
        log' := longer;
      } else {
        log' := SendLog(s0, longer, f, which, frames, tape, t + 1, n - 1);
      }
    }
  }

  lemma {:induction false} SendStory(s: State, s0: State, f: WireFrame, which: nat, frames: seq<Frame>, tape: Tape,
                                     t: nat, n: nat)
    requires Story(s, s0, frames, which, which, tape, t)
    requires which < |frames| && f == frames[which]
    ensures var r := Send(s, f, tape, t, n);
            && r.next >= t
            && Story(r.state, s0, frames, 0, which + 1, tape, r.next)
            && Story(r.state, s0, frames, 0, which + 1, tape, r.next + 1)
            && (r.reply.Some? ==>
                  && Story(r.state, s0, frames, which + 1, which + 1, tape, r.next)
                  && Story(r.state, s0, frames, which + 1, which + 1, tape, r.next + 1))
  {
    hide Send, Replay, Orderly;
    var log: seq<Entry> :|
      s == Replay(s0, log, tape) && Orderly(log, frames, tape, t) && which <= Tried(log) <= which;
    var log' := SendLog(s0, log, f, which, frames, tape, t, n);
    var next := Send(s, f, tape, t, n).next;
    OrderlyLater(log', frames, tape, next, next + 1);
  }

  /** Once the cancel flag is set for good, nothing of the script reaches the device any more. */
  lemma {:induction false} SilentOnceCancelled(log: seq<Entry>, frames: seq<Frame>, tape: Tape, now: nat, c: nat)
    requires Orderly(log, frames, tape, now)
    requires forall t: nat :: t >= c ==> tape(t).cancelled
    ensures forall e :: e in log ==> e.time < c
    decreases |log|
  {
    if log != [] {
      var init := log[..|log| - 1];
      var last := log[|log| - 1];
      SilentOnceCancelled(init, frames, tape, last.time, c);
      assert log == init + [last];
    }
  }

  /** And a send begun under a set flag sends nothing. */
  lemma CancelledSendIsSilent(s: State, f: WireFrame, tape: Tape, t: nat, n: nat)
    requires tape(t).cancelled
    ensures var r := Send(s, f, tape, t, n);
            r.state == s && r.reply.None? && r.next <= t + 1
  {
  }

  /** The one frame outside the script: sent once when the flag is found set between packets, and not waited for. */
  function CancelFrame(): Frame {
    Message(CMD_CANCEL_UPGRADE, [])
  }

  /** What that does to the device. */
  function Aftermath(s: State, stage: UpgradeStage, tick: Tick): State {
    if stage == Cancelled && tick.arrives then Dispatch(s, CancelFrame(), tick.env).state else s
  }

  /** A cancel that arrived at a running device has left it idle, with an empty session. */
  predicate EndsCancelled(s: State, tick: Tick) {
    tick.arrives && !s.rebooted ==> s.status == Idle && s.receivedSize == 0 && !s.inProgress
  }

  lemma {:induction false} CancelLeavesIdle(s: State, tick: Tick)
    ensures var t := Aftermath(s, Cancelled, tick);
            && EndsCancelled(t, tick)
            && t.slot1 == s.slot1 && t.bootFlag == s.bootFlag && t.rebooted == s.rebooted
            && (!tick.arrives ==> t == s)
  {
  }

  /** How many frames the script can have tried when it stops at that stage. */
  function Limit(stage: UpgradeStage, k: nat): nat {
    match stage
    case Handshaking => 1
    case GettingDeviceInfo => 2
    case ErasingSlot => 3
    case Transferring => k + 3
    case Cancelled => k + 3
    case Completing => k + 4
    case VerifyingImage => k + 5
    case SettingBootFlag => k + 6
    case Resetting => k + 7
    case Finished => k + 7
  }

  /** The log and the end of a run that stopped at that stage. */
  ghost predicate OverAt(s: State, s0: State, frames: seq<Frame>, stage: UpgradeStage, hi: nat, tape: Tape,
                         log: seq<Entry>, end: nat) {
    && s == Aftermath(Replay(s0, log, tape), stage, tape(end))
    && Orderly(log, frames, tape, end) && Tried(log) <= hi
    && (stage == Cancelled ==> tape(end).cancelled)
  }

  ghost predicate Over(s: State, s0: State, frames: seq<Frame>, stage: UpgradeStage, hi: nat, tape: Tape) {
    exists log: seq<Entry>, end: nat :: OverAt(s, s0, frames, stage, hi, tape, log, end)
  }

  lemma StoryOver(s: State, s0: State, frames: seq<Frame>, lo: nat, hi: nat, tape: Tape, now: nat,
                  stage: UpgradeStage, hi': nat)
    requires Story(s, s0, frames, lo, hi, tape, now) && stage != Cancelled && hi <= hi'
    ensures Over(s, s0, frames, stage, hi', tape)
  {
    hide Replay, Orderly;
    var log: seq<Entry> :|
      s == Replay(s0, log, tape) && Orderly(log, frames, tape, now) && lo <= Tried(log) <= hi;
    assert OverAt(s, s0, frames, stage, hi', tape, log, now);
  }

  lemma CancelledOver(s: State, s0: State, frames: seq<Frame>, lo: nat, hi: nat, tape: Tape, now: nat, hi': nat)
    requires Story(s, s0, frames, lo, hi, tape, now) && tape(now).cancelled && hi <= hi'
    ensures Over(Aftermath(s, Cancelled, tape(now)), s0, frames, Cancelled, hi', tape)
  {
    hide Replay, Orderly, Aftermath;
    var log: seq<Entry> :|
      s == Replay(s0, log, tape) && Orderly(log, frames, tape, now) && lo <= Tried(log) <= hi;
    assert OverAt(Aftermath(s, Cancelled, tape(now)), s0, frames, Cancelled, hi', tape, log, now);
  }
}
