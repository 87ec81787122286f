/** What whole runs leave in slot1, and what a finished verification closes off. */
module ImageRuns {
  import opened Bytes
  import opened Crc
  import opened Frames
  import opened Commands
  import opened FlashArea
  import opened DeviceModel
  import opened DeviceInvariant
  import opened DeviceRuns

  /** A transfer of one image carries the image's own bytes for the offset it names; other commands are free. */
  predicate FromImage(f: Frame, image: seq<byte>) {
    f.command == CMD_TRANSFER_DATA && |f.data| >= 4 ==>
      var at := ReadLe32(f.data, 0);
      at + |f.data| - 4 <= |image| && f.data[4..] == image[at..at + |f.data| - 4]
  }

  /** The received part of slot1 is the beginning of the image. */
  predicate Holds(s: State, image: seq<byte>) {
    s.receivedSize <= |image| && s.receivedSize <= |s.slot1| && s.slot1[..s.receivedSize] == image[..s.receivedSize]
  }

  lemma {:induction false} DispatchKeepsPrefix(s: State, f: WireFrame, env: Env, image: seq<byte>)
    requires Inv(s) && Holds(s, image) && FromImage(f, image)
    ensures Holds(Dispatch(s, f, env).state, image)
  {
    hide Crc32, Update;
    var t := Dispatch(s, f, env).state;
    if f.command == CMD_TRANSFER_DATA && t != s {
      var n := s.receivedSize;
      var m := t.receivedSize;
      assert |t.slot1| == |s.slot1|;
      assert t.slot1[..n] == s.slot1[..n];
      if m != n {
        AcceptedTransfer(s, f.data, env);
        assert t.slot1[n..m] == f.data[4..] == image[n..m];
        assert t.slot1[..m] == t.slot1[..n] + t.slot1[n..m];
        assert image[..m] == image[..n] + image[n..m];
      }
    }
  }

  /**
    Prefix safety: whatever subset of one image's frames arrives, in whatever order and however often,
    and whatever the flash does, the received part of slot1 is the beginning of the image.
   */
  lemma {:induction false} PrefixSafety(s: State, image: seq<byte>, reqs: seq<Request>)
    requires Inv(s) && Holds(s, image)
    requires forall q :: q in reqs ==> FromImage(q.frame, image)
    ensures Holds(Run(s, reqs).state, image)
    decreases |reqs|
  {
    hide Inv, Holds, FromImage, Dispatch;
    if reqs != [] {
      var init := reqs[..|reqs| - 1];
      var q := reqs[|reqs| - 1];
      assert q in reqs;
      PrefixSafety(s, image, init);
      RunKeepsInv(s, init);
      DispatchKeepsPrefix(Run(s, init).state, q.frame, q.env, image);
    }
  }

  /** A start request that passes all of the device's checks, so that slot1 is about to be erased. */
  predicate PassesStart(s: State, f: Frame) {
    && !s.rebooted && Addressed(f)
    && f.command == CMD_START_UPGRADE && |f.data| >= 12
    && (s.status == Idle || s.status == Complete)
    && ReadLe32(f.data, 0) <= s.slotSize
  }

  predicate NoStartPasses(s: State, reqs: seq<Request>) {
    forall m: nat :: m < |reqs| ==> !PassesStart(Run(s, reqs[..m]).state, reqs[m].frame)
  }

  /** Outside RECEIVING, slot1 is frozen until a start passes its checks. */
  lemma {:induction false} FlashFrozen(s: State, reqs: seq<Request>)
    requires Inv(s) && s.status != Receiving && NoStartPasses(s, reqs)
    ensures var t := Run(s, reqs).state; t.slot1 == s.slot1 && t.status != Receiving
    decreases |reqs|
  {
    hide Inv, Dispatch, PassesStart;
    if reqs != [] {
      var n := |reqs| - 1;
      var init := reqs[..n];
      forall m: nat | m < n ensures !PassesStart(Run(s, init[..m]).state, init[m].frame) {
        assert init[..m] == reqs[..m];
      }
      FlashFrozen(s, init);
      FrozenStep(Run(s, init).state, reqs[n].frame, reqs[n].env);
    }
  }

  lemma {:induction false} FrozenStep(s: State, f: WireFrame, env: Env)
    requires s.status != Receiving && !PassesStart(s, f)
    ensures var t := Dispatch(s, f, env).state; t.slot1 == s.slot1 && t.status != Receiving
  {
    hide Crc32, Update;
  }

  lemma {:induction false} RunSplit(s: State, reqs: seq<Request>, k: nat)
    requires k <= |reqs|
    ensures Run(s, reqs).state == Run(Run(s, reqs[..k]).state, reqs[k..]).state
    decreases |reqs|
  {
    hide Dispatch;
    if k == |reqs| {
      assert reqs[..k] == reqs && reqs[k..] == [];
    } else {
      var init := reqs[..|reqs| - 1];
      RunSplit(s, init, k);
      assert init[..k] == reqs[..k];
      var later := reqs[k..];
      assert later[..|later| - 1] == init[k..];
    }
  }

  /**
    An accepted transfer_done means the image is in place: from start-up, under any sequence of one
    image's frames, slot1 then begins with as many bytes of the image as the reply acknowledges, and
    keeps them until the next start that passes its checks.
   */
  lemma {:induction false} DoneMeansInPlace(slot0Offset: u32, slot1: seq<byte>, image: seq<byte>,
                                            reqs: seq<Request>, k: nat)
    requires |slot1| + MAX_DATA < WRAP && k < |reqs|
    requires forall q :: q in reqs ==> FromImage(q.frame, image)
    requires Accepted(Run(Initial(slot0Offset, slot1), reqs[..k + 1]).trace[k], CMD_TRANSFER_COMPLETE)
    requires NoStartPasses(Run(Initial(slot0Offset, slot1), reqs[..k + 1]).state, reqs[k + 1..])
    ensures var s := Initial(slot0Offset, slot1);
            var n := AcknowledgedSize(Run(s, reqs[..k + 1]).trace[k]);
            var t := Run(s, reqs).state;
            n <= |image| && n <= |t.slot1| && t.slot1[..n] == image[..n]
  {
    hide Inv, Dispatch, FromImage, Accepted, AcknowledgedSize, NoStartPasses;
    var s := Initial(slot0Offset, slot1);
    InitialInv(slot0Offset, slot1);
    HoldsNothing(slot0Offset, slot1, image);
    var upTo := reqs[..k + 1];
    var before := Run(s, reqs[..k]).state;
    assert upTo[..k] == reqs[..k];
    assert Run(s, upTo) == Extend(Run(s, reqs[..k]), reqs[k]);
    RunKeepsInv(s, reqs[..k]);
    RunKeepsInv(s, upTo);
    assert forall q :: q in reqs[..k] ==> q in reqs;
    PrefixSafety(s, image, reqs[..k]);
    DoneIsComplete(before, reqs[k].frame, reqs[k].env);
    FlashFrozen(Run(s, upTo).state, reqs[k + 1..]);
    RunSplit(s, reqs, k + 1);
  }

  /**
    A transfer_done is accepted if and only if a session is in progress, in whatever status, and the
    declared size is what was received; even from ERROR it then completes the session.
   */
  lemma {:induction false} DoneAcceptedIff(s: State, f: WireFrame, env: Env)
    requires Inv(s) && !s.rebooted && Addressed(f) && f.command == CMD_TRANSFER_COMPLETE
    ensures var r := Dispatch(s, f, env);
            && (Accepted(Exchange(f.command, f.data, r.reply), CMD_TRANSFER_COMPLETE) <==>
                  s.status != Idle && ReadLe32(Window(f.data, env.stale, 8), 4) == s.receivedSize)
            && (r.state.status == Complete <==>
                  s.status != Idle && ReadLe32(Window(f.data, env.stale, 8), 4) == s.receivedSize)
            && r.state.slot1 == s.slot1 && r.state.receivedSize == s.receivedSize
  {
    hide Crc32, Inv;
    InvFacts(s);
  }

  lemma {:induction false} DoneIsComplete(s: State, f: WireFrame, env: Env)
    requires Accepted(Exchange(f.command, f.data, Dispatch(s, f, env).reply), CMD_TRANSFER_COMPLETE)
    ensures var r := Dispatch(s, f, env);
            && r.state.status == Complete
            && r.state.slot1 == s.slot1
            && AcknowledgedSize(Exchange(f.command, f.data, r.reply)) == s.receivedSize
  {
    hide Crc32, Update;
    Le32Reply(s.receivedSize);
  }

  /**
    What a reboot would start: whenever a reset or the arming of the boot flag is accepted, slot1 begins
    with the image, as far as the bytes accepted since the session's start.
   */
  lemma {:induction false} ActivationFindsImage(slot0Offset: u32, slot1: seq<byte>, image: seq<byte>,
        reqs: seq<Request>, k: nat)
    requires |slot1| + MAX_DATA < WRAP && k < |reqs|
    requires forall q :: q in reqs ==> FromImage(q.frame, image)
    requires var x := Run(Initial(slot0Offset, slot1), reqs[..k + 1]).trace[k];
             Accepted(x, CMD_RESET_RUN) || Armed(x)
    ensures var h := Run(Initial(slot0Offset, slot1), reqs[..k]);
            && h.state.status == Complete
            && Live(h.trace) == Some(h.state.receivedSize)
            && Holds(h.state, image)
  {
    hide Inv, Holds, Dispatch, FromImage, Accepted, Armed, Live, DoneBehind;
    var s := Initial(slot0Offset, slot1);
    InitialInv(slot0Offset, slot1);
    HoldsNothing(slot0Offset, slot1, image);
    var h := Run(s, reqs[..k]);
    assert reqs[..k + 1][..k] == reqs[..k];
    assert Run(s, reqs[..k + 1]) == Extend(h, reqs[k]);
    RunKeepsHistory(s, reqs[..k]);
    CompleteStep(h.state, reqs[k].frame, reqs[k].env);
    assert forall q :: q in reqs[..k] ==> q in reqs;
    PrefixSafety(s, image, reqs[..k]);
    InvFacts(h.state);
  }

  lemma HoldsNothing(slot0Offset: u32, slot1: seq<byte>, image: seq<byte>)
    requires |slot1| < WRAP
    ensures Holds(Initial(slot0Offset, slot1), image)
  {
    assert slot1[..0] == image[..0];
  }

  /** After a verification, in whichever way it ended. */
  predicate Closed(s: State) {
    s.status == Verifying || s.status == Error
  }

  /** A verification that ran to its end started in COMPLETE, and changes only status, CRC and error code. */
  lemma {:induction false} VerifyCloses(s: State, f: WireFrame, env: Env)
    requires Verified(Exchange(f.command, f.data, Dispatch(s, f, env).reply))
    ensures var t := Dispatch(s, f, env).state;
            && s.status == Complete && t.status == Verifying
            && t.slot1 == s.slot1 && t.bootFlag == s.bootFlag && !t.rebooted && !s.rebooted
  {
    hide Crc32;
  }

  /**
    After a verification no sequence of commands without cancel or transfer_done writes flash, arms the
    boot flag, reboots, or leaves VERIFYING and ERROR.
   */
  lemma {:induction false} VerifiedIsClosed(s: State, reqs: seq<Request>)
    requires Closed(s)
    requires forall q :: q in reqs ==> q.frame.command != CMD_CANCEL_UPGRADE && q.frame.command != CMD_TRANSFER_COMPLETE
    ensures var t := Run(s, reqs).state;
            && Closed(t)
            && t.slot1 == s.slot1
            && t.rebooted == s.rebooted
            && (t.bootFlag == s.bootFlag || t.bootFlag == 0)
    decreases |reqs|
  {
    hide Crc32, Update;
    if reqs != [] {
      var init := reqs[..|reqs| - 1];
      var q := reqs[|reqs| - 1];
      assert q in reqs;
      VerifiedIsClosed(s, init);
      ClosedStep(Run(s, init).state, q.frame, q.env);
    }
  }

  lemma {:induction false} ClosedStep(s: State, f: WireFrame, env: Env)
    requires Closed(s) && f.command != CMD_CANCEL_UPGRADE && f.command != CMD_TRANSFER_COMPLETE
    ensures var t := Dispatch(s, f, env).state;
            && Closed(t)
            && t.slot1 == s.slot1
            && t.rebooted == s.rebooted
            && (t.bootFlag == s.bootFlag || t.bootFlag == 0)
  {
    hide Crc32, Update;
  }

  /**
    The same from start-up, for every run: once exchange k is a verification that ran to its end, and if
    no cancel or transfer_done follows, then at the end slot1 is what was verified, the device has not
    rebooted, the boot flag has not gone up, and the status is VERIFYING or ERROR.
   */
  lemma {:induction false} VerifiedStaysClosed(slot0Offset: u32, slot1: seq<byte>, reqs: seq<Request>, k: nat)
    requires |slot1| < WRAP && k < |reqs|
    requires Verified(Run(Initial(slot0Offset, slot1), reqs).trace[k])
    requires forall m :: k < m < |reqs| ==>
               reqs[m].frame.command != CMD_CANCEL_UPGRADE && reqs[m].frame.command != CMD_TRANSFER_COMPLETE
    ensures var before := Run(Initial(slot0Offset, slot1), reqs[..k]).state;
            var t := Run(Initial(slot0Offset, slot1), reqs).state;
            && before.status == Complete
            && Closed(t)
            && t.slot1 == before.slot1
            && !t.rebooted
            && (t.bootFlag == before.bootFlag || t.bootFlag == 0)
  {
    hide Dispatch, Verified, Closed;
    var s := Initial(slot0Offset, slot1);
    var h := Run(s, reqs[..k]);
    var upTo := reqs[..k + 1];
    assert upTo[..k] == reqs[..k] && upTo[k] == reqs[k];
    assert Run(s, upTo) == Extend(h, reqs[k]);
    RunPrefix(s, reqs, k + 1);
    assert Run(s, reqs).trace[k] == Run(s, reqs).trace[..k + 1][k];
    VerifyCloses(h.state, reqs[k].frame, reqs[k].env);
    RunSplit(s, reqs, k + 1);
    VerifyingIsClosed(Run(s, upTo).state);
    VerifiedIsClosed(Run(s, upTo).state, reqs[k + 1..]);
  }

  lemma VerifyingIsClosed(s: State)
    requires s.status == Verifying
    ensures Closed(s)
  {
  }

  /**
    The only single command that makes a verified device bootable again is a transfer_done declaring
    the received size: set_boot_flag and reset, which the documented flow sends next, are refused.
   */
  lemma {:induction false} ReopenedOnlyByDone(s: State, f: WireFrame, env: Env)
    requires Inv(s) && Closed(s) && !s.rebooted
    ensures Dispatch(s, f, env).state.status == Complete <==>
            && Addressed(f) && f.command == CMD_TRANSFER_COMPLETE
            && ReadLe32(Window(f.data, env.stale, 8), 4) == s.receivedSize
  {
    hide Crc32, Update;
  }

  /** A reset is honoured if and only if the device is in COMPLETE, which verification leaves. */
  lemma {:induction false} RebootsIff(s: State, f: WireFrame, env: Env)
    requires !s.rebooted
    ensures Dispatch(s, f, env).state.rebooted <==> Addressed(f) && f.command == CMD_RESET_RUN && s.status == Complete
  {
    hide Crc32, Update;
  }

  /** The boot flag goes up only in COMPLETE, and nothing but an explicit zero takes it down: cancel leaves it. */
  lemma {:induction false} BootFlagIff(s: State, f: WireFrame, env: Env)
    requires !s.rebooted && Addressed(f)
    ensures var t := Dispatch(s, f, env).state;
            var setting := f.command == CMD_SET_BOOT_FLAG && f.data != [];
            && (t.bootFlag == 1 <==>
                  if setting && f.data[0] == 0x00 then false
                  else s.bootFlag == 1 || (setting && f.data[0] == 0x01 && s.status == Complete))
            && (t.bootFlag == s.bootFlag || setting)
  {
    hide Crc32, Update;
  }
}
