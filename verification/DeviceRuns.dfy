/** Properties of whole runs of the device: any frames, in any order, any number of times, under any faults. */
module DeviceRuns {
  import opened Bytes
  import opened Crc
  import opened Frames
  import opened Commands
  import opened FlashArea
  import opened DeviceModel
  import opened DeviceInvariant

  datatype Request = Request(frame: WireFrame, env: Env)

  /** What an observer on the wire sees of one command. */
  datatype Exchange = Exchange(command: u16, data: seq<byte>, reply: Option<Frame>)

  datatype History = History(state: State, trace: seq<Exchange>)

  function Run(s: State, reqs: seq<Request>): (h: History)
    ensures |h.trace| == |reqs|
    decreases |reqs|
  {
    if reqs == [] then History(s, [])
    else
      var h := Run(s, reqs[..|reqs| - 1]);
      Extend(h, reqs[|reqs| - 1])
  }

  function Extend(h: History, q: Request): History {
    var r := Dispatch(h.state, q.frame, q.env);
    History(r.state, h.trace + [Exchange(q.frame.command, q.frame.data, r.reply)])
  }

  lemma {:induction false} RunPrefix(s: State, reqs: seq<Request>, k: nat)
    requires k <= |reqs|
    ensures Run(s, reqs).trace[..k] == Run(s, reqs[..k]).trace
    decreases |reqs|
  {
    if k == |reqs| {
      assert reqs[..k] == reqs;
    } else {
      var init := reqs[..|reqs| - 1];
      RunPrefix(s, init, k);
      assert init[..k] == reqs[..k];
    }
  }

  lemma {:induction false} RunKeepsInv(s: State, reqs: seq<Request>)
    requires Inv(s)
    ensures Inv(Run(s, reqs).state)
    decreases |reqs|
  {
    hide Inv, Dispatch;
    if reqs != [] {
      var init := reqs[..|reqs| - 1];
      RunKeepsInv(s, init);
      DispatchKeepsInv(Run(s, init).state, reqs[|reqs| - 1].frame, reqs[|reqs| - 1].env);
    }
  }

  // ---------------------------------------------------------------- reading a trace

  predicate Accepted(x: Exchange, command: u16) {
    x.command == command && x.reply.Some? && x.reply.value.data != [] && x.reply.value.data[0] == 0x00
  }

  /** The verification ran to its end, whichever way the CRC comparison went. */
  predicate Verified(x: Exchange) {
    x.command == CMD_VERIFY_FIRMWARE && x.reply.Some? && x.reply.value.data != [] && x.reply.value.data[0] != 0xFF
  }

  predicate Armed(x: Exchange) {
    Accepted(x, CMD_SET_BOOT_FLAG) && x.data != [] && x.data[0] == 0x01
  }

  function TransferredBytes(x: Exchange): nat {
    if Accepted(x, CMD_TRANSFER_DATA) && |x.data| >= 4 then |x.data| - 4 else 0
  }

  function SumTransferred(trace: seq<Exchange>): nat {
    if trace == [] then 0
    else SumTransferred(trace[..|trace| - 1]) + TransferredBytes(trace[|trace| - 1])
  }

  function AcknowledgedSize(x: Exchange): u32 {
    if x.reply.Some? && |x.reply.value.data| >= 5 then ReadLe32(x.reply.value.data, 1) else 0
  }

  /** Bytes accepted since the last accepted start, if no cancel was accepted since. */
  function Live(trace: seq<Exchange>): Option<nat>
    decreases |trace|
  {
    if trace == [] then None
    else
      var last := trace[|trace| - 1];
      if Accepted(last, CMD_START_UPGRADE) then Some(0)
      else if Accepted(last, CMD_CANCEL_UPGRADE) then None
      else
        match Live(trace[..|trace| - 1])
        case None => None
        case Some(n) => Some(n + TransferredBytes(last))
  }

  predicate NoRestart(x: Exchange) {
    !Accepted(x, CMD_START_UPGRADE) && !Accepted(x, CMD_CANCEL_UPGRADE)
  }

  predicate Undisturbed(x: Exchange) {
    && NoRestart(x)
    && !Accepted(x, CMD_TRANSFER_DATA)
    && !Verified(x)
  }

  /** The last thing of consequence is an accepted transfer_done whose size is the bytes accepted before it. */
  predicate DoneBehind(trace: seq<Exchange>)
    decreases |trace|
  {
    if trace == [] then false
    else
      var init := trace[..|trace| - 1];
      var last := trace[|trace| - 1];
      if Accepted(last, CMD_TRANSFER_COMPLETE) then
        && Live(init) == Some(AcknowledgedSize(last))
        && (|last.data| >= 8 ==> ReadLe32(last.data, 4) == AcknowledgedSize(last))
      else Undisturbed(last) && DoneBehind(init)
  }

  predicate Cleared(x: Exchange) {
    Accepted(x, CMD_SET_BOOT_FLAG) && x.data != [] && x.data[0] == 0x00
  }

  /** The last exchange that touched the boot flag raised it. */
  predicate Raised(trace: seq<Exchange>)
    decreases |trace|
  {
    trace != [] &&
      var last := trace[|trace| - 1];
      Armed(last) || (!Cleared(last) && Raised(trace[..|trace| - 1]))
  }

  predicate HistoryInv(h: History) {
    && Inv(h.state)
    && (h.state.inProgress ==> Live(h.trace) == Some(h.state.receivedSize))
    && (h.state.status == Complete ==> DoneBehind(h.trace))
    && (h.state.bootFlag == 1 <==> Raised(h.trace))
  }

  lemma {:induction false} LastOfExtended(h: History, q: Request)
    ensures var t := Extend(h, q).trace;
            && t[..|t| - 1] == h.trace
            && t[|t| - 1] == Exchange(q.frame.command, q.frame.data, Dispatch(h.state, q.frame, q.env).reply)
  {
  }

  lemma {:induction false} SessionStep(s: State, f: WireFrame, env: Env)
    requires Inv(s)
    ensures var r := Dispatch(s, f, env);
            var x := Exchange(f.command, f.data, r.reply);
            && (Accepted(x, CMD_START_UPGRADE) ==> r.state.inProgress && r.state.receivedSize == 0)
            && (Accepted(x, CMD_CANCEL_UPGRADE) ==> !r.state.inProgress)
            && (r.state.inProgress && !Accepted(x, CMD_START_UPGRADE) ==>
                  s.inProgress && r.state.receivedSize == s.receivedSize + TransferredBytes(x))
  {
    hide Crc32, Update, Inv;
    if Dispatch(s, f, env).reply.Some? && f.command == CMD_TRANSFER_DATA {
      if TransferData(s, f.data, env).reply[0] == 0x00 {
        AcceptedTransfer(s, f.data, env);
      }
    }
  }

  lemma {:induction false} CompleteStep(s: State, f: WireFrame, env: Env)
    requires Inv(s)
    ensures var r := Dispatch(s, f, env);
            var x := Exchange(f.command, f.data, r.reply);
            && (r.state.status == Complete ==>
                  if Accepted(x, CMD_TRANSFER_COMPLETE) then
                    && s.inProgress && AcknowledgedSize(x) == s.receivedSize
                    && (|f.data| >= 8 ==> ReadLe32(f.data, 4) == s.receivedSize)
                  else Undisturbed(x) && s.status == Complete)
            && (Accepted(x, CMD_RESET_RUN) || Armed(x) ==> s.status == Complete)
            && (r.state.bootFlag == 1 <==> Armed(x) || (!Cleared(x) && s.bootFlag == 1))
  {
    hide Crc32, Update, Inv;
    if f.command == CMD_TRANSFER_COMPLETE {
      Le32Reply(s.receivedSize);
    } else if f.command == CMD_TRANSFER_DATA {
    } else if f.command == CMD_START_UPGRADE {
    }
  }

  lemma {:induction false} HistoryStep(h: History, q: Request)
    requires HistoryInv(h)
    ensures HistoryInv(Extend(h, q))
  {
    hide Dispatch, Inv, Accepted, Armed, Cleared, Verified, AcknowledgedSize, Undisturbed;
    LastOfExtended(h, q);
    DispatchKeepsInv(h.state, q.frame, q.env);
    SessionStep(h.state, q.frame, q.env);
    CompleteStep(h.state, q.frame, q.env);
  }

  lemma {:induction false} RunKeepsHistory(s: State, reqs: seq<Request>)
    requires HistoryInv(History(s, []))
    ensures HistoryInv(Run(s, reqs))
    decreases |reqs|
  {
    hide HistoryInv, Extend;
    if reqs != [] {
      RunKeepsHistory(s, reqs[..|reqs| - 1]);
      HistoryStep(Run(s, reqs[..|reqs| - 1]), reqs[|reqs| - 1]);
    }
  }

  lemma {:induction false} FindDone(trace: seq<Exchange>) returns (j: nat)
    requires DoneBehind(trace)
    ensures j < |trace| && Accepted(trace[j], CMD_TRANSFER_COMPLETE)
    ensures Live(trace[..j]) == Some(AcknowledgedSize(trace[j]))
    ensures |trace[j].data| >= 8 ==> ReadLe32(trace[j].data, 4) == AcknowledgedSize(trace[j])
    ensures forall k :: j < k < |trace| ==> Undisturbed(trace[k])
    decreases |trace|
  {
    hide Accepted, AcknowledgedSize, Undisturbed, Live;
    var n := |trace| - 1;
    if Accepted(trace[n], CMD_TRANSFER_COMPLETE) {
      j := n;
    } else {
      j := FindDone(trace[..n]);
      assert trace[..n][..j] == trace[..j];
      assert forall k :: j < k < n ==> trace[k] == trace[..n][k];
    }
  }

  lemma {:induction false} FindStart(trace: seq<Exchange>) returns (i: nat)
    requires Live(trace).Some?
    ensures i < |trace| && Accepted(trace[i], CMD_START_UPGRADE)
    ensures SumTransferred(trace[i + 1..]) == Live(trace).value
    ensures forall k :: i < k < |trace| ==> NoRestart(trace[k])
    decreases |trace|
  {
    hide Accepted, TransferredBytes;
    var n := |trace| - 1;
    if Accepted(trace[n], CMD_START_UPGRADE) {
      i := n;
      assert trace[n + 1..] == [];
    } else {
      i := FindStart(trace[..n]);
      assert trace[i + 1..][..n - i - 1] == trace[..n][i + 1..];
      assert trace[i + 1..][n - i - 1] == trace[n];
      assert forall k :: i < k < n ==> trace[k] == trace[..n][k];
    }
  }

  /**
    Behind every accepted reset, and behind every arming of the boot flag, lie an accepted start, then
    accepted transfers whose lengths sum to the size of a later accepted transfer_done, with no start or
    cancel accepted in between and nothing accepted afterwards that disturbs the image.
   */
  lemma {:induction false} RebootHistory(slot0Offset: u32, slot1: seq<byte>, reqs: seq<Request>, k: nat)
    returns (i: nat, j: nat)
    requires |slot1| + MAX_DATA < WRAP && k < |reqs|
    requires var x := Run(Initial(slot0Offset, slot1), reqs).trace[k];
             Accepted(x, CMD_RESET_RUN) || Armed(x)
    ensures var trace := Run(Initial(slot0Offset, slot1), reqs).trace;
            && i < j < k
            && Accepted(trace[i], CMD_START_UPGRADE)
            && Accepted(trace[j], CMD_TRANSFER_COMPLETE)
            && SumTransferred(trace[i + 1..j]) == AcknowledgedSize(trace[j])
            && (|trace[j].data| >= 8 ==> ReadLe32(trace[j].data, 4) == AcknowledgedSize(trace[j]))
            && (forall m :: i < m < j ==> NoRestart(trace[m]))
            && (forall m :: j < m < k ==> Undisturbed(trace[m]))
  {
    hide Accepted, Armed, NoRestart, Undisturbed, Inv, Live, DoneBehind, Run, Dispatch, SumTransferred,
         AcknowledgedSize;
    var s := Initial(slot0Offset, slot1);
    var trace := Run(s, reqs).trace;
    CompleteBefore(slot0Offset, slot1, reqs, k);
    var before := trace[..k];
    j := FindDone(before);
    i := FindStart(before[..j]);
    assert before[..j] == trace[..j];
    assert trace[..j][i + 1..] == trace[i + 1..j];
    assert forall m :: 0 <= m < k ==> before[m] == trace[m];
    assert forall m :: 0 <= m < j ==> before[..j][m] == trace[m];
  }

  lemma {:induction false} CompleteBefore(slot0Offset: u32, slot1: seq<byte>, reqs: seq<Request>, k: nat)
    requires |slot1| + MAX_DATA < WRAP && k < |reqs|
    requires var x := Run(Initial(slot0Offset, slot1), reqs).trace[k];
             Accepted(x, CMD_RESET_RUN) || Armed(x)
    ensures DoneBehind(Run(Initial(slot0Offset, slot1), reqs).trace[..k])
  {
    hide Accepted, Armed, Inv, Live, DoneBehind, Dispatch;
    var s := Initial(slot0Offset, slot1);
    var h := Run(s, reqs[..k]);
    var q := reqs[k];
    InitialInv(slot0Offset, slot1);
    RunKeepsHistory(s, reqs[..k]);
    CompleteStep(h.state, q.frame, q.env);
    RunPrefix(s, reqs, k);
    RunPrefix(s, reqs, k + 1);
    assert reqs[..k + 1][..k] == reqs[..k];
    assert Run(s, reqs).trace[k] == Run(s, reqs[..k + 1]).trace[k];
    assert Run(s, reqs[..k + 1]) == Extend(h, q);
  }

  lemma {:induction false} FindArming(trace: seq<Exchange>) returns (k: nat)
    requires Raised(trace)
    ensures k < |trace| && Armed(trace[k])
    ensures forall m :: k < m < |trace| ==> !Armed(trace[m]) && !Cleared(trace[m])
    decreases |trace|
  {
    hide Armed, Cleared;
    var n := |trace| - 1;
    if Armed(trace[n]) {
      k := n;
    } else {
      k := FindArming(trace[..n]);
      assert forall m :: k < m < n ==> trace[m] == trace[..n][m];
    }
  }

  /**
    In every reachable state the boot flag is 1 exactly if the last exchange that touched it raised it,
    and behind that exchange lies the history of RebootHistory.
   */
  lemma {:induction false} BootFlagHasHistory(slot0Offset: u32, slot1: seq<byte>, reqs: seq<Request>)
    returns (i: nat, j: nat, k: nat)
    requires |slot1| + MAX_DATA < WRAP
    requires Run(Initial(slot0Offset, slot1), reqs).state.bootFlag == 1
    ensures var trace := Run(Initial(slot0Offset, slot1), reqs).trace;
            && i < j < k < |trace|
            && Armed(trace[k])
            && (forall m :: k < m < |trace| ==> !Armed(trace[m]) && !Cleared(trace[m]))
            && Accepted(trace[i], CMD_START_UPGRADE)
            && Accepted(trace[j], CMD_TRANSFER_COMPLETE)
            && SumTransferred(trace[i + 1..j]) == AcknowledgedSize(trace[j])
            && (|trace[j].data| >= 8 ==> ReadLe32(trace[j].data, 4) == AcknowledgedSize(trace[j]))
            && (forall m :: i < m < j ==> NoRestart(trace[m]))
            && (forall m :: j < m < k ==> Undisturbed(trace[m]))
  {
    hide Accepted, Armed, Cleared, NoRestart, Undisturbed, Inv, Live, DoneBehind, Raised, Run, Dispatch, SumTransferred,
      AcknowledgedSize;
    var s := Initial(slot0Offset, slot1);
    BootFlagIffRaised(slot0Offset, slot1, reqs);
    k := FindArming(Run(s, reqs).trace);
    i, j := RebootHistory(slot0Offset, slot1, reqs, k);
  }

  lemma {:induction false} BootFlagIffRaised(slot0Offset: u32, slot1: seq<byte>, reqs: seq<Request>)
    requires |slot1| + MAX_DATA < WRAP
    ensures var h := Run(Initial(slot0Offset, slot1), reqs); h.state.bootFlag == 1 <==> Raised(h.trace)
  {
    hide Run, Inv, Raised;
    InitialInv(slot0Offset, slot1);
    NothingRaised();
    RunKeepsHistory(Initial(slot0Offset, slot1), reqs);
  }

  lemma NothingRaised()
    ensures !Raised([])
  {
  }
}
