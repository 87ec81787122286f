/**
  The receive loop on streams that do not begin at a frame. Skipped bytes are never counted as
  consumed, so whatever precedes the first frame stays behind as a slip of the same length.
 */
module Misaligned {
  import opened Bytes
  import opened Crc
  import opened Frames
  import opened Commands
  import opened Firmware
  import opened Scanner
  import opened FlashArea
  import opened DeviceModel
  import opened DeviceInvariant
  import opened RxModel
  import opened RxRuns
  import opened Receiver

  /** A frame whose length a uint16_t can hold, and whose only header is the one at the very front. */
  predicate OneHeader(f: WireFrame) {
    |Serialize(f)| < 0x1_0000 && HeaderFree(Serialize(f)[1..])
  }

  /**
    What is handed over when `slip` bytes lie in front of the first frame: each pass over a frame uses
    up its length of the slip, and only a slip shorter than the frame lets the loop go on to the next.
   */
  function Repeated(slip: nat, frames: seq<WireFrame>): seq<DeviceFrame>
    decreases |frames|, slip
  {
    if frames == [] then []
    else
      var n := MIN_FRAME_SIZE + |frames[0].data|;
      [AsReceived(frames[0])] + (if slip < n then Repeated(slip, frames[1..]) else Repeated(slip - n, frames))
  }

  /** The bytes still in the buffer at the end. */
  function FinalSlip(slip: nat, frames: seq<WireFrame>): nat
    decreases |frames|, slip
  {
    if frames == [] then slip
    else
      var n := MIN_FRAME_SIZE + |frames[0].data|;
      if slip < n then FinalSlip(slip, frames[1..]) else FinalSlip(slip - n, frames)
  }

  lemma SuffixHeaderFree(s: seq<byte>, k: nat)
    requires k <= |s| && HeaderFree(s)
    ensures HeaderFree(s[k..])
  {
    forall i: nat | i < |s| - k ensures !HeaderAt(s[k..], i) {
      assert !HeaderAt(s, i + k);
    }
  }

  /**
    Header-free bytes in front of a stream of frames are a slip that is never made up: every frame is
    dispatched once, and once more for every time its length goes into the slip.
   */
  lemma {:induction false} MisalignedDrain(noise: seq<byte>, frames: seq<WireFrame>)
    requires HeaderFree(noise)
    requires forall f :: f in frames ==> OneHeader(f)
    ensures var d := Drain(noise + Wire(frames));
            && d.frames == Repeated(|noise|, frames)
            && |d.rest| == FinalSlip(|noise|, frames) && HeaderFree(d.rest) && !d.overrun
    decreases |frames|, |noise|
  {
    hide Serialize, Parse, HeaderFree;
    var s := noise + Wire(frames);
    if frames == [] {
      assert s == noise;
      NoHeaderNoFrame(noise);
    } else {
      var f := frames[0];
      assert f in frames;
      var n := |Serialize(f)|;
      var later := Wire(frames[1..]);
      assert s == noise + Serialize(f) + later;
      ConsumesExactlyIff(noise, f, later);
      FrameLength(f);
      if |noise| >= n {
        SuffixHeaderFree(noise, n);
        assert s[n..] == noise[n..] + Wire(frames);
        MisalignedDrain(noise[n..], frames);
      } else {
        var k := n - |noise|;
        SuffixHeaderFree(Serialize(f)[1..], k - 1);
        var slip := Serialize(f)[k..];
        assert slip == Serialize(f)[1..][k - 1..];
        assert s[n..] == slip + later;
        MisalignedDrain(slip, frames[1..]);
      }
    }
  }

  /** A single frame is dispatched k times where k is the slip divided by its length, rounded down, plus one. */
  lemma {:induction false} RepeatCount(slip: nat, f: WireFrame)
    ensures var n := MIN_FRAME_SIZE + |f.data|;
            var k := |Repeated(slip, [f])|;
            && k >= 1 && (k - 1) * n <= slip < k * n
            && forall i :: 0 <= i < k ==> Repeated(slip, [f])[i] == AsReceived(f)
    decreases slip
  {
    var n := MIN_FRAME_SIZE + |f.data|;
    assert [f][1..] == [];
    if slip >= n {
      RepeatCount(slip - n, f);
      var k := |Repeated(slip - n, [f])|;
      assert (k + 1) * n == k * n + n && (k - 1) * n == k * n - n;
    }
  }

  lemma {:induction false} RepeatedAtLeastOnce(slip: nat, frames: seq<WireFrame>)
    ensures |Repeated(slip, frames)| >= |frames|
    ensures |Repeated(slip, frames)| == |frames| <==> forall f :: f in frames ==> slip < |Serialize(f)|
    ensures (forall f :: f in frames ==> slip < |Serialize(f)|) ==> Repeated(slip, frames) == Received(frames)
    decreases |frames|, slip
  {
    hide Serialize;
    if frames != [] {
      var f := frames[0];
      var n := |Serialize(f)|;
      FrameLength(f);
      var others := frames[1..];
      assert f in frames && forall g :: g in frames <==> g == f || g in others;
      if slip < n {
        RepeatedAtLeastOnce(slip, others);
        assert Received(frames) == [AsReceived(f)] + Received(others);
      } else {
        RepeatedAtLeastOnce(slip - n, frames);
      }
    }
  }

  /**
    Once each, in order, if and only if every frame is longer than the bytes in front of the stream.
    Otherwise some frame is dispatched again.
   */
  lemma {:induction false} OnceEachIff(noise: seq<byte>, frames: seq<WireFrame>)
    requires HeaderFree(noise)
    requires forall f :: f in frames ==> OneHeader(f)
    ensures Drain(noise + Wire(frames)).frames == Received(frames) <==>
              forall f :: f in frames ==> |noise| < |Serialize(f)|
    ensures |Drain(noise + Wire(frames)).frames| >= |frames|
  {
    hide Serialize, Drain, Repeated, OneHeader, HeaderFree;
    MisalignedDrain(noise, frames);
    RepeatedAtLeastOnce(|noise|, frames);
  }

  /**
    The same over runs: however the stream is cut into blocks and processed in between, as long as every
    block finds room, the frames dispatched are those of a single pass.
   */
  lemma {:induction false} MisalignedRun(noise: seq<byte>, frames: seq<WireFrame>, events: seq<Event>)
    requires HeaderFree(noise) && NoneDropped(events)
    requires forall f :: f in frames ==> OneHeader(f)
    ensures Arrived(events) <= noise + Wire(frames) ==> RxRun(events).dispatched <= Repeated(|noise|, frames)
    ensures TakesIn(events, noise + Wire(frames)) ==>
              && RxRun(events).dispatched == Repeated(|noise|, frames)
              && |RxRun(events).buf| == FinalSlip(|noise|, frames)
              && (RxRun(events).dispatched == Received(frames) <==>
                    forall f :: f in frames ==> |noise| < |Serialize(f)|)
  {
    hide Serialize, Drain, Repeated, OneHeader, HeaderFree, RxRun, Arrived, NoneDropped, FinalSlip, Received;
    var s := noise + Wire(frames);
    MisalignedDrain(noise, frames);
    OnceEachIff(noise, frames);
    RunIsOneDrain(events);
    if Arrived(events) <= s {
      var more := s[|Arrived(events)|..];
      assert s == Arrived(events) + more;
      DrainConcat(Arrived(events), more);
    }
    if TakesIn(events, s) {
      AfterPass(events);
    }
  }

  /**
    Room for every frame: while it arrives, the slip in front of it is in the buffer too. Its dispatches
    leave the slip less the frame lengths that go into it.
   */
  predicate Roomy(slip: nat, frames: seq<WireFrame>)
    decreases |frames|
  {
    if frames == [] then slip <= RX_BUF_SIZE
    else
      var n := MIN_FRAME_SIZE + |frames[0].data|;
      slip + n <= RX_BUF_SIZE && Roomy(slip % n, frames[1..])
  }

  /** The streams the receive buffer can take in, frame by frame. */
  lemma {:induction false} RoomIff(noise: seq<byte>, frames: seq<WireFrame>)
    requires HeaderFree(noise)
    requires forall f :: f in frames ==> OneHeader(f)
    ensures Receivable(noise + Wire(frames)) <==> Roomy(|noise|, frames)
    decreases |frames|
  {
    hide Serialize, Drain, HeaderFree, OneHeader, Receivable;
    var s := noise + Wire(frames);
    if frames == [] {
      assert s == noise;
      NoiseRoom(noise);
    } else {
      var f := frames[0];
      var later := Wire(frames[1..]);
      assert f in frames;
      FrameLength(f);
      assert s == noise + Serialize(f) + later;
      FirstFrame(noise, f);
      var slip := Drain(noise + Serialize(f)).rest;
      FirstRoom(noise + Serialize(f), later);
      RoomIff(slip, frames[1..]);
    }
  }

  /**
    Once each, in order, and without a dropped block, is possible if and only if every frame is longer than
    the noise and fits the buffer together with it.
   */
  lemma {:induction false} DeliveredOnceIff(noise: seq<byte>, frames: seq<WireFrame>)
    requires HeaderFree(noise)
    requires forall f :: f in frames ==> OneHeader(f)
    ensures (exists events ::
               TakesIn(events, noise + Wire(frames)) && RxRun(events).dispatched == Received(frames)) <==>
              && |noise| <= RX_BUF_SIZE
              && forall f :: f in frames ==> |noise| < |Serialize(f)| <= RX_BUF_SIZE - |noise|
  {
    hide Serialize, OneHeader, HeaderFree, RxRun, Received, Receivable, Roomy, Arrived, NoneDropped, Repeated;
    var s := noise + Wire(frames);
    RoomIff(noise, frames);
    if events :| TakesIn(events, s) && RxRun(events).dispatched == Received(frames) {
      MisalignedRun(noise, frames, events);
      ReceivableIsNeeded(events);
      RoomyBelowFrames(|noise|, frames);
    }
    if |noise| <= RX_BUF_SIZE && forall f :: f in frames ==> |noise| < |Serialize(f)| <= RX_BUF_SIZE - |noise| {
      RoomyBelowFrames(|noise|, frames);
      var events := ReceivableIsEnough(s);
      MisalignedRun(noise, frames, events);
    }
  }

  lemma {:induction false} RoomyBelowFrames(slip: nat, frames: seq<WireFrame>)
    requires forall f :: f in frames ==> slip < |Serialize(f)|
    ensures Roomy(slip, frames) <==>
              slip <= RX_BUF_SIZE && forall f :: f in frames ==> |Serialize(f)| <= RX_BUF_SIZE - slip
    decreases |frames|
  {
    hide Serialize;
    if frames != [] {
      var f := frames[0];
      var others := frames[1..];
      assert f in frames && forall g :: g in frames <==> g == f || g in others;
      FrameLength(f);
      SmallMod(slip, |Serialize(f)|);
      RoomyBelowFrames(slip, others);
    }
  }

  lemma {:induction false} NoiseRoom(noise: seq<byte>)
    requires HeaderFree(noise)
    ensures Receivable(noise) <==> |noise| <= RX_BUF_SIZE
  {
    hide Drain, HeaderFree;
    forall k: nat | k < |noise| ensures Drain(noise[..k]).rest == noise[..k] {
      PrefixHeaderFree(noise, k);
      NoHeaderNoFrame(noise[..k]);
    }
    if |noise| > RX_BUF_SIZE {
      assert |Drain(noise[..RX_BUF_SIZE]).rest| == RX_BUF_SIZE;
    }
  }

  lemma PrefixHeaderFree(s: seq<byte>, k: nat)
    requires k <= |s| && HeaderFree(s)
    ensures HeaderFree(s[..k])
  {
    forall i: nat | i < k ensures !HeaderAt(s[..k], i) {
      assert !HeaderAt(s, i);
    }
  }

  lemma BehindHead(head: seq<byte>, later: seq<byte>, m: nat)
    requires m <= |later|
    ensures var slip := Drain(head).rest;
            Drain((head + later)[..|head| + m]).rest == Drain((slip + later)[..|slip| + m]).rest
  {
    hide Drain;
    var slip := Drain(head).rest;
    assert (head + later)[..|head| + m] == head + later[..m];
    assert (slip + later)[..|slip| + m] == slip + later[..m];
    DrainConcat(head, later[..m]);
  }

  /** Room for a stream is room for its first frame and for what follows behind the slip. */
  lemma {:induction false} FirstRoom(head: seq<byte>, later: seq<byte>)
    requires head != [] && forall k: nat :: k < |head| ==> Drain(head[..k]).rest == head[..k]
    ensures Receivable(head + later) <==> |head| <= RX_BUF_SIZE && Receivable(Drain(head).rest + later)
  {
    hide Drain;
    var s := head + later;
    var slip := Drain(head).rest;
    var t := slip + later;
    DrainSettles(head);
    forall k: nat | k < |head| ensures Drain(s[..k]).rest == head[..k] {
      assert s[..k] == head[..k];
    }
    forall j: nat | j < |slip| ensures |Drain(t[..j]).rest| < |head| {
      DrainSettles(t[..j]);
    }
    if Receivable(s) {
      assert |Drain(s[..|head| - 1]).rest| == |head| - 1;
      forall j: nat | j < |t| ensures |Drain(t[..j]).rest| < RX_BUF_SIZE {
        if j >= |slip| {
          BehindHead(head, later, j - |slip|);
        }
      }
    }
    if |head| <= RX_BUF_SIZE && Receivable(t) {
      forall k: nat | k < |s| ensures |Drain(s[..k]).rest| < RX_BUF_SIZE {
        if k >= |head| {
          BehindHead(head, later, k - |head|);
        }
      }
    }
  }

  /** One frame behind the noise: before it is complete nothing moves, afterwards the slip is what remains. */
  lemma {:induction false} FirstFrame(noise: seq<byte>, f: WireFrame)
    requires HeaderFree(noise) && OneHeader(f)
    ensures var d := Drain(noise + Serialize(f));
            |d.rest| == |noise| % (MIN_FRAME_SIZE + |f.data|) && HeaderFree(d.rest)
    ensures forall k: nat :: k < |noise| + |Serialize(f)| ==>
              Drain((noise + Serialize(f))[..k]).rest == (noise + Serialize(f))[..k]
  {
    hide Serialize, Drain, HeaderFree, OneHeader, Parse;
    WireOfOne(f);
    MisalignedDrain(noise, [f]);
    SlipOfOne(|noise|, f);
    var s := noise + Serialize(f);
    forall k: nat | k < |s| ensures Drain(s[..k]).rest == s[..k] {
      PartialBehindNoise(noise, f, k);
    }
  }

  lemma {:induction false} SlipOfOne(slip: nat, f: WireFrame)
    ensures FinalSlip(slip, [f]) == slip % (MIN_FRAME_SIZE + |f.data|)
    decreases slip
  {
    var n := MIN_FRAME_SIZE + |f.data|;
    assert [f][1..] == [];
    if slip >= n {
      SlipOfOne(slip - n, f);
      ModStep(slip, n);
    } else {
      SmallMod(slip, n);
    }
  }

  lemma ModStep(a: nat, n: nat)
    requires 0 < n <= a
    ensures (a - n) % n == a % n
  {
    var q, r := (a - n) / n, (a - n) % n;
    assert q * n + r == a - n;
    assert (q + 1) * n == q * n + n;
    assert (a / n) * n + a % n == a;
    SameRemainder(n, q + 1, r, a / n, a % n);
  }

  lemma SameRemainder(n: nat, q: nat, r: nat, q': nat, r': nat)
    requires q * n + r == q' * n + r' && r < n && r' < n
    ensures r == r'
  {
    if q < q' {
      assert q' * n == q * n + (q' - q) * n;
      MulAtLeast(q' - q, n);
    } else if q' < q {
      assert q * n == q' * n + (q - q') * n;
      MulAtLeast(q - q', n);
    }
  }

  lemma SmallMod(a: nat, n: nat)
    requires a < n
    ensures a % n == a
  {
  }

  lemma {:induction false} PartialBehindNoise(noise: seq<byte>, f: WireFrame, k: nat)
    requires HeaderFree(noise) && OneHeader(f) && k < |noise| + |Serialize(f)|
    ensures Drain((noise + Serialize(f))[..k]).rest == (noise + Serialize(f))[..k]
  {
    hide Serialize, HeaderFree, ParseAt, FindHeader;
    var s := noise + Serialize(f);
    var a := s[..k];
    if Parse(a) != Incomplete {
      assert a + s[k..] == s;
      var pos := FindHeader(a).value;
      SameHeader(a, s[k..], pos);
      ParseExtends(a, s[k..]);
      assert noise + Serialize(f) + [] == s;
      ConsumesExactlyIff(noise, f, []);
      FieldsOfSerialized(f, []);
      assert Serialize(f) + [] == Serialize(f);
      HeaderBehindNoise(noise, Serialize(f));
      assert false;
    }
  }

  /** A single frame behind noise of one up to two frame lengths is dispatched exactly twice. */
  lemma {:induction false} DispatchedTwice(noise: seq<byte>, f: WireFrame)
    requires HeaderFree(noise) && OneHeader(f)
    requires |Serialize(f)| <= |noise| < 2 * |Serialize(f)|
    ensures Drain(noise + Serialize(f)).frames == [AsReceived(f), AsReceived(f)]
  {
    hide Serialize, Drain, OneHeader, HeaderFree;
    WireOfOne(f);
    MisalignedDrain(noise, [f]);
    FrameLength(f);
    var n := |Serialize(f)|;
    assert [f][1..] == [];
    assert Repeated(|noise| - n, [f]) == [AsReceived(f)];
    assert Repeated(|noise|, [f]) == [AsReceived(f)] + Repeated(|noise| - n, [f]);
  }

  lemma WireOfOne(f: WireFrame)
    ensures Wire([f]) == Serialize(f)
  {
    hide Serialize;
    assert [f][1..] == [];
  }

  /** A frame can also be lost: when the slip itself contains a header, it swallows the next frame. */
  lemma {:induction false} FrameLost(noise: seq<byte>, f: WireFrame, g: WireFrame)
    requires noise == [0, 0, 0, 0, 0, 0]
    requires f == Message(CMD_HANDSHAKE, [0x12, 0x34]) && g == Message(CMD_HANDSHAKE, [])
    ensures HeaderFree(noise) && |noise + Serialize(f) + Serialize(g)| == 48
    ensures AsReceived(g) !in Drain(noise + Serialize(f) + Serialize(g)).frames
  {
    hide Parse, Drain;
    var s := noise + Serialize(f) + Serialize(g);
    ConsumesExactlyIff(noise, f, Serialize(g));
    var slip := [0x12, 0x34, 0x00, 0x00, 0xCD, 0xEF] + Serialize(g);
    assert s[22..] == slip;
    var swallowed := SwallowingSlip(g, slip);
    DrainFront(s, AsReceived(f), 22);
    DrainFront(slip, swallowed, 21);
    var last := slip[21..];
    TooShortStays(last);
    assert Drain(s).frames == [AsReceived(f), swallowed];
  }

  lemma SwallowingSlip(g: WireFrame, slip: seq<byte>) returns (swallowed: DeviceFrame)
    requires g == Message(CMD_HANDSHAKE, []) && slip == [0x12, 0x34, 0x00, 0x00, 0xCD, 0xEF] + Serialize(g)
    ensures |slip| == 26 && Parse(slip) == Accepted(swallowed, 21)
    ensures swallowed.frame.dst != g.dst
  {
    assert slip[6] == 0x12 && slip[7] == 0x34 && slip[14] == 1 && slip[15] == 0;
    ParseAtFront(slip);
    swallowed := DeviceFrameAt(slip);
  }

  lemma DrainFront(s: seq<byte>, f: DeviceFrame, n: nat)
    requires Parse(s) == Accepted(f, n)
    ensures Drain(s).frames == [f] + Drain(s[n..]).frames
  {
    hide Parse;
  }

  lemma TooShortStays(s: seq<byte>)
    requires |s| < FRAME_MIN_SIZE
    ensures Drain(s) == Drained([], s, false)
  {
  }

  /**
    What a repeated dispatch does to an upgrade: a transfer request behind at least its own length of
    noise is seen twice or more, and leaves the device outside RECEIVING, with no further byte accepted.
   */
  lemma {:induction false} RepeatedTransferEndsSession(s: State, noise: seq<byte>, f: WireFrame, envs: seq<Env>)
    requires Inv(s) && HeaderFree(noise) && OneHeader(f)
    requires |noise| >= |Serialize(f)|
    requires !s.rebooted && Addressed(f) && f.command == CMD_TRANSFER_DATA && |f.data| > 4
    ensures DispatchAll(s, Drain(noise + Serialize(f)).frames, envs, 0).state.status != Receiving
  {
    hide Serialize, Drain, OneHeader, HeaderFree, Inv, Dispatch;
    WireOfOne(f);
    MisalignedDrain(noise, [f]);
    FrameLength(f);
    RepeatCount(|noise|, f);
    var frames := Drain(noise + Serialize(f)).frames;
    assert |frames| >= 2;
    var r1 := Dispatch(s, f, EnvAt(envs, 0));
    var r2 := Dispatch(r1.state, f, EnvAt(envs, 1));
    TwiceEnds(s, f, EnvAt(envs, 0), EnvAt(envs, 1));
    EndedStays(r2.state, f, frames[2..], envs, 2);
    assert frames[1..][0] == AsReceived(f) && frames[1..][1..] == frames[2..];
  }

  lemma {:induction false} TwiceEnds(s: State, f: WireFrame, env1: Env, env2: Env)
    requires Inv(s) && !s.rebooted && Addressed(f) && f.command == CMD_TRANSFER_DATA && |f.data| > 4
    ensures var r1 := Dispatch(s, f, env1).state;
            Dispatch(r1, f, env2).state.status != Receiving
  {
    hide Crc32, Inv, TransferData, Dispatch;
    SomeReply(s, f.data, env1);
    DispatchKeepsInv(s, f, env1);
    InvFacts(s);
    var r1 := Dispatch(s, f, env1).state;
    InvFacts(r1);
    Answered(s, f, env1);
    Answered(r1, f, env2);
    SomeReply(r1, f.data, env2);
    if TransferData(s, f.data, env1).reply[0] == 0x00 {
      AcceptedTransfer(s, f.data, env1);
    } else {
      RefusedTransfer(s, f.data, env1);
    }
    if TransferData(r1, f.data, env2).reply[0] == 0x00 {
      AcceptedTransfer(r1, f.data, env2);
    } else {
      RefusedTransfer(r1, f.data, env2);
    }
  }

  lemma SomeReply(s: State, data: seq<byte>, env: Env)
    ensures TransferData(s, data, env).reply != []
  {
    hide Update;
  }

  lemma Answered(s: State, f: WireFrame, env: Env)
    requires !s.rebooted && Addressed(f) && f.command == CMD_TRANSFER_DATA
    ensures Dispatch(s, f, env).state == TransferData(s, f.data, env).state
    ensures Dispatch(s, f, env).state.rebooted == s.rebooted
  {
    hide Update;
  }

  lemma {:induction false} EndedStays(s: State, f: WireFrame, frames: seq<DeviceFrame>, envs: seq<Env>, k: nat)
    requires s.status != Receiving && f.command == CMD_TRANSFER_DATA
    requires forall i :: 0 <= i < |frames| ==> frames[i] == AsReceived(f)
    ensures DispatchAll(s, frames, envs, k).state.status != Receiving
    decreases |frames|
  {
    if frames != [] {
      EndedStays(Dispatch(s, f, EnvAt(envs, k)).state, f, frames[1..], envs, k + 1);
    }
  }
}
