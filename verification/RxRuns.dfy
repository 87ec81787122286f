/** Runs of the receive loop: blocks arriving and processing passes in any interleaving. */
module RxRuns {
  import opened Bytes
  import opened Frames
  import opened Scanner
  import opened RxModel

  datatype Event = Arrives(data: seq<byte>) | Process

  datatype Rx = Rx(buf: seq<byte>, dispatched: seq<DeviceFrame>)

  function RxStep(rx: Rx, e: Event): Rx {
    match e
    case Arrives(data) => rx.(buf := Append(rx.buf, data))
    case Process =>
      var d := Drain(rx.buf);
      Rx(d.rest, rx.dispatched + d.frames)
  }

  function RxRun(events: seq<Event>): Rx
    decreases |events|
  {
    if events == [] then Rx([], []) else RxStep(RxRun(events[..|events| - 1]), events[|events| - 1])
  }

  function Arrived(events: seq<Event>): seq<byte>
    decreases |events|
  {
    if events == [] then []
    else
      var before := Arrived(events[..|events| - 1]);
      match events[|events| - 1]
      case Arrives(data) => before + data
      case Process => before
  }

  /** Every block found room when it arrived. */
  predicate NoneDropped(events: seq<Event>)
    decreases |events|
  {
    events != [] ==>
      var init := events[..|events| - 1];
      var last := events[|events| - 1];
      NoneDropped(init) && (last.Arrives? ==> |RxRun(init).buf| + |last.data| <= RX_BUF_SIZE)
  }

  lemma {:induction false} WireConcat(a: seq<WireFrame>, b: seq<WireFrame>)
    ensures Wire(a + b) == Wire(a) + Wire(b)
    decreases |a|
  {
    hide Serialize;
    if a == [] {
      assert a + b == b;
    } else {
      assert (a + b)[1..] == a[1..] + b;
      WireConcat(a[1..], b);
    }
  }

  /** One processing pass, when what is buffered is the undispatched part of what arrived. */
  lemma {:induction false} DrainNext(frames: seq<WireFrame>, arrived: seq<byte>, k: nat, buf: seq<byte>)
    returns (k': nat)
    requires Fits(frames) && k <= |frames| && arrived <= Wire(frames)
    requires arrived == Wire(frames[..k]) + buf
    ensures k <= k' <= |frames|
    ensures var d := Drain(buf);
            && Received(frames[..k]) + d.frames == Received(frames[..k'])
            && arrived == Wire(frames[..k']) + d.rest
            && (if k' == |frames| then d.rest == [] else |d.rest| < |Serialize(frames[k'])|)
  {
    hide Serialize, Drain, Wire, Parse;
    var others := frames[k..];
    assert frames == frames[..k] + others;
    WireConcat(frames[..k], others);
    var w := |Wire(frames[..k])|;
    assert Wire(frames)[..|arrived|] == arrived;
    assert buf == arrived[w..];
    assert Wire(frames)[w..] == Wire(others);
    assert buf == Wire(others)[..|buf|];
    var j := DrainAligned(others, |buf|);
    k' := k + j;
    assert frames[..k'] == frames[..k] + others[..j];
    WireConcat(frames[..k], others[..j]);
    assert Received(frames[..k']) == Received(frames[..k]) + Received(others[..j]);
  }

  lemma LastEvent(events: seq<Event>)
    requires events != []
    ensures var init := events[..|events| - 1];
            var last := events[|events| - 1];
            && RxRun(events) == RxStep(RxRun(init), last)
            && Arrived(events) == Arrived(init) + (if last.Arrives? then last.data else [])
            && (NoneDropped(events) <==>
                  NoneDropped(init) && (last.Arrives? ==> |RxRun(init).buf| + |last.data| <= RX_BUF_SIZE))
  {
    hide Drain;
  }

  /**
    The receive loop: for any interleaving of non-dropped arrivals and processing passes on a
    frame-aligned stream, every frame is dispatched once and in order, and the buffer holds exactly the
    bytes not yet dispatched. After a processing pass that is less than one frame.
   */
  lemma {:induction false} ReceivesInOrder(frames: seq<WireFrame>, events: seq<Event>) returns (k: nat)
    requires Fits(frames) && NoneDropped(events) && Arrived(events) <= Wire(frames)
    ensures k <= |frames|
    ensures RxRun(events).dispatched == Received(frames[..k])
    ensures Arrived(events) == Wire(frames[..k]) + RxRun(events).buf
    ensures events != [] && events[|events| - 1].Process? ==>
              if k == |frames| then RxRun(events).buf == [] else |RxRun(events).buf| < |Serialize(frames[k])|
    decreases |events|
  {
    hide Serialize, Drain, Wire, Parse, RxRun, Arrived, NoneDropped;
    if events == [] {
      k := 0;
      assert frames[..0] == [];
      NothingYet();
    } else {
      var init := events[..|events| - 1];
      var last := events[|events| - 1];
      LastEvent(events);
      k := ReceivesInOrder(frames, init);
      if last.Process? {
        k := DrainNext(frames, Arrived(init), k, RxRun(init).buf);
      }
    }
  }

  lemma NothingYet()
    ensures Wire([]) == [] && RxRun([]) == Rx([], []) && Arrived([]) == [] && NoneDropped([])
  {
  }

  /**
    Neither the cuts into blocks nor the moments of the passes matter: what a run has dispatched, and what
    its buffer would still yield, is what one pass over everything that arrived yields.
   */
  lemma {:induction false} RunIsOneDrain(events: seq<Event>)
    requires NoneDropped(events)
    ensures var d := Drain(RxRun(events).buf);
            Drain(Arrived(events)) == Drained(RxRun(events).dispatched + d.frames, d.rest, d.overrun)
    decreases |events|
  {
    hide Drain, RxRun, Arrived, NoneDropped;
    if events == [] {
      NothingYet();
      NothingDrains();
    } else {
      var init := events[..|events| - 1];
      LastEvent(events);
      RunIsOneDrain(init);
      var rx := RxRun(init);
      var d := Drain(rx.buf);
      match events[|events| - 1]
      case Arrives(data) =>
        DrainConcat(Arrived(init), data);
        DrainConcat(rx.buf, data);
        var e := Drain(d.rest + data);
        assert rx.dispatched + d.frames + e.frames == rx.dispatched + (d.frames + e.frames);
      case Process =>
        DrainSettles(rx.buf);
        assert Arrived(init) + [] == Arrived(init);
        assert rx.dispatched + d.frames + [] == rx.dispatched + d.frames;
    }
  }

  lemma NothingDrains()
    ensures Drain([]) == Drained([], [], false)
  {
    NothingIsIncomplete();
  }

  /** A run that takes in the whole stream, drops nothing and ends with a pass. */
  predicate TakesIn(events: seq<Event>, s: seq<byte>) {
    NoneDropped(events) && Arrived(events) == s && events != [] && events[|events| - 1].Process?
  }

  lemma {:induction false} AfterPass(events: seq<Event>)
    requires TakesIn(events, Arrived(events))
    ensures var d := Drain(Arrived(events));
            RxRun(events) == Rx(d.rest, d.frames)
  {
    hide Drain, RxRun, Arrived, NoneDropped;
    LastEvent(events);
    RunIsOneDrain(events);
    DrainSettles(RxRun(events[..|events| - 1]).buf);
  }

  /** The run without the blocks that found no room when they arrived. */
  function Kept(events: seq<Event>): (kept: seq<Event>)
    ensures |kept| <= |events|
    decreases |events|
  {
    if events == [] then []
    else
      var init := events[..|events| - 1];
      var last := events[|events| - 1];
      if last.Arrives? && |RxRun(init).buf| + |last.data| > RX_BUF_SIZE then Kept(init) else Kept(init) + [last]
  }

  /**
    Blocks without room are dropped whole and leave no trace: every run is a run in which every block finds
    room, on what is left of the stream.
   */
  lemma {:induction false} DropsLeaveNoTrace(events: seq<Event>)
    ensures NoneDropped(Kept(events)) && RxRun(Kept(events)) == RxRun(events)
    ensures NoneDropped(events) <==> Kept(events) == events
    decreases |events|
  {
    hide Drain, RxRun, NoneDropped;
    if events == [] {
      NothingYet();
    } else {
      var init := events[..|events| - 1];
      var last := events[|events| - 1];
      LastEvent(events);
      DropsLeaveNoTrace(init);
      if !(last.Arrives? && |RxRun(init).buf| + |last.data| > RX_BUF_SIZE) {
        var kept := Kept(events);
        assert kept[..|kept| - 1] == Kept(init) && kept[|kept| - 1] == last;
        LastEvent(kept);
        assert init + [last] == events;
      }
    }
  }

  /** So every run, with whatever drops, is one pass over the bytes that were not dropped. */
  lemma {:induction false} EveryRunIsOneDrain(events: seq<Event>)
    ensures var d := Drain(RxRun(events).buf);
            Drain(Arrived(Kept(events))) == Drained(RxRun(events).dispatched + d.frames, d.rest, d.overrun)
  {
    hide Drain, RxRun, NoneDropped, Arrived;
    DropsLeaveNoTrace(events);
    RunIsOneDrain(Kept(events));
  }

  /** And if those are the beginning of an aligned stream, every frame in them is dispatched once, in order. */
  lemma {:induction false} ReceivesWhatIsKept(frames: seq<WireFrame>, events: seq<Event>) returns (k: nat)
    requires Fits(frames) && Arrived(Kept(events)) <= Wire(frames)
    ensures k <= |frames|
    ensures RxRun(events).dispatched == Received(frames[..k])
    ensures Arrived(Kept(events)) == Wire(frames[..k]) + RxRun(events).buf
  {
    hide Drain, RxRun, NoneDropped, Arrived, Wire, Received;
    DropsLeaveNoTrace(events);
    k := ReceivesInOrder(frames, Kept(events));
  }

  /** Everything handled as early as possible, there is room for one more byte until the end. */
  ghost predicate Receivable(s: seq<byte>) {
    forall k: nat :: k < |s| ==> |Drain(s[..k]).rest| < RX_BUF_SIZE
  }

  lemma {:induction false} ReceivableIsNeeded(events: seq<Event>)
    requires NoneDropped(events)
    ensures Receivable(Arrived(events))
    decreases |events|
  {
    hide Drain, RxRun, Arrived, NoneDropped;
    if events == [] {
      NothingYet();
    } else {
      var init := events[..|events| - 1];
      LastEvent(events);
      ReceivableIsNeeded(init);
      RunIsOneDrain(init);
      var s := Arrived(events);
      var old_s := Arrived(init);
      forall k: nat | k < |s| ensures |Drain(s[..k]).rest| < RX_BUF_SIZE {
        if k < |old_s| {
          assert s[..k] == old_s[..k];
        } else {
          var part := events[|events| - 1].data[..k - |old_s|];
          assert s[..k] == old_s + part;
          DrainConcat(old_s, part);
          DrainSettles(RxRun(init).buf);
          DrainSettles(Drain(old_s).rest + part);
        }
      }
    }
  }

  lemma {:induction false} ReceivableIsEnough(s: seq<byte>) returns (events: seq<Event>)
    requires Receivable(s)
    ensures TakesIn(events, s)
    decreases |s|
  {
    hide Drain, RxRun, Arrived, NoneDropped;
    if s == [] {
      events := [Process];
      assert events[..0] == [];
      LastEvent(events);
      NothingYet();
    } else {
      var k := |s| - 1;
      var before := s[..k];
      forall i: nat | i < k ensures |Drain(before[..i]).rest| < RX_BUF_SIZE {
        assert before[..i] == s[..i];
      }
      var init := ReceivableIsEnough(before);
      AfterPass(init);
      var arrived := init + [Arrives([s[k]])];
      assert arrived[..|arrived| - 1] == init;
      LastEvent(arrived);
      events := arrived + [Process];
      assert events[..|events| - 1] == arrived;
      LastEvent(events);
      assert before + [s[k]] == s;
    }
  }

  /** The streams that some run can take in without dropping a block. */
  lemma {:induction false} ReceivableIff(s: seq<byte>)
    ensures (exists events :: TakesIn(events, s)) <==> Receivable(s)
  {
    hide NoneDropped, Arrived, Receivable;
    if events :| TakesIn(events, s) {
      ReceivableIsNeeded(events);
    }
    if Receivable(s) {
      var _ := ReceivableIsEnough(s);
    }
  }

  /** No bytes that still find room can complete a frame. */
  ghost predicate Stuck(buf: seq<byte>) {
    && |buf| <= RX_BUF_SIZE
    && forall more: seq<byte> :: |buf| + |more| <= RX_BUF_SIZE ==> Parse(buf + more) == Incomplete
  }

  /** Where the first header is, or the earliest place where later bytes can put one. */
  function Candidate(buf: seq<byte>): (p: nat)
    ensures p <= |buf|
  {
    match FindHeader(buf)
    case Some(pos) => pos
    case None => if buf != [] && buf[|buf| - 1] == 0x12 then |buf| - 1 else |buf|
  }

  /**
    The fewest bytes from the header on that a decision of the parser can take, given as much of the
    length field as has arrived. A length that wraps round in 16 bits counts as what it wraps to.
   */
  function Fewest(buf: seq<byte>, p: nat): nat {
    var announced :=
      if |buf| >= p + 16 then TotalLen(ReadLe16(buf, p + 14))
      else if |buf| == p + 15 then Min(TotalLen(buf[p + 14]), TotalLen(buf[p + 14] as int + 0xFF00))
      else 0;
    if announced < FRAME_MIN_SIZE then FRAME_MIN_SIZE else announced
  }

  /**
    When the loop is stuck, for every buffer: if and only if the announced frame, or the smallest that
    could still be announced, counted in 16-bit arithmetic, ends beyond the 4096-byte array.
   */
  lemma {:induction false} StuckIff(buf: seq<byte>)
    requires |buf| <= RX_BUF_SIZE
    ensures Stuck(buf) <==> Candidate(buf) + Fewest(buf, Candidate(buf)) > RX_BUF_SIZE
  {
    hide Candidate, Fewest, Parse;
    var p := Candidate(buf);
    if p + Fewest(buf, p) > RX_BUF_SIZE {
      forall more: seq<byte> | |buf| + |more| <= RX_BUF_SIZE ensures Parse(buf + more) == Incomplete {
        NeverDecided(buf, more);
      }
    } else {
      var more := Completion(buf);
    }
  }

  lemma {:induction false} NeverDecided(buf: seq<byte>, more: seq<byte>)
    requires |buf| + |more| <= RX_BUF_SIZE < Candidate(buf) + Fewest(buf, Candidate(buf))
    ensures Parse(buf + more) == Incomplete
  {
    hide FindHeader, Deserialize, DeviceFrameAt;
    var s := buf + more;
    match FindHeader(buf)
    case Some(pos) =>
      SameHeader(buf, more, pos);
      if |s| >= pos + PREFIX_SIZE {
        LengthField(buf, more, pos);
      }
    case None =>
      match FindHeader(s)
      case None =>
      case Some(pos) =>
        assert pos + 1 < |buf| ==> HeaderAt(buf, pos);
  }

  /** The length field of the whole announces at least what its known part does. */
  lemma LengthField(buf: seq<byte>, more: seq<byte>, pos: nat)
    requires pos + PREFIX_SIZE <= |buf| + |more| && pos <= |buf|
    ensures var t := TotalLen(DeclaredLen((buf + more)[pos..]));
            Fewest(buf, pos) <= FRAME_MIN_SIZE || Fewest(buf, pos) <= t
  {
    var s := buf + more;
    assert s[pos..][14] == s[pos + 14] && s[pos..][15] == s[pos + 15];
  }

  /** The rest of a header, the smallest length that is still open, and zeros up to the end of the array. */
  lemma {:induction false} Completion(buf: seq<byte>) returns (more: seq<byte>)
    requires |buf| <= RX_BUF_SIZE && Candidate(buf) + Fewest(buf, Candidate(buf)) <= RX_BUF_SIZE
    ensures |buf| + |more| == RX_BUF_SIZE && Parse(buf + more) != Incomplete
  {
    hide FindHeader, Parse;
    var p := Candidate(buf);
    var low: byte := if |buf| == p + 15 then buf[p + 14] else 0xEC;
    var high: byte :=
      if |buf| == p + 15 && TotalLen(low) < TotalLen(low as int + 0xFF00) then 0x00 else 0xFF;
    more := seq<byte>(RX_BUF_SIZE - |buf|, i requires 0 <= i => Filler(|buf| + i - p, low, high));
    var s := buf + more;
    assert forall k: nat :: |buf| <= k < |s| ==> s[k] == Filler(k - p, low, high);
    assert HeaderAt(s, p);
    forall i: nat | i < p ensures !HeaderAt(s, i) {
      assert i + 1 < |buf| ==> !HeaderAt(buf, i);
    }
    assert FindHeader(s) == Some(p);
    assert s[p..][14] == s[p + 14] && s[p..][15] == s[p + 15];
    Decided(s, p);
  }

  lemma Decided(s: seq<byte>, p: nat)
    requires FindHeader(s) == Some(p) && p + FRAME_MIN_SIZE <= |s|
    requires p + TotalLen(DeclaredLen(s[p..])) <= |s|
    ensures Parse(s) != Incomplete
  {
    hide FindHeader, DeviceFrameAt;
  }

  function Filler(k: int, low: byte, high: byte): byte {
    if k == 0 then 0x12 else if k == 1 then 0x34 else if k == 14 then low else if k == 15 then high else 0
  }

  /** A frame longer than the array sticks as soon as its header fields are in, whatever the blocks. */
  lemma {:induction false} OverlongSticks(f: WireFrame, k: nat)
    requires RX_BUF_SIZE < |Serialize(f)| < 0x1_0000 && PREFIX_SIZE <= k <= RX_BUF_SIZE
    ensures Stuck(Serialize(f)[..k])
  {
    hide Serialize, Deserialize, Parse, FrameAt, Stuck;
    var s := Serialize(f);
    var buf := s[..k];
    FieldsOfSerialized(f, []);
    assert s + [] == s;
    assert HeaderAt(buf, 0);
    assert FindHeader(buf) == Some(0);
    StuckIff(buf);
  }

  /** So is a full buffer without a complete frame: nothing in it is ever discarded. */
  lemma {:induction false} FullIsStuck(buf: seq<byte>)
    requires |buf| == RX_BUF_SIZE && Parse(buf) == Incomplete
    ensures Stuck(buf)
  {
    forall more: seq<byte> | |buf| + |more| <= RX_BUF_SIZE ensures Parse(buf + more) == Incomplete {
      assert buf + more == buf;
    }
  }

  lemma {:induction false} StuckStep(rx: Rx, e: Event)
    requires Stuck(rx.buf)
    ensures var r := RxStep(rx, e);
            && Stuck(r.buf) && r.dispatched == rx.dispatched && rx.buf <= r.buf
            && (e.Process? ==> r == rx)
  {
    hide Parse;
    assert rx.buf + [] == rx.buf;
    match e {
      case Arrives(data) =>
        if |rx.buf| + |data| <= RX_BUF_SIZE {
          forall more: seq<byte> | |rx.buf + data| + |more| <= RX_BUF_SIZE
            ensures Parse(rx.buf + data + more) == Incomplete
          {
            assert rx.buf + data + more == rx.buf + (data + more);
          }
        }
      case Process =>
        assert rx.dispatched + [] == rx.dispatched;
    }
  }

  /** Once stuck, always stuck: whatever arrives later, no frame is dispatched and no byte leaves the buffer. */
  lemma {:induction false} StuckForGood(before: seq<Event>, after: seq<Event>)
    requires Stuck(RxRun(before).buf)
    ensures var r := RxRun(before + after);
            && r.dispatched == RxRun(before).dispatched
            && RxRun(before).buf <= r.buf
            && Stuck(r.buf)
    decreases |after|
  {
    hide Stuck, RxStep;
    if after == [] {
      assert before + after == before;
    } else {
      var init := after[..|after| - 1];
      var last := after[|after| - 1];
      var events := before + after;
      assert events[..|events| - 1] == before + init && events[|events| - 1] == last;
      StuckForGood(before, init);
      StuckStep(RxRun(before + init), last);
    }
  }

  /** Nothing without a header is ever removed: 4080 such bytes, in any blocks, and no frame gets through again. */
  lemma {:induction false} NoiseWedges(before: seq<Event>, after: seq<Event>)
    requires NoneDropped(before) && HeaderFree(Arrived(before)) && |Arrived(before)| >= 4080
    ensures RxRun(before).buf == Arrived(before)
    ensures Stuck(RxRun(before).buf)
    ensures RxRun(before + after).dispatched == []
  {
    hide NoneDropped, Arrived, RxRun, Stuck, HeaderFree;
    NoiseStays(before);
    var noise := Arrived(before);
    assert FindHeader(noise) == None;
    StuckIff(noise);
    StuckForGood(before, after);
  }

  lemma {:induction false} NoiseStays(events: seq<Event>)
    requires NoneDropped(events) && HeaderFree(Arrived(events))
    ensures RxRun(events) == Rx(Arrived(events), [])
    ensures |Arrived(events)| <= RX_BUF_SIZE
    decreases |events|
  {
    hide NoneDropped, Arrived, RxRun, Drain;
    if events == [] {
      NothingYet();
    } else {
      var init := events[..|events| - 1];
      var noise := Arrived(init);
      LastEvent(events);
      forall i: nat | i < |noise| ensures !HeaderAt(noise, i) {
        assert !HeaderAt(Arrived(events), i);
      }
      NoiseStays(init);
      NoHeaderNoFrame(noise);
    }
  }

  lemma NoHeaderNoFrame(noise: seq<byte>)
    requires HeaderFree(noise)
    ensures Drain(noise) == Drained([], noise, false)
  {
  }
}
