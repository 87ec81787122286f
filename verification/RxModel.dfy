/** The device's view of the byte stream: its frame parser and receive loop as functions. */
module RxModel {
  import opened Bytes
  import opened Frames
  import opened Scanner

  const RX_BUF_SIZE := 4096
  // The device's smallest length worth looking at; two bytes short of the smallest real frame.
  const FRAME_MIN_SIZE := 18

  /** Everything ota_frame_parse copies out, with the two reserved bytes and the unchecked tail. */
  datatype DeviceFrame = DeviceFrame(frame: WireFrame, reserved: u16, tail: seq<byte>)

  /**
    Incomplete is the device's -1. Overrun is the case where the 16-bit frame length has wrapped round
    and the copy would run past the received bytes, of which there are fewer than 0x1_0000.
   */
  datatype ParseResult =
    | Incomplete
    | Accepted(parsed: DeviceFrame, consumed: nat)
    | Overrun

  function TotalLen(dataLen: u16): u16 {
    (PREFIX_SIZE + dataLen + SUFFIX_SIZE) % 0x1_0000
  }

  /** The frame at the front of `s`, whatever its tail. */
  function DeviceFrameAt(s: seq<byte>): DeviceFrame
    requires |s| >= PREFIX_SIZE && |s| >= PREFIX_SIZE + DeclaredLen(s) + SUFFIX_SIZE
  {
    var end := PREFIX_SIZE + DeclaredLen(s);
    DeviceFrame(FrameAt(s), ReadLe16(s, end), s[end + 2..end + 4])
  }

  /**
    The frame is read where its header is, but the length handed back does not include the bytes
    skipped before it.
   */
  function ParseAt(buf: seq<byte>, pos: nat): (r: ParseResult)
    requires pos + FRAME_MIN_SIZE <= |buf|
    ensures r.Accepted? ==> MIN_FRAME_SIZE <= r.consumed && pos + r.consumed <= |buf|
  {
    var s := buf[pos..];
    var n := PREFIX_SIZE + DeclaredLen(s) + SUFFIX_SIZE;
    if pos + TotalLen(DeclaredLen(s)) > |buf| then Incomplete
    else if n >= 0x1_0000 then Overrun
    else Accepted(DeviceFrameAt(s), TotalLen(DeclaredLen(s)))
  }

  function Parse(buf: seq<byte>): (r: ParseResult)
    ensures r.Accepted? ==> MIN_FRAME_SIZE <= r.consumed <= |buf|
  {
    if |buf| < FRAME_MIN_SIZE then Incomplete
    else
      match FindHeader(buf)
      case None => Incomplete
      case Some(pos) => if pos + FRAME_MIN_SIZE > |buf| then Incomplete else ParseAt(buf, pos)
  }

  datatype Drained = Drained(frames: seq<DeviceFrame>, rest: seq<byte>, overrun: bool)

  /** ota_process_rx: parse and hand over frames from the front until the parser finds no more. */
  function Drain(buf: seq<byte>): (d: Drained)
    decreases |buf|
  {
    match Parse(buf)
    case Incomplete => Drained([], buf, false)
    case Overrun => Drained([], buf, true)
    case Accepted(f, n) =>
      var d := Drain(buf[n..]);
      Drained([f] + d.frames, d.rest, d.overrun)
  }

  /** An arriving block is taken whole or dropped whole. */
  function Append(buf: seq<byte>, data: seq<byte>): seq<byte> {
    if |buf| + |data| <= RX_BUF_SIZE then buf + data else buf
  }

  /** A header in view stays the first one, with its length field, whatever is appended. */
  lemma {:induction false} SameHeader(buf: seq<byte>, more: seq<byte>, pos: nat)
    requires FindHeader(buf) == Some(pos)
    ensures FindHeader(buf + more) == Some(pos)
    ensures pos + PREFIX_SIZE <= |buf| ==> DeclaredLen((buf + more)[pos..]) == ReadLe16(buf, pos + 14)
  {
    var s := buf + more;
    assert HeaderAt(s, pos);
    forall i: nat | i < pos ensures !HeaderAt(s, i) {
      assert !HeaderAt(buf, i);
    }
  }

  /** Once the parser has come to a decision, later bytes do not change it. */
  lemma {:induction false} ParseExtends(a: seq<byte>, b: seq<byte>)
    requires Parse(a) != Incomplete
    ensures Parse(a + b) == Parse(a)
  {
    hide FindHeader, Deserialize, Serialize;
    var pos := FindHeader(a).value;
    SameHeader(a, b, pos);
    SameHeader(a, [], pos);
    assert a + [] == a;
    var s := a[pos..];
    assert (a + b)[pos..] == s + b;
    if Parse(a).Accepted? {
      SameFrame(s, b);
    }
  }

  lemma SameFrame(s: seq<byte>, b: seq<byte>)
    requires |s| >= PREFIX_SIZE && |s| >= PREFIX_SIZE + DeclaredLen(s) + SUFFIX_SIZE
    ensures DeclaredLen(s + b) == DeclaredLen(s) && DeviceFrameAt(s + b) == DeviceFrameAt(s)
  {
    var end := PREFIX_SIZE + DeclaredLen(s);
    assert (s + b)[PREFIX_SIZE..end] == s[PREFIX_SIZE..end];
    assert (s + b)[end + 2..end + 4] == s[end + 2..end + 4];
  }

  /** Draining in two steps, with more bytes arriving between them, is draining all at once. */
  lemma {:induction false} DrainConcat(a: seq<byte>, b: seq<byte>)
    ensures var d := Drain(a);
            var e := Drain(d.rest + b);
            Drain(a + b) == Drained(d.frames + e.frames, e.rest, e.overrun)
    decreases |a|
  {
    hide Parse;
    match Parse(a)
    case Incomplete =>
      assert Drain(a).rest + b == a + b;
    case Overrun =>
      ParseExtends(a, b);
    case Accepted(f, n) =>
      ParseExtends(a, b);
      assert (a + b)[n..] == a[n..] + b;
      DrainConcat(a[n..], b);
      var d := Drain(a[n..]);
      var e := Drain(d.rest + b);
      assert [f] + (d.frames + e.frames) == ([f] + d.frames) + e.frames;
  }

  /** What a pass leaves behind is nothing to another pass, and never more than there was. */
  lemma {:induction false} DrainSettles(a: seq<byte>)
    ensures var d := Drain(a);
            |d.rest| <= |a| && Drain(d.rest) == Drained([], d.rest, d.overrun)
    decreases |a|
  {
    hide Parse;
    if Parse(a).Accepted? {
      DrainSettles(a[Parse(a).consumed..]);
    }
  }

  lemma {:induction false} ParseAtFront(buf: seq<byte>)
    requires StartsWithHeader(buf) && |buf| >= FRAME_MIN_SIZE
    ensures Parse(buf) == ParseAt(buf, 0) && buf[0..] == buf
  {
    hide ParseAt;
    assert HeaderAt(buf, 0);
    assert FindHeader(buf) == Some(0);
  }

  /**
    Parser agreement: at a header and below the length where 16-bit arithmetic wraps, the device accepts
    exactly what from_bytes accepts or rejects for its tail alone, with the same fields and length.
   */
  lemma {:induction false} ParsersAgree(buf: seq<byte>)
    requires |buf| >= PREFIX_SIZE && StartsWithHeader(buf) && DeclaredLen(buf) <= 65515
    ensures Parse(buf).Accepted? <==>
            Deserialize(buf).Ok? || (Deserialize(buf).Err? && Deserialize(buf).error.InvalidTail?)
    ensures Parse(buf).Accepted? ==>
              && Parse(buf).parsed.frame == FrameAt(buf)
              && Parse(buf).consumed == PREFIX_SIZE + DeclaredLen(buf) + SUFFIX_SIZE
              && (Deserialize(buf).Ok? <==> Parse(buf).parsed.tail == TAIL)
    ensures Deserialize(buf).Ok? ==> Deserialize(buf).value == Parsed(Parse(buf).parsed.frame, Parse(buf).consumed)
    ensures !Parse(buf).Overrun?
  {
    if |buf| >= FRAME_MIN_SIZE {
      ParseAtFront(buf);
    }
  }

  /** The announced lengths for which the wrapped 16-bit length lets the device copy past what it received. */
  lemma {:induction false} OverrunIff(buf: seq<byte>)
    requires FRAME_MIN_SIZE <= |buf| < 0x1_0000 && StartsWithHeader(buf)
    ensures Parse(buf).Overrun? <==> 65515 < DeclaredLen(buf) <= 65516 + |buf|
  {
    ParseAtFront(buf);
  }

  function AsReceived(f: WireFrame): DeviceFrame {
    DeviceFrame(f, 0, TAIL)
  }

  lemma TailOfSerialized(f: WireFrame, rest: seq<byte>)
    ensures var s := Serialize(f) + rest;
            var end := PREFIX_SIZE + |f.data|;
            && |Serialize(f)| == end + SUFFIX_SIZE
            && ReadLe16(s, end) == 0 && s[end + 2..end + 4] == TAIL
  {
    var s := Serialize(f) + rest;
    var end := PREFIX_SIZE + |f.data|;
    var quad := s[end..end + 4];
    assert quad == [0x00, 0x00] + TAIL;
    assert s[end] == quad[0] && s[end + 1] == quad[1];
    assert s[end + 2..end + 4] == quad[2..];
  }

  /** Any serialised frame is understood, with its exact length, whatever follows. */
  lemma {:induction false} DeviceUnderstands(f: WireFrame, rest: seq<byte>)
    requires |Serialize(f)| < 0x1_0000
    ensures Parse(Serialize(f) + rest) == Accepted(AsReceived(f), |Serialize(f)|)
  {
    hide Serialize, Deserialize, FrameAt;
    var s := Serialize(f) + rest;
    FieldsOfSerialized(f, rest);
    TailOfSerialized(f, rest);
    ParseAtFront(s);
  }

  lemma {:induction false} HeaderBehindNoise(noise: seq<byte>, t: seq<byte>)
    requires HeaderFree(noise) && |t| >= 2 && StartsWithHeader(t)
    ensures FindHeader(noise + t) == Some(|noise|)
  {
    var s := noise + t;
    var p := |noise|;
    assert HeaderAt(s, p) by { assert s[p] == t[0] && s[p + 1] == t[1]; }
    forall i: nat | i < p ensures !HeaderAt(s, i) {
      assert !HeaderAt(noise, i);
      assert s[i] == noise[i];
      if i + 1 == p { assert s[i + 1] == t[0] == 0x12; } else { assert s[i + 1] == noise[i + 1]; }
    }
  }

  /** Noise in front of a header changes nothing about the parser's decision on what follows, good or bad. */
  lemma {:induction false} NoiseIsSkipped(noise: seq<byte>, t: seq<byte>)
    requires HeaderFree(noise) && StartsWithHeader(t)
    ensures Parse(noise + t) == Parse(t)
  {
    hide DeviceFrameAt, FindHeader, HeaderFree;
    HeaderBehindNoise(noise, t);
    assert [] + t == t;
    assert HeaderFree([]) by { NothingIsHeaderFree(); }
    HeaderBehindNoise([], t);
    assert (noise + t)[|noise|..] == t;
    assert t[0..] == t;
  }

  lemma NothingIsHeaderFree()
    ensures HeaderFree([])
  {
  }

  /**
    Bytes in front of the frame are skipped but not counted: what remains is what follows the frame
    if and only if nothing was in front of it.
   */
  lemma {:induction false} ConsumesExactlyIff(noise: seq<byte>, f: WireFrame, rest: seq<byte>)
    requires HeaderFree(noise) && |Serialize(f)| < 0x1_0000
    ensures var s := noise + Serialize(f) + rest;
            var n := |Serialize(f)|;
            && Parse(s) == Accepted(AsReceived(f), n)
            && (s[n..] == rest <==> noise == [])
  {
    hide Deserialize, Serialize, DeviceFrameAt, DeclaredLen, FindHeader, HeaderFree;
    var t := Serialize(f) + rest;
    FieldsOfSerialized(f, rest);
    DeviceUnderstands(f, rest);
    ParseAtFront(t);
    HeaderBehindNoise(noise, t);
    assert noise + t == noise + Serialize(f) + rest;
    assert (noise + t)[|noise|..] == t;
    if noise == [] {
      assert t[|Serialize(f)|..] == rest;
    }
  }

  /** A frame-aligned stream. */
  function Wire(frames: seq<WireFrame>): seq<byte> {
    if frames == [] then [] else Serialize(frames[0]) + Wire(frames[1..])
  }

  function Received(frames: seq<WireFrame>): seq<DeviceFrame> {
    seq(|frames|, i requires 0 <= i < |frames| => AsReceived(frames[i]))
  }

  /** A frame the receive buffer can hold. */
  type FittingFrame = f: WireFrame | |Serialize(f)| <= RX_BUF_SIZE witness Frame(0, 0, 0, 0, 0, 0, [])

  lemma FrameLength(f: WireFrame)
    ensures |Serialize(f)| == MIN_FRAME_SIZE + |f.data|
  {
  }

  predicate Fits(frames: seq<WireFrame>) {
    forall f :: f in frames ==> |Serialize(f)| <= RX_BUF_SIZE
  }

  lemma {:induction false} PartialIsIncomplete(f: WireFrame, n: nat)
    requires |Serialize(f)| <= RX_BUF_SIZE && n < |Serialize(f)|
    ensures Parse(Serialize(f)[..n]) == Incomplete
  {
    var s := Serialize(f);
    var t := s[..n];
    if n >= FRAME_MIN_SIZE {
      FieldsOfSerialized(f, []);
      assert s + [] == s;
      assert DeclaredLen(t) == DeclaredLen(s);
      ParseAtFront(t);
    }
  }

  lemma NothingIsIncomplete()
    ensures Parse([]) == Incomplete
  {
  }

  /** Draining yields the first `k` frames and keeps part of the next. */
  predicate DrainsTo(buf: seq<byte>, frames: seq<WireFrame>, k: nat)
    requires k <= |frames|
  {
    var d := Drain(buf);
    && d.frames == Received(frames[..k]) && !d.overrun
    && buf == Wire(frames[..k]) + d.rest
    && (if k == |frames| then d.rest == [] else |d.rest| < |Serialize(frames[k])|)
  }

  lemma PartialDrainsToNothing(frames: seq<WireFrame>, n: nat)
    requires frames != [] && n < |Serialize(frames[0])| <= RX_BUF_SIZE
    ensures DrainsTo(Serialize(frames[0])[..n], frames, 0)
  {
    hide Serialize, Parse;
    PartialIsIncomplete(frames[0], n);
  }

  lemma {:induction false} DrainsOneMore(frames: seq<WireFrame>, more: seq<byte>, j: nat)
    requires 1 + j <= |frames| && |Serialize(frames[0])| < 0x1_0000
    requires DrainsTo(more, frames[1..], j)
    ensures DrainsTo(Serialize(frames[0]) + more, frames, 1 + j)
  {
    hide Serialize, Parse;
    var first := Serialize(frames[0]);
    var buf := first + more;
    DeviceUnderstands(frames[0], more);
    assert buf[|first|..] == more;
    assert frames[..1 + j][1..] == frames[1..][..j];
    assert Received(frames[..1 + j]) == [AsReceived(frames[0])] + Received(frames[1..][..j]);
    assert buf == first + Wire(frames[1..][..j]) + Drain(more).rest;
  }

  /** Draining the first `n` bytes of an aligned stream yields its complete frames and keeps the partial one. */
  lemma {:induction false} DrainAligned(frames: seq<WireFrame>, n: nat) returns (k: nat)
    requires Fits(frames) && n <= |Wire(frames)|
    ensures k <= |frames| && DrainsTo(Wire(frames)[..n], frames, k)
    decreases |frames|
  {
    hide Serialize, DrainsTo;
    if frames == [] {
      k := 0;
      NothingDrainsToNothing();
    } else {
      var first := Serialize(frames[0]);
      assert frames[0] in frames;
      if n < |first| {
        k := 0;
        PartialDrainsToNothing(frames, n);
        assert Wire(frames)[..n] == first[..n];
      } else {
        assert forall f :: f in frames[1..] ==> f in frames;
        var j := DrainAligned(frames[1..], n - |first|);
        DrainsOneMore(frames, Wire(frames[1..])[..n - |first|], j);
        assert Wire(frames)[..n] == first + Wire(frames[1..])[..n - |first|];
        k := 1 + j;
      }
    }
  }

  lemma NothingDrainsToNothing()
    ensures DrainsTo([], [], 0)
  {
    NothingIsIncomplete();
  }
}
