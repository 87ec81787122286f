/** Frame layout, serialisation and parsing on the PC side. */
module Frames {
  import opened Bytes

  const HEADER: seq<byte> := [0x12, 0x34]
  const TAIL: seq<byte> := [0xCD, 0xEF]
  const PREFIX_SIZE := 16
  const SUFFIX_SIZE := 4
  const MIN_FRAME_SIZE := 20
  const MAX_DATA := 0xFFFF

  const ADDR_PC: u16 := 0x00
  const ADDR_DEVICE: u16 := 0x20
  const ERROR_MARKER: seq<byte> := [0xFF, 0xFF, 0xFF, 0xFF]

  datatype Frame = Frame(
    seqNo: u16,
    src: u16,
    dst: u16,
    totalPackets: u16,
    packetSeq: u16,
    command: u16,
    data: seq<byte>)
  {
    predicate IsErrorResponse() {
      data == ERROR_MARKER
    }
  }

  /** A frame whose data fits the 16-bit length field: all that Frame::new and both parsers produce. */
  type WireFrame = f: Frame | |f.data| <= MAX_DATA witness Frame(0, 0, 0, 0, 0, 0, [])

  datatype FrameError =
    | DataTooLong(len: nat)
    | BufferTooShort(need: nat, got: nat)
    | InvalidHeader(header: seq<byte>)
    | InvalidTail(tail: seq<byte>)

  datatype Result<+T> = Ok(value: T) | Err(error: FrameError)

  datatype Parsed = Parsed(frame: Frame, consumed: nat)

  /** A request from the PC to the device, refused when the data cannot be described by a 16-bit length. */
  function NewRequest(command: u16, data: seq<byte>): (r: Result<Frame>) {
    WithFields(0, ADDR_PC, ADDR_DEVICE, 1, 0, command, data)
  }

  function WithFields(seqNo: u16, src: u16, dst: u16, totalPackets: u16, packetSeq: u16,
                      command: u16, data: seq<byte>): (r: Result<Frame>)
  {
    if |data| > MAX_DATA then Err(DataTooLong(|data|))
    else Ok(Frame(seqNo, src, dst, totalPackets, packetSeq, command, data))
  }

  /** The sixteen bytes before the data area; `len` is the length field. */
  function Prefix(f: Frame, len: u16): (p: seq<byte>)
    ensures |p| == PREFIX_SIZE
  {
    [0x12, 0x34,
     f.seqNo % 0x100, f.seqNo / 0x100,
     f.src % 0x100, f.src / 0x100,
     f.dst % 0x100, f.dst / 0x100,
     f.totalPackets % 0x100, f.totalPackets / 0x100,
     f.packetSeq % 0x100, f.packetSeq / 0x100,
     f.command % 0x100, f.command / 0x100,
     len % 0x100, len / 0x100]
  }

  /** The bytes on the wire. The length field is the data length truncated to 16 bits. */
  function Serialize(f: Frame): seq<byte> {
    Prefix(f, |f.data| % 0x1_0000) + f.data + [0x00, 0x00] + TAIL
  }

  predicate StartsWithHeader(s: seq<byte>) {
    |s| >= 2 && s[0] == 0x12 && s[1] == 0x34
  }

  function DeclaredLen(s: seq<byte>): u16
    requires |s| >= PREFIX_SIZE
  {
    ReadLe16(s, 14)
  }

  /** The frame described by the fixed fields and the declared length, whatever the tail. */
  function FrameAt(s: seq<byte>): Frame
    requires |s| >= PREFIX_SIZE && |s| >= PREFIX_SIZE + DeclaredLen(s)
  {
    Frame(ReadLe16(s, 2), ReadLe16(s, 4), ReadLe16(s, 6), ReadLe16(s, 8), ReadLe16(s, 10), ReadLe16(s, 12),
          s[PREFIX_SIZE..PREFIX_SIZE + DeclaredLen(s)])
  }

  function Deserialize(s: seq<byte>): (r: Result<Parsed>)
    ensures r.Ok? ==> |s| >= r.value.consumed == MIN_FRAME_SIZE + |r.value.frame.data|
  {
    if |s| < MIN_FRAME_SIZE then Err(BufferTooShort(MIN_FRAME_SIZE, |s|))
    else if !StartsWithHeader(s) then Err(InvalidHeader(s[..2]))
    else
      var total := PREFIX_SIZE + DeclaredLen(s) + SUFFIX_SIZE;
      if |s| < total then Err(BufferTooShort(total, |s|))
      else if s[total - 2..total] != TAIL then Err(InvalidTail(s[total - 2..total]))
      else Ok(Parsed(FrameAt(s), total))
  }

  /** What from_bytes accepts, and which of its complaints it makes otherwise: length first, then header, then tail. */
  lemma {:induction false} DeserializeOutcome(s: seq<byte>)
    ensures var r := Deserialize(s);
            var declared := if |s| >= 16 then s[14] as int + 0x100 * s[15] as int else 0;
            && (r == Err(BufferTooShort(20, |s|)) <==> |s| < 20)
            && (|s| >= 20 && (s[0] != 0x12 || s[1] != 0x34) ==> r == Err(InvalidHeader(s[..2])))
            && (|s| >= 20 && s[0] == 0x12 && s[1] == 0x34 && |s| < 20 + declared ==>
                  r == Err(BufferTooShort(20 + declared, |s|)))
            && (|s| >= 20 + declared && s[0] == 0x12 && s[1] == 0x34 ==>
                  var end := 18 + declared;
                  && (r.Ok? <==> s[end] == 0xCD && s[end + 1] == 0xEF)
                  && (r.Err? ==> r == Err(InvalidTail(s[end..end + 2])))
                  && (r.Ok? ==> r.value.consumed == 20 + declared && r.value.frame.data == s[16..16 + declared]))
  {
  }

  /** The bytes of a frame, position by position, as the protocol document lists them. */
  lemma {:induction false} WireLayout(f: WireFrame)
    ensures var s := Serialize(f);
            var n := |f.data|;
            && |s| == 20 + n
            && s[0] == 0x12 && s[1] == 0x34
            && s[2] as int + 0x100 * s[3] as int == f.seqNo
            && s[4] as int + 0x100 * s[5] as int == f.src
            && s[6] as int + 0x100 * s[7] as int == f.dst
            && s[8] as int + 0x100 * s[9] as int == f.totalPackets
            && s[10] as int + 0x100 * s[11] as int == f.packetSeq
            && s[12] as int + 0x100 * s[13] as int == f.command
            && s[14] as int + 0x100 * s[15] as int == n
            && s[16..16 + n] == f.data
            && s[16 + n..] == [0x00, 0x00, 0xCD, 0xEF]
  {
    var p := Prefix(f, |f.data|);
    assert forall i | 0 <= i < 16 :: Serialize(f)[i] == p[i];
  }

  /** Everything before the reserved bytes can be rebuilt from the parsed fields. */
  lemma FieldsRebuild(s: seq<byte>)
    requires |s| >= MIN_FRAME_SIZE && StartsWithHeader(s) && |s| >= PREFIX_SIZE + DeclaredLen(s) + SUFFIX_SIZE
    ensures var f := FrameAt(s);
            Prefix(f, |f.data| % 0x1_0000) + f.data == s[..PREFIX_SIZE + DeclaredLen(s)]
  {
    var f := FrameAt(s);
    assert |f.data| % 0x1_0000 == DeclaredLen(s);
    var p := Prefix(f, DeclaredLen(s));
    assert p[0] == s[0] && p[1] == s[1];
    assert p[2] == s[2] && p[3] == s[3] by { Le16OfRead(s, 2); }
    assert p[4] == s[4] && p[5] == s[5] by { Le16OfRead(s, 4); }
    assert p[6] == s[6] && p[7] == s[7] by { Le16OfRead(s, 6); }
    assert p[8] == s[8] && p[9] == s[9] by { Le16OfRead(s, 8); }
    assert p[10] == s[10] && p[11] == s[11] by { Le16OfRead(s, 10); }
    assert p[12] == s[12] && p[13] == s[13] by { Le16OfRead(s, 12); }
    assert p[14] == s[14] && p[15] == s[15] by { Le16OfRead(s, 14); }
    assert p == s[..16];
  }

  /**
    Frame inversion: whatever from_bytes accepts, re-serialising gives back the consumed bytes
    except the two reserved ones, which are written as zero.
   */
  lemma SerializeInvertsDeserialize(s: seq<byte>)
    requires Deserialize(s).Ok?
    ensures var Ok(Parsed(f, n)) := Deserialize(s);
            && MIN_FRAME_SIZE <= n <= |s|
            && |f.data| <= MAX_DATA
            && Serialize(f) == s[..n][n - 4 := 0x00][n - 3 := 0x00]
  {
    var Ok(Parsed(f, n)) := Deserialize(s);
    FieldsRebuild(s);
    assert s[..n] == s[..n - 4] + [s[n - 4], s[n - 3]] + s[n - 2..n];
  }

  lemma FieldsOfSerialized(f: Frame, rest: seq<byte>)
    requires |f.data| <= MAX_DATA
    ensures var s := Serialize(f) + rest;
            && |Serialize(f)| == MIN_FRAME_SIZE + |f.data|
            && StartsWithHeader(s)
            && DeclaredLen(s) == |f.data|
            && FrameAt(s) == f
            && s[16 + |f.data|..20 + |f.data|] == [0x00, 0x00] + TAIL
  {
    var s := Serialize(f) + rest;
    var p := Prefix(f, |f.data|);
    assert forall i | 0 <= i < 16 :: s[i] == p[i];
    assert s[16..16 + |f.data|] == f.data;
    assert s[16 + |f.data|..20 + |f.data|] == [0x00, 0x00] + TAIL;
  }

  /**
    Stream position by stream position, a serialised frame parses back to itself with its exact
    length, whatever follows it, if and only if its data fits the 16-bit length field.
   */
  lemma ParsesBackIff(f: Frame, rest: seq<byte>)
    ensures Deserialize(Serialize(f) + rest) == Ok(Parsed(f, |Serialize(f)|)) <==> |f.data| <= MAX_DATA
  {
    var s := Serialize(f) + rest;
    if |f.data| <= MAX_DATA {
      FieldsOfSerialized(f, rest);
      var n := 20 + |f.data|;
      assert s[n - 2..n] == s[16 + |f.data|..n][2..];
    } else if Deserialize(s).Ok? {
      assert |FrameAt(s).data| <= MAX_DATA;
    }
  }

  /** Frame::to_bytes, growing the buffer field by field. */
  method ToBytes(f: Frame) returns (buf: seq<byte>)
    ensures buf == Serialize(f)
  {
    var len: u16 := |f.data| % 0x1_0000;
    buf := HEADER;
    buf := buf + Le16(f.seqNo);
    buf := buf + Le16(f.src);
    buf := buf + Le16(f.dst);
    buf := buf + Le16(f.totalPackets);
    buf := buf + Le16(f.packetSeq);
    buf := buf + Le16(f.command);
    buf := buf + Le16(len);
    assert buf == Prefix(f, len);
    buf := buf + f.data;
    buf := buf + [0x00];
    buf := buf + [0x00];
    buf := buf + TAIL;
    assert [0x00] + [0x00] == [0x00, 0x00 as byte];
    assert buf == Prefix(f, len) + f.data + [0x00, 0x00] + TAIL;
  }

  /** Frame::from_bytes, advancing a read position through the fields. */
  method FromBytes(buf: seq<byte>) returns (r: Result<Parsed>)
    ensures r == Deserialize(buf)
  {
    if |buf| < MIN_FRAME_SIZE {
      return Err(BufferTooShort(MIN_FRAME_SIZE, |buf|));
    }
    var header := [buf[0], buf[1]];
    if header != HEADER {
      assert header == buf[..2];
      return Err(InvalidHeader(header));
    }
    var pos: nat := 2;
    var seqNo := ReadLe16(buf, pos);
    pos := pos + 2;
    var src := ReadLe16(buf, pos);
    pos := pos + 2;
    var dst := ReadLe16(buf, pos);
    pos := pos + 2;
    var totalPackets := ReadLe16(buf, pos);
    pos := pos + 2;
    var packetSeq := ReadLe16(buf, pos);
    pos := pos + 2;
    var command := ReadLe16(buf, pos);
    pos := pos + 2;
    var dataLen := ReadLe16(buf, pos);
    pos := pos + 2;
    var total := PREFIX_SIZE + dataLen + SUFFIX_SIZE;
    if |buf| < total {
      return Err(BufferTooShort(total, |buf|));
    }
    var data := buf[pos..pos + dataLen];
    pos := pos + dataLen;
    pos := pos + 2;
    var tail := [buf[pos], buf[pos + 1]];
    assert tail == buf[total - 2..total];
    if tail != TAIL {
      return Err(InvalidTail(tail));
    }
    return Ok(Parsed(Frame(seqNo, src, dst, totalPackets, packetSeq, command, data), total));
  }
}
