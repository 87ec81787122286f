/** The PC's incremental stream decoder and the read loop that drives it. */
module Decoder {
  import opened Bytes
  import opened Frames
  import opened Scanner

  /** Two buffers no later input can tell apart: equal, or nothing against a lone byte that starts no header. */
  predicate SameResidue(buf: seq<byte>, rest: seq<byte>) {
    buf == rest || (rest == [] && |buf| == 1 && buf[0] != 0x12)
  }

  lemma ResidueIsInvisible(buf: seq<byte>, rest: seq<byte>, more: seq<byte>)
    requires SameResidue(buf, rest)
    ensures Scan(buf + more) == Scan(rest + more)
  {
    if buf != rest {
      var s := buf + more;
      assert s[0] == buf[0] != 0x12;
      assert !Undecided(s) && Deserialize(s).Err?;
      assert s[1..] == rest + more;
    }
  }

  /** Only the announced bytes of the frame decide whether it is well formed. */
  lemma DecidedByPrefix(s: seq<byte>, n: nat)
    requires StartsWithHeader(s) && PREFIX_SIZE <= |s| && n == PREFIX_SIZE + DeclaredLen(s) + SUFFIX_SIZE <= |s|
    ensures !Undecided(s)
    ensures Deserialize(s[..n]).Ok? ==> Deserialize(s) == Deserialize(s[..n]) && Deserialize(s).value.consumed == n
    ensures Deserialize(s[..n]).Err? ==> Deserialize(s).Err?
  {
    var t := s[..n];
    assert t + s[n..] == s;
    assert DeclaredLen(t) == DeclaredLen(s);
    DecisionIsStable(t, s[n..]);
  }

  /** Taking the frame at the front. */
  lemma TakeFrame(s: seq<byte>, n: nat)
    requires StartsWithHeader(s) && PREFIX_SIZE <= |s| && n == PREFIX_SIZE + DeclaredLen(s) + SUFFIX_SIZE <= |s|
    ensures match Deserialize(s[..n])
            case Ok(p) => Scan(s) == Scanned([p.frame] + Scan(s[n..]).frames, Scan(s[n..]).rest)
            case Err(_) => Scan(s) == Scan(s[2..])
  {
    DecidedByPrefix(s, n);
    if Deserialize(s).Err? {
      SkipBadHeader(s);
    }
  }

  class FrameDecoder {
    var buf: seq<byte>
    // Length of the frame at the front of buf once its header is complete, 0 while waiting for it.
    var expectedLen: nat

    predicate Valid()
      reads this
      ensures Valid() ==> |buf| <= 1 || Undecided(buf)
    {
      if expectedLen == 0 then |buf| <= 1 || (StartsWithHeader(buf) && |buf| < PREFIX_SIZE)
      else
        && StartsWithHeader(buf)
        && PREFIX_SIZE <= |buf| < expectedLen
        && expectedLen == PREFIX_SIZE + DeclaredLen(buf) + SUFFIX_SIZE
    }

    constructor ()
      ensures Valid() && buf == [] && expectedLen == 0
    {
      buf := [];
      expectedLen := 0;
    }

    predicate Announced()
      reads this
    {
      && StartsWithHeader(buf) && |buf| >= PREFIX_SIZE
      && expectedLen == PREFIX_SIZE + DeclaredLen(buf) + SUFFIX_SIZE
    }

    /** Looks for a header: drops what precedes it, and learns the frame length or waits for more bytes. */
    method Synchronise() returns (ready: bool)
      requires expectedLen == 0
      modifies this
      ensures |buf| <= old(|buf|)
      ensures ready ==> Announced() && Scan(buf) == Scan(old(buf))
      ensures !ready ==> Valid() && |buf| < PREFIX_SIZE
      ensures !ready ==> Scan(old(buf)).frames == [] && SameResidue(buf, Scan(old(buf)).rest)
    {
      hide Scan, Deserialize;
      ready := false;
      match FindHeader(buf) {
        case Some(pos) =>
          SkipNoise(buf, pos);
          if pos > 0 {
            buf := buf[pos..];
          }
          if |buf| >= PREFIX_SIZE {
            var dataLen := DeclaredLen(buf);
            expectedLen := PREFIX_SIZE + dataLen + SUFFIX_SIZE;
            ready := true;
          } else {
            UndecidedIsKept(buf);
          }
        case None =>
          ScanHeaderFree(buf);
          if |buf| > 1 {
            var keep := if buf[|buf| - 1] == 0x12 then 1 else 0;
            if keep < |buf| {
              buf := buf[|buf| - keep..];
            }
          }
      }
    }

    /** Emits what the reference scanner finds in everything buffered plus `data`, and keeps its rest. */
    method Feed(data: seq<byte>) returns (frames: seq<Frame>)
      requires Valid()
      modifies this
      ensures Valid()
      ensures frames == Scan(old(buf) + data).frames
      ensures SameResidue(buf, Scan(old(buf) + data).rest)
      ensures |buf| < 65555
    {
      hide Scan, Deserialize;
      buf := buf + data;
      frames := [];
      ghost var all := buf;
      assert [] + Scan(all).frames == Scan(all).frames;
      while true
        invariant expectedLen != 0 ==> Announced()
        invariant Scan(all).frames == frames + Scan(buf).frames
        invariant Scan(all).rest == Scan(buf).rest
        decreases |buf|
      {
        if expectedLen == 0 {
          var ready := Synchronise();
          if !ready {
            break;
          }
        }
        if expectedLen > 0 && |buf| >= expectedLen {
          TakeFrame(buf, expectedLen);
          var r := FromBytes(buf[..expectedLen]);
          match r {
            case Ok(p) =>
              ghost var later := Scan(buf[expectedLen..]).frames;
              assert frames + ([p.frame] + later) == (frames + [p.frame]) + later;
              frames := frames + [p.frame];
              buf := buf[expectedLen..];
              expectedLen := 0;
            case Err(_) =>
              buf := buf[2..];
              expectedLen := 0;
          }
        } else {
          UndecidedIsKept(buf);
          break;
        }
      }
      assert frames + [] == frames;
    }

    method Pending() returns (n: nat)
      requires Valid()
      ensures n == |buf| && n < 65555
    {
      n := |buf|;
    }
  }

  /** A decoder between feeds holds no frame, and its buffer is already a residue. */
  lemma IdleResidue(buf: seq<byte>)
    requires |buf| <= 1 || Undecided(buf)
    ensures Scan(buf).frames == [] && SameResidue(buf, Scan(buf).rest)
  {
    if |buf| == 1 && buf[0] != 0x12 {
      assert buf[1..] == [] && buf != [0x12];
      assert Deserialize(buf).Err?;
    }
  }

  /** The reader thread: feeds whatever each read returned and forwards the frames. */
  method ReadLoop(decoder: FrameDecoder, chunks: seq<seq<byte>>) returns (frames: seq<Frame>)
    requires decoder.Valid()
    modifies decoder
    ensures decoder.Valid()
    ensures frames == Scan(old(decoder.buf) + Flatten(chunks)).frames
    ensures SameResidue(decoder.buf, Scan(old(decoder.buf) + Flatten(chunks)).rest)
  {
    hide Scan, Undecided, Deserialize;
    frames := [];
    ghost var start := decoder.buf;
    assert start + [] == start;
    IdleResidue(start);
    for i := 0 to |chunks|
      invariant decoder.Valid()
      invariant frames == Scan(start + Flatten(chunks[..i])).frames
      invariant SameResidue(decoder.buf, Scan(start + Flatten(chunks[..i])).rest)
    {
      ghost var a := start + Flatten(chunks[..i]);
      ScanAppend(a, chunks[i]);
      ResidueIsInvisible(decoder.buf, Scan(a).rest, chunks[i]);
      var more := decoder.Feed(chunks[i]);
      frames := frames + more;
      FlattenSnoc(chunks[..i], chunks[i]);
      assert chunks[..i + 1] == chunks[..i] + [chunks[i]];
      assert start + Flatten(chunks[..i + 1]) == a + chunks[i];
    }
    assert chunks[..|chunks|] == chunks;
  }

  /**
    A port from its opening on: a fresh decoder and the reader thread. When the bytes read are frames
    with header-free noise around them, however the reads cut them, exactly those frames come out.
   */
  method ReadPort(chunks: seq<seq<byte>>, ghost noise: seq<seq<byte>>, ghost sent: seq<Frame>)
    returns (frames: seq<Frame>)
    ensures frames == Scan(Flatten(chunks)).frames
    ensures |noise| == |sent| + 1 && Flatten(chunks) == Stream(noise, sent)
            && (forall n :: n in noise ==> HeaderFree(n)) && (forall f :: f in sent ==> |f.data| <= MAX_DATA) ==>
              frames == sent
  {
    hide Scan, Stream;
    var decoder := new FrameDecoder();
    frames := ReadLoop(decoder, chunks);
    assert [] + Flatten(chunks) == Flatten(chunks);
    if |noise| == |sent| + 1 && Flatten(chunks) == Stream(noise, sent)
       && (forall n :: n in noise ==> HeaderFree(n)) && (forall f :: f in sent ==> |f.data| <= MAX_DATA) {
      StreamRoundTrip(noise, sent);
    }
  }
}
