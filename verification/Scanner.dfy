/**
  The reference reading of a byte stream: look at the leftmost position, and if no frame starts
  there move on by a single byte. The stream decoder is proved against this scanner.
 */
module Scanner {
  import opened Bytes
  import opened Frames

  datatype Scanned = Scanned(frames: seq<Frame>, rest: seq<byte>)

  predicate HeaderAt(s: seq<byte>, i: nat) {
    i + 2 <= |s| && s[i] == 0x12 && s[i + 1] == 0x34
  }

  predicate HeaderFree(s: seq<byte>) {
    forall i: nat :: i < |s| ==> !HeaderAt(s, i)
  }

  /** Position of the leftmost header. */
  function FindHeader(s: seq<byte>): (r: Option<nat>)
    ensures r.None? <==> HeaderFree(s)
    ensures r.Some? ==> HeaderAt(s, r.value) && forall i: nat :: i < r.value ==> !HeaderAt(s, i)
  {
    FindHeaderFrom(s, 0)
  }

  function FindHeaderFrom(s: seq<byte>, from: nat): (r: Option<nat>)
    requires forall i: nat :: i < from ==> !HeaderAt(s, i)
    ensures r.None? <==> HeaderFree(s)
    ensures r.Some? ==> HeaderAt(s, r.value) && forall i: nat :: i < r.value ==> !HeaderAt(s, i)
    decreases |s| - from
  {
    if from >= |s| then None
    else if HeaderAt(s, from) then Some(from)
    else FindHeaderFrom(s, from + 1)
  }

  /** The bytes so far could still become a frame: a lone first header byte or an incomplete frame. */
  predicate Undecided(s: seq<byte>) {
    || s == [0x12]
    || (StartsWithHeader(s) && (|s| < PREFIX_SIZE || |s| < PREFIX_SIZE + DeclaredLen(s) + SUFFIX_SIZE))
  }

  function Scan(s: seq<byte>): (r: Scanned)
    decreases |s|
  {
    if s == [] || Undecided(s) then Scanned([], s)
    else
      match Deserialize(s)
      case Ok(Parsed(f, n)) =>
        var r := Scan(s[n..]);
        Scanned([f] + r.frames, r.rest)
      case Err(_) => Scan(s[1..])
  }

  lemma UndecidedIsKept(s: seq<byte>)
    requires Undecided(s)
    ensures Scan(s) == Scanned([], s)
  {
  }

  /** Once the scanner has decided about a position, later bytes do not change the decision. */
  lemma DecisionIsStable(s: seq<byte>, more: seq<byte>)
    requires s != [] && !Undecided(s)
    ensures !Undecided(s + more)
    ensures Deserialize(s).Ok? ==> Deserialize(s + more) == Deserialize(s)
    ensures Deserialize(s).Err? ==> Deserialize(s + more).Err?
  {
    var t := s + more;
    if StartsWithHeader(s) {
      var n := PREFIX_SIZE + DeclaredLen(s) + SUFFIX_SIZE;
      assert DeclaredLen(t) == DeclaredLen(s);
      assert t[n - 2..n] == s[n - 2..n];
      assert t[16..n - 4] == s[16..n - 4];
    }
  }

  /** Scanning a stream in two pieces, keeping the undecided rest in between, is scanning it whole. */
  lemma {:induction false} ScanAppend(a: seq<byte>, b: seq<byte>)
    ensures var ra := Scan(a);
            var rb := Scan(ra.rest + b);
            Scan(a + b) == Scanned(ra.frames + rb.frames, rb.rest)
    decreases |a|
  {
    if a == [] || Undecided(a) {
      assert [] + Scan(a + b).frames == Scan(a + b).frames;
    } else {
      DecisionIsStable(a, b);
      match Deserialize(a) {
        case Ok(Parsed(f, n)) =>
          assert (a + b)[n..] == a[n..] + b;
          ScanAppend(a[n..], b);
          var ra := Scan(a[n..]);
          var rb := Scan(ra.rest + b);
          assert [f] + (ra.frames + rb.frames) == ([f] + ra.frames) + rb.frames;
        case Err(_) =>
          assert (a + b)[1..] == a[1..] + b;
          ScanAppend(a[1..], b);
      }
    }
  }

  /** Bytes before the first header contribute nothing. */
  lemma {:induction false} SkipNoise(s: seq<byte>, n: nat)
    requires n < |s| && forall i: nat :: i < n ==> !HeaderAt(s, i)
    requires HeaderAt(s, n)
    ensures Scan(s) == Scan(s[n..])
    decreases n
  {
    if n == 0 {
      assert s[0..] == s;
    } else {
      assert !HeaderAt(s, 0);
      forall i: nat | i < n - 1 ensures !HeaderAt(s[1..], i) {
        assert !HeaderAt(s, i + 1);
      }
      SkipNoise(s[1..], n - 1);
      assert s[1..][n - 1..] == s[n..];
    }
  }

  /** A header whose frame turns out malformed can be skipped whole: its second byte starts no header. */
  lemma SkipBadHeader(s: seq<byte>)
    requires StartsWithHeader(s) && !Undecided(s) && Deserialize(s).Err?
    ensures Scan(s) == Scan(s[2..])
  {
    var t := s[1..];
    assert t[0] == 0x34;
    assert t[1..] == s[2..];
  }

  /** What the scanner keeps of header-free bytes: a final 0x12, which may be half a header. */
  function HalfHeader(s: seq<byte>): seq<byte> {
    if s != [] && s[|s| - 1] == 0x12 then [0x12] else []
  }

  lemma {:induction false} ScanHeaderFree(s: seq<byte>)
    requires HeaderFree(s)
    ensures Scan(s) == Scanned([], HalfHeader(s))
    decreases |s|
  {
    if s == [] || s == [0x12] {
    } else {
      assert !HeaderAt(s, 0);
      forall i: nat | i < |s| - 1 ensures !HeaderAt(s[1..], i) {
        assert !HeaderAt(s, i + 1);
      }
      ScanHeaderFree(s[1..]);
    }
  }

  /** What is left over never holds a complete frame and is short of the largest possible frame. */
  lemma {:induction false} RestIsUndecided(s: seq<byte>)
    ensures var r := Scan(s).rest; (r == [] || Undecided(r)) && |r| < 65555
    decreases |s|
  {
    if s == [] || Undecided(s) {
    } else {
      match Deserialize(s) {
        case Ok(Parsed(f, n)) => RestIsUndecided(s[n..]);
        case Err(_) => RestIsUndecided(s[1..]);
      }
    }
  }

  /** Scanning chunk by chunk, carrying the undecided rest from one chunk to the next. */
  function ScanChunks(carry: seq<byte>, chunks: seq<seq<byte>>): Scanned
    decreases |chunks|
  {
    if chunks == [] then Scan(carry)
    else
      var first := Scan(carry + chunks[0]);
      var others := ScanChunks(first.rest, chunks[1..]);
      Scanned(first.frames + others.frames, others.rest)
  }

  /** Chunk invariance: however a stream is cut, the frames and the final rest are the same. */
  lemma {:induction false} ChunkInvariance(carry: seq<byte>, chunks: seq<seq<byte>>)
    ensures ScanChunks(carry, chunks) == Scan(carry + Flatten(chunks))
    decreases |chunks|
  {
    if chunks == [] {
      assert carry + [] == carry;
    } else {
      var a := carry + chunks[0];
      var b := Flatten(chunks[1..]);
      assert carry + Flatten(chunks) == a + b;
      ChunkInvariance(Scan(a).rest, chunks[1..]);
      ScanAppend(a, b);
    }
  }

  /** Frames on the wire with noise before each of them and after the last. */
  function Stream(noise: seq<seq<byte>>, frames: seq<Frame>): seq<byte>
    requires |noise| == |frames| + 1
    decreases |frames|
  {
    if frames == [] then noise[0]
    else noise[0] + Serialize(frames[0]) + Stream(noise[1..], frames[1..])
  }

  /** Header-free noise in front of a frame cannot form a header with the frame's first byte. */
  lemma NoiseThenFrame(noise: seq<byte>, f: Frame, tail: seq<byte>)
    requires HeaderFree(noise) && |f.data| <= MAX_DATA
    ensures var r := Scan(tail);
            Scan(noise + Serialize(f) + tail) == Scanned([f] + r.frames, r.rest)
  {
    var s := noise + Serialize(f) + tail;
    var t := Serialize(f) + tail;
    assert s[|noise|..] == t;
    assert StartsWithHeader(t) && |t| == 20 + |f.data| + |tail| && DeclaredLen(t) == |f.data| by {
      FieldsOfSerialized(f, tail);
    }
    assert HeaderAt(s, |noise|) by { assert s[|noise|] == t[0] && s[|noise| + 1] == t[1]; }
    forall i: nat | i < |noise| ensures !HeaderAt(s, i) {
      assert !HeaderAt(noise, i);
      assert s[i] == noise[i];
      if i + 1 == |noise| { assert s[i + 1] == t[0] == 0x12; } else { assert s[i + 1] == noise[i + 1]; }
    }
    SkipNoise(s, |noise|);
    ParsesBackIff(f, tail);
    assert t[20 + |f.data|..] == tail by { FieldsOfSerialized(f, []); }
  }

  /** Stream round trip: exactly the frames that were sent, in order, come back out of any noisy stream. */
  lemma {:induction false} StreamRoundTrip(noise: seq<seq<byte>>, frames: seq<Frame>)
    requires |noise| == |frames| + 1
    requires forall n :: n in noise ==> HeaderFree(n)
    requires forall f :: f in frames ==> |f.data| <= MAX_DATA
    ensures Scan(Stream(noise, frames)) == Scanned(frames, HalfHeader(noise[|frames|]))
    decreases |frames|
  {
    assert HeaderFree(noise[0]);
    if frames == [] {
      ScanHeaderFree(noise[0]);
    } else {
      assert frames[0] in frames;
      StreamRoundTrip(noise[1..], frames[1..]);
      NoiseThenFrame(noise[0], frames[0], Stream(noise[1..], frames[1..]));
      assert [frames[0]] + frames[1..] == frames;
    }
  }

  /** Any noisy stream, cut into any chunks, decodes to exactly the frames that were sent. */
  lemma CutStreamRoundTrip(noise: seq<seq<byte>>, frames: seq<Frame>, chunks: seq<seq<byte>>)
    requires |noise| == |frames| + 1
    requires forall n :: n in noise ==> HeaderFree(n)
    requires forall f :: f in frames ==> |f.data| <= MAX_DATA
    requires Flatten(chunks) == Stream(noise, frames)
    ensures ScanChunks([], chunks) == Scanned(frames, HalfHeader(noise[|frames|]))
  {
    var s := Flatten(chunks);
    assert ScanChunks([], chunks) == Scan(s) by {
      ChunkInvariance([], chunks);
      assert [] + s == s;
    }
    assert Scan(s) == Scanned(frames, HalfHeader(noise[|frames|])) by {
      StreamRoundTrip(noise, frames);
    }
  }

  /** No frame starts at any position from `lo` up to `hi`, and later bytes cannot change that. */
  predicate Barren(s: seq<byte>, lo: nat, hi: nat) {
    forall q: nat :: lo <= q < hi <= |s| ==> !Undecided(s[q..]) && Deserialize(s[q..]).Err?
  }

  /** `starts` are the places where `frames` lie, end to end or with barren gaps, from `from` up to `stop`. */
  predicate Leftmost(s: seq<byte>, from: nat, starts: seq<nat>, frames: seq<Frame>, stop: nat)
    decreases |frames|
  {
    if frames == [] then starts == [] && from <= stop <= |s| && Barren(s, from, stop)
    else
      && starts != []
      && from <= starts[0] <= |s|
      && Barren(s, from, starts[0])
      && Deserialize(s[starts[0]..]) == Ok(Parsed(frames[0], 20 + |frames[0].data|))
      && Leftmost(s, starts[0] + 20 + |frames[0].data|, starts[1..], frames[1..], stop)
  }

  /**
    The scanner loses no frame and invents none: every frame it reports lies in the stream, in order
    and without overlap, and between and after them no position holds a frame, up to a rest that is
    still undecided and shorter than the largest frame.
   */
  lemma {:induction false} ScanIsLeftmost(s: seq<byte>, from: nat) returns (starts: seq<nat>)
    requires from <= |s|
    ensures var r := Scan(s[from..]);
            && |r.rest| <= |s| && r.rest == s[|s| - |r.rest|..]
            && Leftmost(s, from, starts, r.frames, |s| - |r.rest|)
            && (r.rest == [] || Undecided(r.rest)) && |r.rest| < 65555
    decreases |s| - from
  {
    hide Deserialize, Undecided, Leftmost;
    var t := s[from..];
    RestIsUndecided(t);
    if t == [] || Undecided(t) {
      starts := [];
      LeftmostEmpty(s, from);
    } else if Deserialize(t).Ok? {
      var n := Deserialize(t).value.consumed;
      assert t[n..] == s[from + n..];
      starts := ScanIsLeftmost(s, from + n);
      starts := PrependFrame(s, from, starts);
    } else {
      assert t[1..] == s[from + 1..];
      starts := ScanIsLeftmost(s, from + 1);
      var r := Scan(s[from + 1..]);
      WidenGap(s, from, starts, r.frames, |s| - |r.rest|);
    }
  }

  lemma LeftmostEmpty(s: seq<byte>, from: nat)
    requires from <= |s|
    ensures Leftmost(s, from, [], [], from)
  {
  }

  lemma {:induction false} PrependFrame(s: seq<byte>, from: nat, later: seq<nat>) returns (starts: seq<nat>)
    requires from < |s| && !Undecided(s[from..]) && Deserialize(s[from..]).Ok?
    requires var n := Deserialize(s[from..]).value.consumed;
             var r := Scan(s[from + n..]);
             && |r.rest| <= |s| && r.rest == s[|s| - |r.rest|..]
             && Leftmost(s, from + n, later, r.frames, |s| - |r.rest|)
    ensures var r := Scan(s[from..]);
            && |r.rest| <= |s| && r.rest == s[|s| - |r.rest|..]
            && Leftmost(s, from, starts, r.frames, |s| - |r.rest|)
  {
    hide Deserialize, Undecided;
    var t := s[from..];
    var Ok(Parsed(f, n)) := Deserialize(t);
    var r := Scan(s[from + n..]);
    assert t[n..] == s[from + n..];
    assert Scan(t) == Scanned([f] + r.frames, r.rest);
    starts := [from] + later;
    assert starts[1..] == later && ([f] + r.frames)[1..] == r.frames;
  }

  lemma WidenGap(s: seq<byte>, from: nat, starts: seq<nat>, frames: seq<Frame>, stop: nat)
    requires from < |s| && !Undecided(s[from..]) && Deserialize(s[from..]).Err?
    requires Leftmost(s, from + 1, starts, frames, stop)
    ensures Leftmost(s, from, starts, frames, stop)
  {
  }
}
