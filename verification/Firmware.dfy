/** The PC's view of the firmware image: splitting it into numbered packets. */
module Firmware {
  import opened Bytes

  datatype Packet = Packet(offset: u32, data: seq<byte>)

  /** Packets for the image from `from` on; the offset field keeps the low 32 bits of the position. */
  function SplitFrom(image: seq<byte>, chunk: nat, from: nat): seq<Packet>
    requires chunk > 0
    decreases |image| - from
  {
    if from >= |image| then []
    else [PacketAt(image, chunk, from)] + SplitFrom(image, chunk, from + chunk)
  }

  function PacketAt(image: seq<byte>, chunk: nat, from: nat): Packet
    requires from < |image|
  {
    Packet(from % 0x1_0000_0000, image[from..Min(from + chunk, |image|)])
  }

  function Split(image: seq<byte>, chunk: nat): seq<Packet> {
    SplitFrom(image, if chunk == 0 then 1 else chunk, 0)
  }

  function Datas(packets: seq<Packet>): seq<seq<byte>> {
    seq(|packets|, i requires 0 <= i < |packets| => packets[i].data)
  }

  /** The packets partition the image: end to end they are the image. */
  lemma {:induction false} SplitConcatenates(image: seq<byte>, chunk: nat, from: nat)
    requires chunk > 0 && from <= |image|
    ensures Flatten(Datas(SplitFrom(image, chunk, from))) == image[from..]
    decreases |image| - from
  {
    if from < |image| {
      var next := Min(from + chunk, |image|);
      var p := PacketAt(image, chunk, from);
      var ps := SplitFrom(image, chunk, from + chunk);
      SplitConcatenates(image, chunk, next);
      assert ps == SplitFrom(image, chunk, next);
      assert Datas([p] + ps) == [p.data] + Datas(ps);
      assert ([p.data] + Datas(ps))[1..] == Datas(ps);
      assert image[from..] == p.data + image[next..];
    }
  }

  /** The k-th packet starts k chunks in, and there is one packet for every started chunk. */
  lemma {:induction false} SplitPositions(image: seq<byte>, chunk: nat, from: nat, k: nat)
    requires chunk > 0 && from <= |image|
    ensures k < |SplitFrom(image, chunk, from)| <==> from + k * chunk < |image|
    ensures k < |SplitFrom(image, chunk, from)| ==>
              SplitFrom(image, chunk, from)[k] == PacketAt(image, chunk, from + k * chunk)
    decreases |image| - from
  {
    if from < |image| {
      if k == 0 {
      } else if from + chunk <= |image| {
        SplitPositions(image, chunk, from + chunk, k - 1);
        assert from + chunk + (k - 1) * chunk == from + k * chunk;
      } else {
        assert k * chunk >= chunk by { MulAtLeast(k, chunk); }
      }
    } else {
      assert k * chunk >= 0;
    }
  }

  lemma MulAtLeast(k: nat, c: nat)
    requires k >= 1
    ensures k * c >= c
  {
    assert k * c == (k - 1) * c + c;
  }

  /** The number of packets is the quotient of image and chunk size, rounded up. */
  lemma SplitCount(image: seq<byte>, chunk: nat)
    requires chunk > 0
    ensures var n := |Split(image, chunk)|;
            |image| <= n * chunk && (n > 0 ==> (n - 1) * chunk < |image|)
  {
    hide SplitFrom;
    var n := |Split(image, chunk)|;
    SplitPositions(image, chunk, 0, n);
    if n > 0 {
      SplitPositions(image, chunk, 0, n - 1);
    }
  }

  /**
    For the packet sizes the engine can choose and any image the device reports room for, the 16-bit
    packet count is never truncated.
   */
  lemma CountFits(image: seq<byte>, chunk: nat)
    requires 128 <= chunk <= 4096 && |image| <= 0x20_0000
    ensures |Split(image, chunk)| <= 0x4000
  {
    hide SplitFrom;
    SplitPositions(image, chunk, 0, 0x4000);
    assert 0x4000 * chunk >= 0x20_0000;
  }

  /** Nor is a 32-bit offset: it is the number of image bytes in the packets before, and no packet is empty. */
  lemma OffsetsExact(image: seq<byte>, chunk: nat, k: nat)
    requires chunk > 0 && |image| <= 0x1_0000_0000 && k < |Split(image, chunk)|
    ensures var p := Split(image, chunk)[k];
            && p.offset == |Flatten(Datas(Split(image, chunk)[..k]))|
            && 1 <= |p.data| <= chunk
  {
    hide SplitFrom;
    SplitPositions(image, chunk, 0, k);
    LengthBefore(image, chunk, k);
    var from := k * chunk;
    assert Split(image, chunk)[k] == PacketAt(image, chunk, from);
  }

  lemma NothingBefore(ps: seq<Packet>)
    ensures Flatten(Datas(ps[..0])) == []
  {
  }

  lemma DatasSnoc(ps: seq<Packet>, k: nat)
    requires 0 < k <= |ps|
    ensures Datas(ps[..k]) == Datas(ps[..k - 1]) + [ps[k - 1].data]
  {
  }

  lemma {:induction false} LengthBefore(image: seq<byte>, chunk: nat, k: nat)
    requires chunk > 0 && k <= |Split(image, chunk)|
    ensures k < |Split(image, chunk)| ==> |Flatten(Datas(Split(image, chunk)[..k]))| == k * chunk
    decreases k
  {
    hide SplitFrom, Flatten;
    var ps := Split(image, chunk);
    if k == 0 {
      NothingBefore(ps);
    } else if k < |ps| {
      LengthBefore(image, chunk, k - 1);
      SplitPositions(image, chunk, 0, k - 1);
      SplitPositions(image, chunk, 0, k);
      assert (k - 1) * chunk + chunk == k * chunk;
      DatasSnoc(ps, k);
      FlattenSnoc(Datas(ps[..k - 1]), ps[k - 1].data);
    }
  }
}
