/** The device's receive buffer, its frame parser over that buffer, and the processing pass. */
module Receiver {
  import opened Bytes
  import opened Frames
  import opened Scanner
  import opened FlashArea
  import opened DeviceModel
  import opened Device
  import opened RxModel

  datatype Batch = Batch(state: State, replies: seq<Option<Frame>>)

  function EnvAt(envs: seq<Env>, k: nat): Env {
    if k < |envs| then envs[k] else CALM
  }

  /** Frames handed to the device one after the other; `k` counts the ones before. */
  function DispatchAll(s: State, frames: seq<DeviceFrame>, envs: seq<Env>, k: nat): Batch
    decreases |frames|
  {
    if frames == [] then Batch(s, [])
    else
      var r := Dispatch(s, frames[0].frame, EnvAt(envs, k));
      var later := DispatchAll(r.state, frames[1..], envs, k + 1);
      Batch(later.state, [r.reply] + later.replies)
  }

  /** Halfway through a pass: what remains of the buffer yields exactly the outcomes still missing. */
  ghost predicate Pending(s0: State, all: seq<byte>, envs: seq<Env>, processed: nat, s: State,
                          replies: seq<Option<Frame>>) {
    && processed <= |all|
    && var d := Drain(all[processed..]);
       var later := DispatchAll(s, d.frames, envs, |replies|);
       && Drain(all).rest == d.rest
       && Drain(all).overrun == d.overrun
       && DispatchAll(s0, Drain(all).frames, envs, 0) == Batch(later.state, replies + later.replies)
  }

  lemma {:induction false} PendingStarts(s0: State, all: seq<byte>, envs: seq<Env>)
    ensures Pending(s0, all, envs, 0, s0, [])
  {
    hide Drain, DispatchAll;
    assert all[0..] == all;
    var b := DispatchAll(s0, Drain(all).frames, envs, 0);
    assert [] + b.replies == b.replies;
  }

  lemma {:induction false} PendingStep(s0: State, all: seq<byte>, envs: seq<Env>, processed: nat, rest: seq<byte>,
                                       f: DeviceFrame, n: nat,
                                       s: State, replies: seq<Option<Frame>>)
    requires Pending(s0, all, envs, processed, s, replies)
    requires rest == all[processed..] && Parse(rest) == Accepted(f, n)
    ensures var r := Dispatch(s, f.frame, EnvAt(envs, |replies|));
            Pending(s0, all, envs, processed + n, r.state, replies + [r.reply])
  {
    hide Parse, Dispatch;
    var r := Dispatch(s, f.frame, EnvAt(envs, |replies|));
    var d := Drain(rest);
    assert rest[n..] == all[processed + n..];
    assert d.frames[1..] == Drain(all[processed + n..]).frames;
    var later := DispatchAll(r.state, d.frames[1..], envs, |replies| + 1);
    assert replies + ([r.reply] + later.replies) == (replies + [r.reply]) + later.replies;
  }

  lemma {:induction false} PendingEnds(s0: State, all: seq<byte>, envs: seq<Env>, processed: nat, rest: seq<byte>,
                                       overrun: bool,
                                       s: State, replies: seq<Option<Frame>>)
    requires Pending(s0, all, envs, processed, s, replies)
    requires rest == all[processed..] && Drain(rest) == Drained([], rest, overrun)
    ensures Drain(all).rest == rest
    ensures Drain(all).overrun == overrun
    ensures DispatchAll(s0, Drain(all).frames, envs, 0) == Batch(s, replies)
  {
    hide Parse, Dispatch, Drain;
    assert replies + [] == replies;
  }

  lemma ParserStops(rest: seq<byte>)
    ensures rest == [] || !Parse(rest).Accepted? ==>
              Drain(rest) == Drained([], rest, rest != [] && Parse(rest).Overrun?)
  {
    hide Parse;
    NothingIsIncomplete();
  }

  class OtaReceiver {
    const rxBuf: array<byte>
    var rxLen: nat
    const device: OtaDevice

    ghost predicate Valid()
      reads this, rxBuf, device, device.slot1.cells
    {
      && rxBuf.Length == RX_BUF_SIZE
      && rxLen <= RX_BUF_SIZE
      && rxBuf != device.slot1.cells
      && device.Valid()
    }

    function Contents(): seq<byte>
      requires rxLen <= rxBuf.Length
      reads this, rxBuf
    {
      rxBuf[..rxLen]
    }

    constructor (device: OtaDevice)
      requires device.Valid()
      ensures Valid() && this.device == device && fresh(rxBuf) && Contents() == []
    {
      this.device := device;
      rxBuf := new byte[RX_BUF_SIZE];
      rxLen := 0;
    }

    /** The UART callback: a block is copied behind what is buffered, or dropped when it does not fit. */
    method Arrive(data: seq<byte>)
      requires Valid()
      modifies this, rxBuf
      ensures Valid() && Contents() == Append(old(Contents()), data)
    {
      if rxLen + |data| <= RX_BUF_SIZE {
        ghost var was := Contents();
        forall i | 0 <= i < |data| {
          rxBuf[rxLen + i] := data[i];
        }
        rxLen := rxLen + |data|;
        assert Contents() == was + data;
      }
    }

    /** Scans for a header in the `len` bytes from `at` on and parses the frame there. */
    method FrameParse(at: nat, len: nat) returns (r: ParseResult)
      requires rxBuf.Length == RX_BUF_SIZE && at + len <= rxBuf.Length
      ensures r == Parse(rxBuf[at..at + len])
    {
      hide ParseAt;
      if len < FRAME_MIN_SIZE {
        return Incomplete;
      }
      ghost var buf := rxBuf[at..at + len];
      var pos := 0;
      while pos <= len - FRAME_MIN_SIZE
        invariant 0 <= pos <= len - FRAME_MIN_SIZE + 1
        invariant forall i: nat :: i < pos ==> !HeaderAt(buf, i)
      {
        if rxBuf[at + pos] == 0x12 && rxBuf[at + pos + 1] == 0x34 {
          break;
        }
        assert !HeaderAt(buf, pos);
        pos := pos + 1;
      }
      if pos > len - FRAME_MIN_SIZE {
        return Incomplete;
      }
      assert HeaderAt(buf, pos);
      assert FindHeader(buf) == Some(pos);
      r := ExtractFrame(at, len, pos);
    }

    /** Reads the announced length where the header was found, then the frame if it is complete. */
    method ExtractFrame(at: nat, len: nat, pos: nat) returns (r: ParseResult)
      requires rxBuf.Length == RX_BUF_SIZE && at + len <= rxBuf.Length && pos + FRAME_MIN_SIZE <= len
      ensures r == ParseAt(rxBuf[at..at + len], pos)
    {
      hide DeviceFrameAt;
      var hdr := at + pos;
      assert rxBuf[at..at + len][pos..] == rxBuf[hdr..at + len];
      var dataLen := Field16(hdr + 14);
      assert dataLen == DeclaredLen(rxBuf[hdr..at + len]);
      var totalLen := (PREFIX_SIZE + dataLen + SUFFIX_SIZE) % 0x1_0000;
      if pos + totalLen > len {
        return Incomplete;
      }
      if pos + PREFIX_SIZE + dataLen + SUFFIX_SIZE > len {
        return Overrun;
      }
      var f := CopyFrame(hdr, at + len, dataLen);
      r := Accepted(f, totalLen);
    }

    /** The header fields, then the data and the two fields behind it. */
    method CopyFrame(hdr: nat, end: nat, dataLen: u16) returns (f: DeviceFrame)
      requires hdr + PREFIX_SIZE + dataLen + SUFFIX_SIZE <= end <= rxBuf.Length
      requires dataLen == DeclaredLen(rxBuf[hdr..end])
      ensures f == DeviceFrameAt(rxBuf[hdr..end])
    {
      var frame := rxBuf[hdr..end];
      var seqNo, src, dst := Field16(hdr + 2), Field16(hdr + 4), Field16(hdr + 6);
      var total, packet, cmd := Field16(hdr + 8), Field16(hdr + 10), Field16(hdr + 12);
      var data := [];
      if dataLen > 0 {
        data := frame[PREFIX_SIZE..PREFIX_SIZE + dataLen];
      }
      assert data == FrameAt(frame).data;
      var behind := hdr + PREFIX_SIZE + dataLen;
      var reserved := Field16(behind);
      var tail := [rxBuf[behind + 2], rxBuf[behind + 3]];
      assert tail == frame[PREFIX_SIZE + dataLen + 2..PREFIX_SIZE + dataLen + 4];
      f := DeviceFrame(Frame(seqNo, src, dst, total, packet, cmd, data), reserved, tail);
    }

    /** A packed little-endian field of the receive buffer. */
    function Field16(k: nat): u16
      requires k + 2 <= rxBuf.Length
      reads rxBuf
    {
      rxBuf[k] as int + rxBuf[k + 1] as int * 0x100
    }

    /** Drops the processed front of the buffer. */
    method Compact(processed: nat)
      requires rxBuf.Length == RX_BUF_SIZE && processed <= rxLen <= RX_BUF_SIZE
      modifies this, rxBuf
      ensures rxLen <= RX_BUF_SIZE && Contents() == old(Contents())[processed..]
    {
      if 0 < processed < rxLen {
        var rest := rxLen - processed;
        forall i | 0 <= i < rest {
          rxBuf[i] := rxBuf[processed + i];
        }
        rxLen := rest;
      } else if processed >= rxLen {
        rxLen := 0;
      }
    }

    /** One pass over the buffer: every frame found is dispatched in order, the rest moves to the front. */
    method ProcessRx(envs: seq<Env>) returns (replies: seq<Option<Frame>>, overrun: bool)
      requires Valid()
      modifies this, rxBuf, device, device.slot1.cells
      ensures Valid()
      ensures var d := Drain(old(Contents()));
              && Contents() == d.rest
              && overrun == d.overrun
              && Batch(device.Abs(), replies) == DispatchAll(old(device.Abs()), d.frames, envs, 0)
    {
      hide Parse, Dispatch, Drain, DispatchAll, Pending;
      var processed := 0;
      replies := [];
      overrun := false;
      ghost var all := Contents();
      ghost var s0 := device.Abs();
      PendingStarts(s0, all, envs);
      while processed < rxLen
        invariant processed <= rxLen == |all|
        invariant Valid() && Contents() == all
        invariant Pending(s0, all, envs, processed, device.Abs(), replies)
        invariant !overrun
      {
        ghost var rest := all[processed..];
        var r := FrameParse(processed, rxLen - processed);
        assert rxBuf[processed..processed + (rxLen - processed)] == rest;
        if !r.Accepted? {
          overrun := r.Overrun?;
          break;
        }
        PendingStep(s0, all, envs, processed, rest, r.parsed, r.consumed, device.Abs(), replies);
        var reply := device.ProcessFrame(r.parsed.frame, EnvAt(envs, |replies|));
        replies := replies + [reply];
        processed := processed + r.consumed;
      }
      ghost var kept := all[processed..];
      ParserStops(kept);
      PendingEnds(s0, all, envs, processed, kept, overrun, device.Abs(), replies);
      Compact(processed);
    }
  }
}
