/**
  The slot1 flash area. The driver is foreign code; what the firmware relies on is written here as
  contracts: out-of-range accesses fail without effect, a failed write disturbs only its own target
  range, and a failed erase may leave anything.
 */
module FlashArea {
  import opened Bytes

  const ERASED: byte := 0xFF

  /**
    What the environment does to one command. When `fault` is set an erase or a write fails and leaves
    `junk` behind, and a read-back fails at block `badBlock`. `stale` is whatever the frame buffer holds
    beyond the received data.
   */
  datatype Env = Env(fault: bool, junk: seq<byte>, badBlock: nat, stale: seq<byte>)

  const CALM := Env(false, [], 0, [])

  function Overlay(cells: seq<byte>, at: nat, data: seq<byte>): (r: seq<byte>)
    requires at + |data| <= |cells|
    ensures |r| == |cells|
    ensures forall i :: 0 <= i < |cells| ==> r[i] == if at <= i < at + |data| then data[i - at] else cells[i]
  {
    cells[..at] + data + cells[at + |data|..]
  }

  /** A failed access: any byte of the range may have been replaced. */
  function Scramble(cells: seq<byte>, at: nat, len: nat, junk: seq<byte>): (r: seq<byte>)
    ensures |r| == |cells|
    ensures forall i :: 0 <= i < |cells| ==>
              r[i] == if at <= i < at + len && i - at < |junk| then junk[i - at] else cells[i]
  {
    seq(|cells|, i requires 0 <= i < |cells| =>
      if at <= i < at + len && i - at < |junk| then junk[i - at] else cells[i])
  }

  datatype Access = Access(failed: bool, cells: seq<byte>)

  function EraseCells(cells: seq<byte>, at: nat, len: nat, env: Env): (a: Access) {
    if at + len > |cells| then Access(true, cells)
    else if env.fault then Access(true, Scramble(cells, at, len, env.junk))
    else Access(false, Overlay(cells, at, seq(len, _ => ERASED)))
  }

  function WriteCells(cells: seq<byte>, at: nat, data: seq<byte>, env: Env): (a: Access) {
    if at + |data| > |cells| then Access(true, cells)
    else if env.fault then Access(true, Scramble(cells, at, |data|, env.junk))
    else Access(false, Overlay(cells, at, data))
  }

  class Flash {
    const cells: array<byte>

    constructor (size: nat)
      ensures fresh(cells) && cells.Length == size
    {
      cells := new byte[size];
    }

    method Erase(at: nat, len: nat, env: Env) returns (failed: bool)
      modifies cells
      ensures Access(failed, cells[..]) == EraseCells(old(cells[..]), at, len, env)
    {
      if at + len > cells.Length {
        return true;
      }
      ghost var was := cells[..];
      if env.fault {
        forall i | at <= i < at + len && i - at < |env.junk| {
          cells[i] := env.junk[i - at];
        }
        assert cells[..] == Scramble(was, at, len, env.junk);
        return true;
      }
      forall i | at <= i < at + len {
        cells[i] := ERASED;
      }
      assert cells[..] == Overlay(was, at, seq(len, _ => ERASED));
      return false;
    }

    method Write(at: nat, data: seq<byte>, env: Env) returns (failed: bool)
      modifies cells
      ensures Access(failed, cells[..]) == WriteCells(old(cells[..]), at, data, env)
    {
      if at + |data| > cells.Length {
        return true;
      }
      ghost var was := cells[..];
      if env.fault {
        forall i | at <= i < at + |data| && i - at < |env.junk| {
          cells[i] := env.junk[i - at];
        }
        assert cells[..] == Scramble(was, at, |data|, env.junk);
        return true;
      }
      forall i | 0 <= i < |data| {
        cells[at + i] := data[i];
      }
      assert cells[..] == Overlay(was, at, data);
      return false;
    }

    /** Reads one block, failing when it reaches past the area or the environment says so. */
    method Read(at: nat, len: nat, broken: bool) returns (failed: bool, data: seq<byte>)
      ensures failed == (broken || at + len > cells.Length)
      ensures !failed ==> data == cells[at..at + len]
    {
      if broken || at + len > cells.Length {
        return true, [];
      }
      return false, cells[at..at + len];
    }
  }
}
