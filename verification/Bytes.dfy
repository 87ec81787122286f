/** Fixed-width integers and their little-endian encodings, as both ends of the link use them. */
module Bytes {
  type byte = n: int | 0 <= n < 0x100
  type u16 = n: int | 0 <= n < 0x1_0000
  type u32 = n: int | 0 <= n < 0x1_0000_0000

  datatype Option<+T> = None | Some(value: T)

  function Le16(n: u16): (b: seq<byte>) {
    [n % 0x100, n / 0x100]
  }

  function Le32(n: u32): (b: seq<byte>) {
    [n % 0x100, n / 0x100 % 0x100, n / 0x1_0000 % 0x100, n / 0x100_0000]
  }

  function ReadLe16(b: seq<byte>, at: nat): u16
    requires at + 2 <= |b|
  {
    b[at] as int + b[at + 1] as int * 0x100
  }

  function ReadLe32(b: seq<byte>, at: nat): u32
    requires at + 4 <= |b|
  {
    b[at] as int + b[at + 1] as int * 0x100 + b[at + 2] as int * 0x1_0000 + b[at + 3] as int * 0x100_0000
  }

  /** The least significant byte comes first. */
  lemma LittleEndian()
    ensures Le16(0x0102) == [0x02, 0x01] && Le32(0x0102_0304) == [0x04, 0x03, 0x02, 0x01]
  {
  }

  /** Reading back a 32-bit field returns the value that was written, wherever it sits. */
  lemma Le32At(n: u32, before: seq<byte>, after: seq<byte>)
    ensures ReadLe32(before + Le32(n) + after, |before|) == n
  {
    var s := before + Le32(n) + after;
    var k := |before|;
    assert s[k] == Le32(n)[0] && s[k + 1] == Le32(n)[1] && s[k + 2] == Le32(n)[2] && s[k + 3] == Le32(n)[3];
    assert n / 0x100 / 0x100 == n / 0x1_0000;
    assert n / 0x1_0000 / 0x100 == n / 0x100_0000;
  }

  /** Writing what was read reproduces the bytes. */
  lemma Le16OfRead(b: seq<byte>, at: nat)
    requires at + 2 <= |b|
    ensures Le16(ReadLe16(b, at)) == [b[at], b[at + 1]] == b[at..at + 2]
  {
  }

  function Min(a: nat, b: nat): nat {
    if a <= b then a else b
  }

  function Flatten<T>(parts: seq<seq<T>>): seq<T> {
    if parts == [] then [] else parts[0] + Flatten(parts[1..])
  }

  lemma {:induction false} FlattenSnoc<T>(parts: seq<seq<T>>, last: seq<T>)
    ensures Flatten(parts + [last]) == Flatten(parts) + last
  {
    if parts == [] {
      assert [last][1..] == [];
    } else {
      assert (parts + [last])[1..] == parts[1..] + [last];
      FlattenSnoc(parts[1..], last);
    }
  }
}
