/**
  CRC-32/ISO-HDLC: reflected polynomial 0xEDB88320, register complemented before and after,
  initial value 0. This is the running-update contract of section 8 of RFC 1952, which both
  the device's crc32_ieee_update and the PC's one-shot hash follow.
 */
module Crc {
  import opened Bytes

  const MASK: u32 := 0xFFFF_FFFF
  const POLY: u32 := 0xEDB8_8320

  /** Bitwise exclusive or of two numbers below the given power of two. */
  function Xor(a: nat, b: nat, bound: nat): (r: nat)
    ensures bound > 0 ==> r < bound
    decreases a, bound
  {
    if bound <= 1 then 0
    else (if a % 2 == b % 2 then 0 else 1) + 2 * Xor(a / 2, b / 2, bound / 2)
  }

  /** Shifts one bit out of the reflected register. */
  function Bit(reg: u32): u32 {
    if reg % 2 == 1 then Xor(reg / 2, POLY, 0x1_0000_0000) else reg / 2
  }

  function Bits(reg: u32, n: nat): u32
    decreases n, reg
  {
    if n == 0 then reg else Bits(Bit(reg), n - 1)
  }

  function Step(reg: u32, b: byte): u32 {
    Bits(Xor(reg, b, 0x1_0000_0000), 8)
  }

  function Fold(reg: u32, data: seq<byte>): u32
    decreases |data|
  {
    if data == [] then reg else Fold(Step(reg, data[0]), data[1..])
  }

  /** crc32_ieee_update: continues a finished CRC over more data. */
  function Update(crc: u32, data: seq<byte>): u32 {
    MASK - Fold(MASK - crc, data)
  }

  /** The CRC of a whole byte string, as crc32fast::hash computes it. */
  function Crc32(data: seq<byte>): u32 {
    Update(0, data)
  }

  lemma {:induction false} FoldConcat(reg: u32, a: seq<byte>, b: seq<byte>)
    ensures Fold(reg, a + b) == Fold(Fold(reg, a), b)
    decreases |a|
  {
    hide Step;
    if a == [] {
      assert a + b == b;
    } else {
      assert (a + b)[1..] == a[1..] + b;
      FoldConcat(Step(reg, a[0]), a[1..], b);
    }
  }

  /** Updating piece by piece is updating with the concatenation. */
  lemma UpdateConcat(crc: u32, a: seq<byte>, b: seq<byte>)
    ensures Update(Update(crc, a), b) == Update(crc, a + b)
  {
    hide Fold;
    FoldConcat(MASK - crc, a, b);
  }

  function UpdateAll(crc: u32, chunks: seq<seq<byte>>): u32
    decreases |chunks|
  {
    if chunks == [] then crc else UpdateAll(Update(crc, chunks[0]), chunks[1..])
  }

  /** However the data is cut, the running CRC is the one-shot CRC of the whole. */
  lemma {:induction false} ChunkedCrc(done: seq<byte>, chunks: seq<seq<byte>>)
    ensures UpdateAll(Crc32(done), chunks) == Crc32(done + Flatten(chunks))
    decreases |chunks|
  {
    hide Update;
    if chunks == [] {
      assert done + [] == done;
    } else {
      UpdateConcat(0, done, chunks[0]);
      ChunkedCrc(done + chunks[0], chunks[1..]);
      assert done + Flatten(chunks) == done + chunks[0] + Flatten(chunks[1..]);
    }
  }

  // ---------------------------------------------------------------- what a CRC is for

  function Pow2(k: nat): (p: nat)
    ensures p >= 1
  {
    if k == 0 then 1 else 2 * Pow2(k - 1)
  }

  /** Exclusive or can be undone, on either side. */
  lemma {:induction false} XorCancels(a: nat, b: nat, c: nat, k: nat)
    requires a < Pow2(k) && b < Pow2(k) && c < Pow2(k)
    ensures Xor(a, c, Pow2(k)) == Xor(b, c, Pow2(k)) ==> a == b
    ensures Xor(c, a, Pow2(k)) == Xor(c, b, Pow2(k)) ==> a == b
    decreases k
  {
    if k > 0 {
      XorCancels(a / 2, b / 2, c / 2, k - 1);
    }
  }

  lemma XorStep(a: nat, b: nat, k: nat)
    requires k > 0
    ensures Pow2(0) == 1 && Pow2(k) == 2 * Pow2(k - 1)
    ensures Xor(a, b, Pow2(k)) == (if a % 2 == b % 2 then 0 else 1) + 2 * Xor(a / 2, b / 2, Pow2(k - 1))
  {
    assert Pow2(k) / 2 == Pow2(k - 1);
  }

  lemma {:induction false} XorKeepsTop(a: nat, b: nat, k: nat)
    requires k > 0 && a < Pow2(k - 1) <= b < Pow2(k)
    ensures Xor(a, b, Pow2(k)) >= Pow2(k - 1)
    decreases k
  {
    hide Xor, Pow2;
    XorStep(a, b, k);
    if k > 1 {
      XorStep(a / 2, b / 2, k - 1);
      XorKeepsTop(a / 2, b / 2, k - 1);
    }
  }

  lemma Pow2Of32()
    ensures Pow2(8) == 0x100 && Pow2(16) == 0x1_0000 && Pow2(24) == 0x100_0000
    ensures Pow2(31) == 0x8000_0000 && Pow2(32) == 0x1_0000_0000
  {
  }

  /** No two registers are shifted to the same: the polynomial's top bit tells which had its low bit set. */
  lemma {:induction false} BitInjective(r: u32, r': u32)
    requires Bit(r) == Bit(r')
    ensures r == r'
  {
    Pow2Of32();
    if r % 2 == 1 && r' % 2 == 1 {
      XorCancels(r / 2, r' / 2, POLY, 32);
    } else if r % 2 == 1 {
      XorKeepsTop(r / 2, POLY, 32);
    } else if r' % 2 == 1 {
      XorKeepsTop(r' / 2, POLY, 32);
    }
  }

  lemma {:induction false} BitsInjective(r: u32, r': u32, n: nat)
    requires Bits(r, n) == Bits(r', n)
    ensures r == r'
    decreases n
  {
    hide Bit;
    if n > 0 {
      BitsInjective(Bit(r), Bit(r'), n - 1);
      BitInjective(r, r');
    }
  }

  lemma {:induction false} FoldInjective(r: u32, r': u32, data: seq<byte>)
    requires Fold(r, data) == Fold(r', data)
    ensures r == r'
    decreases |data|
  {
    hide Bits, Xor;
    if data != [] {
      FoldInjective(Step(r, data[0]), Step(r', data[0]), data[1..]);
      BitsInjective(Xor(r, data[0], 0x1_0000_0000), Xor(r', data[0], 0x1_0000_0000), 8);
      Pow2Of32();
      XorCancels(r, r', data[0], 32);
    }
  }

  /** A change of one byte, whatever is in front of it and behind it, always changes the CRC. */
  lemma {:induction false} NoticesOneByte(a: seq<byte>, x: byte, y: byte, b: seq<byte>)
    requires x != y
    ensures Crc32(a + [x] + b) != Crc32(a + [y] + b)
  {
    hide Fold, Step;
    if Crc32(a + [x] + b) == Crc32(a + [y] + b) {
      var r := Fold(MASK, a);
      FoldOneByte(a, x, b);
      FoldOneByte(a, y, b);
      FoldInjective(Step(r, x), Step(r, y), b);
      StepDistinguishes(r, x, y);
    }
  }

  lemma {:induction false} FoldOneByte(a: seq<byte>, x: byte, b: seq<byte>)
    ensures Fold(MASK, a + [x] + b) == Fold(Step(Fold(MASK, a), x), b)
  {
    hide Step;
    FoldConcat(MASK, a + [x], b);
    FoldConcat(MASK, a, [x]);
    var r := Fold(MASK, a);
    assert [x][1..] == [];
    assert Fold(r, [x]) == Fold(Step(r, x), []);
  }

  lemma {:induction false} StepDistinguishes(r: u32, x: byte, y: byte)
    requires Step(r, x) == Step(r, y)
    ensures x == y
  {
    hide Bits, Xor;
    BitsInjective(Xor(r, x, 0x1_0000_0000), Xor(r, y, 0x1_0000_0000), 8);
    Pow2Of32();
    XorCancels(x, y, r, 32);
  }

  lemma {:induction false} XorWithZero(a: nat, k: nat)
    requires a < Pow2(k)
    ensures Xor(0, a, Pow2(k)) == Xor(a, 0, Pow2(k)) == a
    decreases k
  {
    if k > 0 {
      XorWithZero(a / 2, k - 1);
    }
  }

  lemma XorOfOdds(x: nat, y: nat, k: nat)
    requires k > 0
    ensures Pow2(k) == 2 * Pow2(k - 1)
    ensures Xor(2 * x + 1, 2 * y + 1, Pow2(k)) == 2 * Xor(x, y, Pow2(k - 1))
  {
    hide Xor, Pow2;
    XorStep(2 * x + 1, 2 * y + 1, k);
  }

  lemma {:induction false} XorOfOnes(a: nat, b: nat, k: nat)
    requires b <= a <= k
    ensures Pow2(b) <= Pow2(a) <= Pow2(k)
    ensures Xor(Pow2(a) - 1, Pow2(b) - 1, Pow2(k)) == Pow2(a) - Pow2(b)
    decreases k
  {
    hide Xor, Pow2;
    Pow2Grows(0, a);
    Pow2Grows(a, k);
    if b == 0 {
      XorWithZero(Pow2(a) - 1, k);
    } else {
      XorOfOnes(a - 1, b - 1, k - 1);
      XorOfOdds(Pow2(a - 1) - 1, Pow2(b - 1) - 1, k);
      XorOfOdds(0, 0, a);
      XorOfOdds(0, 0, b);
    }
  }

  lemma {:induction false} Pow2Grows(a: nat, k: nat)
    requires a <= k
    ensures Pow2(0) == 1 && Pow2(a) <= Pow2(k)
    decreases k
  {
    if a < k {
      Pow2Grows(a, k - 1);
    }
  }

  lemma EvenBit(half: u32)
    requires 2 * half <= MASK
    ensures Bit(2 * half) == half
  {
    hide Xor;
  }

  /** A zero byte at the bottom of the register is shifted out unseen. */
  lemma {:induction false} ShiftByte(r: u32)
    requires 256 * r <= MASK
    ensures Bits(256 * r, 8) == r
  {
    hide Bit;
    ShiftSeven(2 * r);
    EvenBit(r);
    assert Bits(2 * r, 1) == Bits(Bit(2 * r), 0);
  }

  lemma {:induction false} ShiftSeven(r: u32)
    requires 128 * r <= MASK
    ensures Bits(128 * r, 8) == Bits(r, 1)
  {
    hide Bit;
    EvenBit(64 * r);
    EvenBit(32 * r);
    EvenBit(16 * r);
    EvenBit(8 * r);
    EvenBit(4 * r);
    EvenBit(2 * r);
    EvenBit(r);
    assert Bits(128 * r, 8) == Bits(64 * r, 7) == Bits(32 * r, 6) == Bits(16 * r, 5);
    assert Bits(16 * r, 5) == Bits(8 * r, 4) == Bits(4 * r, 3) == Bits(2 * r, 2) == Bits(r, 1);
  }

  /**
    The parameters, read off one value: four bytes of ones empty the complemented register, and then the
    one bit of 0x80 meets the polynomial in the last shift.
   */
  lemma {:induction false} ParametersShow()
    ensures Crc32([0xFF, 0xFF, 0xFF, 0xFF, 0x80]) == 0xFFFF_FFFF - 0xEDB8_8320
  {
    hide Step;
    OnesAreEaten();
    PolynomialShows();
    var data := [0xFF, 0xFF, 0xFF, 0xFF, 0x80];
    forall i: nat | i < 5 ensures data[i..] == [data[i]] + data[i + 1..] {
    }
  }

  lemma OnesAreEaten()
    ensures Step(0xFFFF_FFFF, 0xFF) == 0xFF_FFFF && Step(0xFF_FFFF, 0xFF) == 0xFFFF
    ensures Step(0xFFFF, 0xFF) == 0xFF && Step(0xFF, 0xFF) == 0
  {
    hide Xor, Bits;
    Pow2Of32();
    XorOfOnes(32, 8, 32);
    XorOfOnes(24, 8, 32);
    XorOfOnes(16, 8, 32);
    XorOfOnes(8, 8, 32);
    ShiftByte(0xFF_FFFF);
    ShiftByte(0xFFFF);
    ShiftByte(0xFF);
    ShiftByte(0);
  }

  lemma PolynomialShows()
    ensures Step(0, 0x80) == 0xEDB8_8320
  {
    hide Xor;
    Pow2Of32();
    XorWithZero(0x80, 32);
    ShiftSeven(1);
    XorWithZero(POLY, 32);
    assert Bits(1, 1) == Bits(Bit(1), 0);
  }
}
