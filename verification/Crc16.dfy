/** CRC-16/CCITT-FALSE: the bitwise register, and the polynomial division it is. */
module Crc16 {
  import opened Bytes
  import Gf2

  /** `std::uint16_t`. */
  type word = x: int | 0 <= x < 0x1_0000

  const POLYNOMIAL: word := 0x1021
  const INIT: word := 0xFFFF

  // ----------------------------------------------------------- integers as bits

  function PowerOfTwo(n: nat): nat { if n == 0 then 1 else 2 * PowerOfTwo(n - 1) }

  /** The `n` low bits of `v`, most significant first. */
  function LowBits(v: nat, n: nat): (s: Gf2.bits)
    ensures |s| == n
  {
    if n == 0 then [] else LowBits(v / 2, n - 1) + [v % 2 == 1]
  }

  function Value(s: Gf2.bits): (v: nat)
    ensures v < PowerOfTwo(|s|)
    decreases |s|
  {
    if s == [] then 0 else 2 * Value(s[..|s| - 1]) + if s[|s| - 1] then 1 else 0
  }

  /** The register's sixteen places, top first. */
  function RegOf(crc: word): Gf2.Reg { LowBits(crc, 16) }

  /** C++ `^` on sixteen bits: place by place. */
  function BitXor(a: word, b: word): word {
    WordBound(Gf2.Xor(RegOf(a), RegOf(b)));
    Value(Gf2.Xor(RegOf(a), RegOf(b)))
  }

  lemma WordBound(r: Gf2.Reg)
    ensures Value(r) < 0x1_0000
  {
    Powers();
  }

  lemma Powers()
    ensures PowerOfTwo(1) == 2 && PowerOfTwo(8) == 0x100 && PowerOfTwo(15) == 0x8000 && PowerOfTwo(16) == 0x1_0000
  {
    assert PowerOfTwo(4) == 16;
    assert PowerOfTwo(8) == 2 * 2 * PowerOfTwo(6);
    assert PowerOfTwo(12) == 2 * 2 * 2 * 2 * PowerOfTwo(8);
  }

  // ------------------------------------------------------------- the register

  /** One turn of the inner loop: `crc & 0x8000` tests the top place, and the
      cast after `crc << 1` drops it. */
  function Shift(crc: word): word {
    if crc >= 0x8000 then BitXor(2 * crc % 0x1_0000, POLYNOMIAL) else 2 * crc % 0x1_0000
  }

  function ShiftTimes(crc: word, n: nat): word
    decreases n
  {
    if n == 0 then crc else ShiftTimes(Shift(crc), n - 1)
  }

  /** `static_cast<std::uint16_t>(b) << 8`. */
  function HighByte(b: byte): word { 256 * b }

  function UpdateByte(crc: word, b: byte): word {
    ShiftTimes(BitXor(crc, HighByte(b)), 8)
  }

  function Update(crc: word, data: seq<byte>): word
    decreases |data|
  {
    if data == [] then crc else Update(UpdateByte(crc, data[0]), data[1..])
  }

  function Checksum(data: seq<byte>): word { Update(INIT, data) }

  /** Feeding a buffer in two parts is feeding it whole. */
  lemma {:induction false} UpdateConcat(crc: word, a: seq<byte>, b: seq<byte>)
    ensures Update(crc, a + b) == Update(Update(crc, a), b)
    decreases |a|
  {
    hide UpdateByte;
    if a == [] {
      assert a + b == b;
    } else {
      assert (a + b)[1..] == a[1..] + b;
      UpdateConcat(UpdateByte(crc, a[0]), a[1..], b);
    }
  }

  lemma UpdateLast(crc: word, data: seq<byte>, b: byte)
    ensures Update(crc, data + [b]) == UpdateByte(Update(crc, data), b)
  {
    hide UpdateByte;
    UpdateConcat(crc, data, [b]);
  }

  lemma {:induction false} ShiftLast(crc: word, n: nat)
    ensures ShiftTimes(crc, n + 1) == Shift(ShiftTimes(crc, n))
    decreases n
  {
    hide Shift;
    if n > 0 {
      ShiftLast(Shift(crc), n - 1);
    }
  }

  /** `crc16_ccitt_update`. */
  method Crc16Update(crc: word, data: seq<byte>) returns (r: word)
    ensures r == Update(crc, data)
  {
    hide BitXor;
    r := crc;
    for i := 0 to |data|
      invariant r == Update(crc, data[..i])
    {
      r := BitXor(r, HighByte(data[i]));
      ghost var mixed := r;
      for bit := 0 to 8
        invariant r == ShiftTimes(mixed, bit)
      {
        ShiftLast(mixed, bit);
        if r >= 0x8000 {
          r := BitXor(2 * r % 0x1_0000, 0x1021);
        } else {
          r := 2 * r % 0x1_0000;
        }
      }
      assert data[..i + 1] == data[..i] + [data[i]];
      UpdateLast(crc, data[..i], data[i]);
    }
    assert data[..|data|] == data;
  }

  /** `crc16_ccitt`. */
  method Crc16Ccitt(data: seq<byte>) returns (r: word)
    ensures r == Checksum(data)
  {
    r := Crc16Update(INIT, data);
  }

  // ------------------------------------------------------------ bits and integers

  lemma {:induction false} BitsOfValue(s: Gf2.bits)
    ensures LowBits(Value(s), |s|) == s
    decreases |s|
  {
    if s != [] {
      BitsOfValue(s[..|s| - 1]);
      assert s == s[..|s| - 1] + [s[|s| - 1]];
    }
  }

  lemma {:induction false} ValueOfBits(v: nat, n: nat)
    requires v < PowerOfTwo(n)
    ensures Value(LowBits(v, n)) == v
  {
    if n > 0 {
      ValueOfBits(v / 2, n - 1);
      assert LowBits(v, n)[..n - 1] == LowBits(v / 2, n - 1);
    }
  }

  lemma RegOfInjective(a: word, b: word)
    requires RegOf(a) == RegOf(b)
    ensures a == b
  {
    Powers();
    ValueOfBits(a, 16);
    ValueOfBits(b, 16);
  }

  lemma RegOfXor(a: word, b: word)
    ensures RegOf(BitXor(a, b)) == Gf2.Xor(RegOf(a), RegOf(b))
  {
    BitsOfValue(Gf2.Xor(RegOf(a), RegOf(b)));
  }

  lemma {:induction false} LowBitsSplit(hi: nat, lo: nat, m: nat, n: nat)
    requires lo < PowerOfTwo(n)
    ensures LowBits(hi * PowerOfTwo(n) + lo, m + n) == LowBits(hi, m) + LowBits(lo, n)
    decreases n
  {
    if n == 0 {
      assert hi * PowerOfTwo(0) + lo == hi;
    } else {
      var p, v := PowerOfTwo(n - 1), hi * PowerOfTwo(n) + lo;
      assert hi * PowerOfTwo(n) == 2 * (hi * p);
      assert v / 2 == hi * p + lo / 2 && v % 2 == lo % 2;
      LowBitsSplit(hi, lo / 2, m, n - 1);
    }
  }

  lemma {:induction false} LowBitsOfZero(n: nat)
    ensures LowBits(0, n) == Gf2.Zeros(n)
  {
    if n > 0 {
      LowBitsOfZero(n - 1);
    }
  }

  function Bits(b: byte): (s: Gf2.bits)
    ensures |s| == 8
  {
    LowBits(b, 8)
  }

  /** A register is its high byte and its low byte. */
  lemma RegOfBytes(hi: byte, lo: byte)
    ensures RegOf(256 * hi + lo) == Bits(hi) + Bits(lo)
  {
    hide LowBits;
    Powers();
    LowBitsSplit(hi, lo, 8, 8);
  }

  lemma BitsInjective(a: byte, b: byte)
    requires Bits(a) == Bits(b)
    ensures a == b
  {
    Powers();
    ValueOfBits(a, 8);
    ValueOfBits(b, 8);
  }

  /** C++ `^` on eight bits. */
  function XorByte(a: byte, b: byte): (x: byte)
    ensures Bits(x) == Gf2.Xor(Bits(a), Bits(b))
  {
    var s := Gf2.Xor(Bits(a), Bits(b));
    Powers();
    BitsOfValue(s);
    Value(s)
  }

  function BitsOf(data: seq<byte>): (s: Gf2.bits)
    ensures |s| == 8 * |data|
  {
    if data == [] then [] else Bits(data[0]) + BitsOf(data[1..])
  }

  lemma {:induction false} BitsOfConcat(a: seq<byte>, b: seq<byte>)
    ensures BitsOf(a + b) == BitsOf(a) + BitsOf(b)
    decreases |a|
  {
    hide Bits;
    if a == [] {
      assert a + b == b;
    } else {
      assert (a + b)[1..] == a[1..] + b;
      BitsOfConcat(a[1..], b);
    }
  }

  lemma {:induction false} BitsOfInjective(a: seq<byte>, b: seq<byte>)
    requires BitsOf(a) == BitsOf(b)
    ensures a == b
  {
    hide Bits;
    assert |a| == |b|;
    if a != [] {
      assert Bits(a[0]) == BitsOf(a)[..8] == BitsOf(b)[..8] == Bits(b[0]);
      BitsInjective(a[0], b[0]);
      assert BitsOf(a[1..]) == BitsOf(a)[8..] == BitsOf(b)[8..] == BitsOf(b[1..]);
      BitsOfInjective(a[1..], b[1..]);
      assert a == [a[0]] + a[1..] && b == [b[0]] + b[1..];
    }
  }

  // ------------------------------------------- the loop is polynomial division

  lemma RegOfDouble(crc: word)
    ensures RegOf(2 * crc % 0x1_0000) == RegOf(crc)[1..] + [false]
    ensures RegOf(crc)[0] == (crc >= 0x8000)
  {
    hide LowBits;
    Powers();
    var top, low := crc / 0x8000, crc % 0x8000;
    LowBitsSplit(top, low, 1, 15);
    LowBitsSplit(low, 0, 15, 1);
    assert top == 0 || top == 1;
    assert crc == top * 0x8000 + low && 2 * crc == 0x1_0000 * top + 2 * low;
    assert 2 * crc % 0x1_0000 == 2 * low;
    OneBit(top);
    OneBit(0);
  }

  lemma OneBit(v: nat)
    ensures LowBits(v, 1) == [v % 2 == 1]
  {
    assert LowBits(v / 2, 0) == [];
  }

  lemma RegOfPolynomial()
    ensures RegOf(POLYNOMIAL) == Gf2.GENERATOR[1..]
  {
    hide LowBits, Bits;
    RegOfBytes(0x10, 0x21);
    BitsOfHighHalf();
    BitsOfLowHalf();
  }

  lemma BitsOfHighHalf()
    ensures Bits(0x10) == [false, false, false, true, false, false, false, false]
  {
  }

  lemma BitsOfLowHalf()
    ensures Bits(0x21) == [false, false, true, false, false, false, false, true]
  {
  }

  lemma RegOfShift(crc: word)
    ensures RegOf(Shift(crc)) == Gf2.Shift(RegOf(crc))
  {
    hide RegOf, BitXor;
    RegOfDouble(crc);
    RegOfPolynomial();
    RegOfXor(2 * crc % 0x1_0000, POLYNOMIAL);
  }

  lemma {:induction false} RegOfShiftTimes(crc: word, n: nat)
    ensures RegOf(ShiftTimes(crc, n)) == Gf2.ShiftTimes(RegOf(crc), n)
    decreases n
  {
    hide Shift, RegOf, Gf2.Shift;
    if n > 0 {
      RegOfShift(crc);
      RegOfShiftTimes(Shift(crc), n - 1);
    }
  }

  /** A byte through the register is its eight bits through the division. */
  lemma UpdateByteIsFeed(crc: word, b: byte)
    ensures RegOf(UpdateByte(crc, b)) == Gf2.Feed(RegOf(crc), Bits(b))
  {
    hide RegOf, Bits, BitXor, ShiftTimes, Gf2.ShiftTimes, Gf2.Feed;
    RegOfBytes(b, 0);
    ZeroByte();
    RegOfXor(crc, HighByte(b));
    RegOfShiftTimes(BitXor(crc, HighByte(b)), 8);
    Gf2.FeedIsShift(RegOf(crc), Bits(b));
  }

  lemma ZeroByte()
    ensures Bits(0) == Gf2.Zeros(8)
  {
    LowBitsOfZero(8);
  }

  lemma {:induction false} UpdateIsFeed(crc: word, data: seq<byte>)
    ensures RegOf(Update(crc, data)) == Gf2.Feed(RegOf(crc), BitsOf(data))
    decreases |data|
  {
    hide RegOf, Bits, UpdateByte, Gf2.Feed;
    if data == [] {
      Gf2.FeedNothing(RegOf(crc));
    } else {
      UpdateByteIsFeed(crc, data[0]);
      Gf2.FeedConcat(RegOf(crc), Bits(data[0]), BitsOf(data[1..]));
      UpdateIsFeed(UpdateByte(crc, data[0]), data[1..]);
    }
  }

  /** The checksum loop computes the remainder of seed*x^(8n) + data*x^16 on
      division by x^16 + x^12 + x^5 + 1, and it is the only remainder. */
  lemma UpdateIsRemainder(crc: word, data: seq<byte>)
    ensures forall w: word ::
              Gf2.IsRemainder(Gf2.Dividend(RegOf(crc), BitsOf(data)), RegOf(w)) <==> w == Update(crc, data)
  {
    hide RegOf, Gf2.IsRemainder, Gf2.Dividend, Update, BitsOf;
    UpdateIsFeed(crc, data);
    Gf2.RegisterIsTheRemainder(RegOf(crc), BitsOf(data));
    var p := Gf2.Dividend(RegOf(crc), BitsOf(data));
    forall w: word
      ensures Gf2.IsRemainder(p, RegOf(w)) <==> w == Update(crc, data)
    {
      if Gf2.IsRemainder(p, RegOf(w)) {
        RegOfInjective(w, Update(crc, data));
      }
    }
  }

  /** How two checksums differ depends only on how seeds and data differ. */
  lemma UpdateLinear(c: word, d: word, a: seq<byte>, b: seq<byte>)
    requires |a| == |b|
    ensures RegOf(BitXor(Update(c, a), Update(d, b)))
         == Gf2.Feed(RegOf(BitXor(c, d)), Gf2.Xor(BitsOf(a), BitsOf(b)))
  {
    hide RegOf, BitXor, Update, BitsOf, Gf2.Xor, Gf2.Feed;
    UpdateIsFeed(c, a);
    UpdateIsFeed(d, b);
    RegOfXor(Update(c, a), Update(d, b));
    RegOfXor(c, d);
    Gf2.FeedLinear(RegOf(c), RegOf(d), BitsOf(a), BitsOf(b));
  }
}
