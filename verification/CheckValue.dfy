/** The published check value of CRC-16/CCITT-FALSE. */
module CheckValue {
  import opened Bytes
  import opened Period
  import Crc16
  import Gf2

  /** "123456789". */
  const CHECK: seq<byte> := [0x31, 0x32, 0x33, 0x34, 0x35, 0x36, 0x37, 0x38, 0x39]

  // The register before the first digit and after each, coefficient by coefficient.

  const AFTER_0 := Poly(true, true, true, true, true, true, true, true,
                        true, true, true, true, true, true, true, true)
  const AFTER_1 := Poly(true, true, false, false, false, true, true, true,
                        true, false, false, false, false, false, true, false)
  const AFTER_2 := Poly(false, false, true, true, true, true, false, true,
                        true, false, true, true, true, false, true, false)
  const AFTER_3 := Poly(false, true, false, true, true, false, true, true,
                        true, true, false, false, true, true, true, false)
  const AFTER_4 := Poly(false, true, false, true, false, false, true, true,
                        false, true, false, false, true, false, false, true)
  const AFTER_5 := Poly(false, true, false, false, false, true, false, true,
                        false, true, true, false, false, false, false, false)
  const AFTER_6 := Poly(false, false, true, false, true, true, true, false,
                        true, true, true, true, false, true, false, false)
  const AFTER_7 := Poly(false, true, true, true, false, true, true, true,
                        false, false, false, true, true, false, false, false)
  const AFTER_8 := Poly(true, false, true, false, false, false, false, true,
                        false, false, true, false, true, false, true, true)
  const AFTER_9 := Poly(false, false, true, false, true, false, false, true,
                        true, false, true, true, false, false, false, true)

  /** The digit `d` in ASCII, at the register's top. */
  function Ascii(d: nat): Poly {
    Poly(false, false, true, true, d / 8 % 2 == 1, d / 4 % 2 == 1, d / 2 % 2 == 1, d % 2 == 1,
         false, false, false, false, false, false, false, false)
  }

  function Eaten(p: Poly, d: nat): Poly { Times(Add(p, Ascii(d)), 8) }

  lemma Digit1()
    ensures Eaten(AFTER_0, 1) == AFTER_1
  {
  }

  lemma Digit2()
    ensures Eaten(AFTER_1, 2) == AFTER_2
  {
  }

  lemma Digit3()
    ensures Eaten(AFTER_2, 3) == AFTER_3
  {
  }

  lemma Digit4()
    ensures Eaten(AFTER_3, 4) == AFTER_4
  {
  }

  lemma Digit5()
    ensures Eaten(AFTER_4, 5) == AFTER_5
  {
  }

  lemma Digit6()
    ensures Eaten(AFTER_5, 6) == AFTER_6
  {
  }

  lemma Digit7()
    ensures Eaten(AFTER_6, 7) == AFTER_7
  {
  }

  lemma Digit8()
    ensures Eaten(AFTER_7, 8) == AFTER_8
  {
  }

  lemma Digit9()
    ensures Eaten(AFTER_8, 9) == AFTER_9
  {
  }

  lemma DigitBits(d: nat)
    requires 1 <= d <= 9
    ensures Crc16.Bits(0x30 + d) ==
            [false, false, true, true, d / 8 % 2 == 1, d / 4 % 2 == 1, d / 2 % 2 == 1, d % 2 == 1]
  {
    hide Crc16.LowBits;
    Crc16.Powers();
    Crc16.LowBitsSplit(3, d, 4, 4);
    HighNibble();
    LowNibble(d);
    assert Crc16.PowerOfTwo(4) == 16;
  }

  lemma HighNibble()
    ensures Crc16.LowBits(3, 4) == [false, false, true, true]
  {
  }

  lemma LowNibble(d: nat)
    ensures Crc16.LowBits(d, 4) == [d / 8 % 2 == 1, d / 4 % 2 == 1, d / 2 % 2 == 1, d % 2 == 1]
  {
    assert d / 2 / 2 == d / 4 && d / 4 / 2 == d / 8;
    assert Crc16.LowBits(d / 16, 0) == [];
    assert Crc16.LowBits(d / 8, 1) == [d / 8 % 2 == 1];
    assert Crc16.LowBits(d / 4, 2) == [d / 8 % 2 == 1, d / 4 % 2 == 1];
    assert Crc16.LowBits(d / 2, 3) == [d / 8 % 2 == 1, d / 4 % 2 == 1, d / 2 % 2 == 1];
  }

  lemma AsciiIsTop(d: nat)
    requires 1 <= d <= 9
    ensures OfReg(Crc16.Bits(0x30 + d) + Gf2.Zeros(8)) == Ascii(d)
  {
    hide Crc16.Bits;
    DigitBits(d);
  }

  lemma EatDigit(crc: Crc16.word, d: nat)
    requires 1 <= d <= 9
    ensures OfReg(Crc16.RegOf(Crc16.UpdateByte(crc, 0x30 + d))) == Eaten(OfReg(Crc16.RegOf(crc)), d)
  {
    hide OfReg, Times, Add, Ascii, Crc16.RegOf, Crc16.Bits, Crc16.UpdateByte, Gf2.Feed, Gf2.ShiftTimes, Gf2.Xor;
    var r, top := Crc16.RegOf(crc), Crc16.Bits(0x30 + d) + Gf2.Zeros(8);
    Crc16.UpdateByteIsFeed(crc, 0x30 + d);
    Gf2.FeedIsShift(r, Crc16.Bits(0x30 + d));
    ShiftTimesIsTimes(Gf2.Xor(r, top), 8);
    OfRegXor(r, top);
    AsciiIsTop(d);
  }

  lemma Words()
    ensures OfReg(Crc16.RegOf(0xFFFF)) == AFTER_0 && OfReg(Crc16.RegOf(0x29B1)) == AFTER_9
  {
    hide Crc16.RegOf, Crc16.Bits;
    Crc16.RegOfBytes(0xFF, 0xFF);
    Crc16.RegOfBytes(0x29, 0xB1);
    BitsOfFF();
    BitsOf29();
    BitsOfB1();
  }

  lemma BitsOfFF()
    ensures Crc16.Bits(0xFF) == [true, true, true, true, true, true, true, true]
  {
  }

  lemma BitsOf29()
    ensures Crc16.Bits(0x29) == [false, false, true, false, true, false, false, true]
  {
  }

  lemma BitsOfB1()
    ensures Crc16.Bits(0xB1) == [true, false, true, true, false, false, false, true]
  {
  }

  /** The register after `n` digits, starting from 0xFFFF. */
  function Digits(n: nat): (w: Crc16.word)
    requires n <= 9
  {
    if n == 0 then 0xFFFF else Crc16.UpdateByte(Digits(n - 1), 0x30 + n)
  }

  lemma {:induction false} DigitsAreUpdate(n: nat)
    requires n <= 9
    ensures Crc16.Checksum(CHECK[..n]) == Digits(n)
  {
    hide Crc16.UpdateByte, Crc16.Update;
    if n == 0 {
      assert Crc16.Checksum([]) == 0xFFFF by { EmptyChecksum(); }
    } else {
      DigitsAreUpdate(n - 1);
      TakeNext(CHECK, n - 1);
      assert CHECK[n - 1] == 0x30 + n;
      Crc16.UpdateLast(Crc16.INIT, CHECK[..n - 1], 0x30 + n);
    }
  }

  /** No bytes: the seed itself. */
  lemma EmptyChecksum()
    ensures Crc16.Checksum([]) == 0xFFFF
  {
  }

  /** The published value. */
  lemma Published()
    ensures Crc16.Checksum([0x31, 0x32, 0x33, 0x34, 0x35, 0x36, 0x37, 0x38, 0x39]) == 0x29B1
  {
    hide Eaten, OfReg, Crc16.RegOf, Crc16.Update, Crc16.UpdateByte;
    Words();
    Digit1();
    EatDigit(Digits(0), 1);
    Digit2();
    EatDigit(Digits(1), 2);
    Digit3();
    EatDigit(Digits(2), 3);
    Digit4();
    EatDigit(Digits(3), 4);
    Digit5();
    EatDigit(Digits(4), 5);
    Digit6();
    EatDigit(Digits(5), 6);
    Digit7();
    EatDigit(Digits(6), 7);
    Digit8();
    EatDigit(Digits(7), 8);
    Digit9();
    EatDigit(Digits(8), 9);
    DigitsAreUpdate(9);
    TakeAll(CHECK);
    OfRegInjective(Crc16.RegOf(Digits(9)), Crc16.RegOf(0x29B1));
    Crc16.RegOfInjective(Digits(9), 0x29B1);
  }

  /** What the checksum is, its seed written out: the one remainder of sixteen ones
      times x^(8n) and the data times x^16. */
  lemma ChecksumIsRemainder(data: seq<byte>)
    ensures forall w: Crc16.word ::
              Gf2.IsRemainder(Gf2.Dividend(seq(16, _ => true), Crc16.BitsOf(data)), Crc16.RegOf(w))
              <==> w == Crc16.Checksum(data)
  {
    hide Crc16.RegOf, Crc16.Bits, Crc16.BitsOf, Crc16.Update, Gf2.IsRemainder, Gf2.Dividend;
    Crc16.RegOfBytes(0xFF, 0xFF);
    BitsOfFF();
    assert Crc16.RegOf(Crc16.INIT) == seq(16, _ => true);
    Crc16.UpdateIsRemainder(Crc16.INIT, data);
  }
}
