/** One bit flipped on the line that is not noticed: a code byte one larger sends the
    walk another way, and the bytes that trade places happen to be a multiple of the
    generator. */
module OneLineBit {
  import opened Bytes
  import opened Framing
  import opened Corruption
  import opened Line
  import Cobs
  import Crc16
  import Gf2
  import Period

  // ------------------------------------------------------------- the bytes that trade

  /** Code bytes 4, 3, 11 and 4, and behind the second of them a 17. */
  predicate Swappable(s: seq<byte>) {
    |s| == 22 && s[0] == 4 && s[4] == 3 && s[5] == 17 && s[7] == 11 && s[18] == 4
  }

  lemma SwappableWalk(s: seq<byte>)
    requires Swappable(s)
    ensures forall i :: 0 <= i < 22 ==> (IsCode(s, i) <==> i == 0 || i == 4 || i == 7 || i == 18)
  {
    var a, b, c := s[4..], s[7..], s[18..];
    assert a[3..] == b && b[11..] == c;
    forall i | 0 <= i < 22
      ensures IsCode(s, i) <==> i == 0 || i == 4 || i == 7 || i == 18
    {
      assert IsCode(s, i) <==> i == 0 || (4 <= i && IsCode(a, i - 4));
      assert 4 <= i ==> (IsCode(a, i - 4) <==> i == 4 || (7 <= i && IsCode(b, i - 7)));
      assert 7 <= i ==> (IsCode(b, i - 7) <==> i == 7 || (18 <= i && IsCode(c, i - 18)));
      assert 18 <= i ==> (IsCode(c, i - 18) <==> i == 18);
    }
  }

  lemma SwappedWalk(t: seq<byte>)
    requires |t| == 22 && t[0] == 5 && t[5] == 17
    ensures Closes(t)
    ensures forall i :: 0 <= i < 22 ==> (IsCode(t, i) <==> i == 0 || i == 5)
  {
    var a := t[5..];
    assert a[17..] == [];
    forall i | 0 <= i < 22
      ensures IsCode(t, i) <==> i == 0 || i == 5
    {
      assert IsCode(t, i) <==> i == 0 || (5 <= i && IsCode(a, i - 5));
      assert 5 <= i ==> (IsCode(a, i - 5) <==> i == 5);
    }
  }

  /** The bytes that trade places when the first code byte becomes 5. */
  const SWAPPED: seq<byte> := [0, 0, 0, 3, 17, 0, 11, 0, 0, 0, 0, 0, 0, 0, 0, 0, 0, 4, 0, 0, 0]

  lemma SwappedBytes(s: seq<byte>, t: seq<byte>)
    requires Swappable(s) && |t| == 22 && t[0] == 5 && forall i :: 1 <= i < 22 ==> t[i] == s[i]
    ensures Traded(s, t) == SWAPPED
  {
    hide IsCode;
    SwappableWalk(s);
    SwappedWalk(t);
  }

  /** `data` and a checksum of zero, as a polynomial. */
  function ResidueOf(data: seq<byte>): Period.Poly { Period.Residue(Crc16.BitsOf(data) + Gf2.Zeros(16)) }

  lemma ByteFirst(b: byte, rest: seq<byte>)
    ensures Crc16.BitsOf([b] + rest) + Gf2.Zeros(16) == Crc16.Bits(b) + (Crc16.BitsOf(rest) + Gf2.Zeros(16))
  {
    hide Crc16.Bits, Gf2.Zeros;
    TailOf(b, rest);
    Regroup(Crc16.Bits(b), Crc16.BitsOf(rest), Gf2.Zeros(16));
  }

  lemma ResidueOfNothing()
    ensures ResidueOf([]) == Period.NONE
  {
    hide Gf2.Zeros, Period.Residue;
    NothingBefore(Gf2.Zeros(16));
    NothingBehind(Gf2.Zeros(16));
    Period.ResidueOfZeros(16, []);
    NoBits();
  }

  lemma NoBits()
    ensures Period.Residue([]) == Period.NONE
  {
  }

  lemma ResidueOf0(rest: seq<byte>)
    ensures ResidueOf([0] + rest) == ResidueOf(rest)
  {
    hide Crc16.Bits, Crc16.BitsOf, Period.Residue, Gf2.Zeros;
    ByteFirst(0, rest);
    Crc16.ZeroByte();
    Period.ResidueOfZeros(8, Crc16.BitsOf(rest) + Gf2.Zeros(16));
  }

  /** `n` zeros, a one, and the rest. */
  lemma NextOne(n: nat, s: Gf2.bits)
    ensures Period.Residue(Gf2.Zeros(n) + ([true] + s)) == Period.Add(Period.Power(|s|), Period.Residue(s))
  {
    hide Period.Residue, Gf2.Zeros;
    Period.ResidueOfZeros(n, [true] + s);
    Period.ResidueOfOne(s);
  }

  lemma ResidueOf3(rest: seq<byte>)
    ensures var n := 8 * |rest| + 16;
            ResidueOf([3] + rest) == Period.Add(Period.Power(n + 1), Period.Add(Period.Power(n), ResidueOf(rest)))
  {
    hide Crc16.Bits, Crc16.BitsOf, Period.Residue, Period.Add, Period.Power;
    var s := Crc16.BitsOf(rest) + Gf2.Zeros(16);
    ByteFirst(3, rest);
    BitsOf3();
    assert Crc16.Bits(3) + s == Gf2.Zeros(6) + ([true] + ([true] + s));
    NextOne(6, [true] + s);
    Period.ResidueOfOne(s);
  }

  lemma ResidueOf17(rest: seq<byte>)
    ensures var n := 8 * |rest| + 16;
            ResidueOf([17] + rest) == Period.Add(Period.Power(n + 4), Period.Add(Period.Power(n), ResidueOf(rest)))
  {
    hide Crc16.Bits, Crc16.BitsOf, Period.Residue, Period.Add, Period.Power;
    var s := Crc16.BitsOf(rest) + Gf2.Zeros(16);
    ByteFirst(17, rest);
    BitsOf17();
    assert Crc16.Bits(17) + s == Gf2.Zeros(3) + ([true] + (Gf2.Zeros(3) + ([true] + s)));
    NextOne(3, Gf2.Zeros(3) + ([true] + s));
    NextOne(3, s);
  }

  lemma ResidueOf11(rest: seq<byte>)
    ensures var n := 8 * |rest| + 16;
            ResidueOf([11] + rest) ==
            Period.Add(Period.Power(n + 3),
                       Period.Add(Period.Power(n + 1), Period.Add(Period.Power(n), ResidueOf(rest))))
  {
    hide Crc16.Bits, Crc16.BitsOf, Period.Residue, Period.Add, Period.Power;
    var s := Crc16.BitsOf(rest) + Gf2.Zeros(16);
    ByteFirst(11, rest);
    BitsOf11();
    assert Crc16.Bits(11) + s == Gf2.Zeros(4) + ([true] + (Gf2.Zeros(1) + ([true] + ([true] + s))));
    NextOne(4, Gf2.Zeros(1) + ([true] + ([true] + s)));
    NextOne(1, [true] + s);
    Period.ResidueOfOne(s);
  }

  lemma ResidueOf4(rest: seq<byte>)
    ensures ResidueOf([4] + rest) == Period.Add(Period.Power(8 * |rest| + 18), ResidueOf(rest))
  {
    hide Crc16.Bits, Crc16.BitsOf, Period.Residue, Period.Add, Period.Power;
    var s := Crc16.BitsOf(rest) + Gf2.Zeros(16);
    ByteFirst(4, rest);
    BitsOf4();
    assert Crc16.Bits(4) + s == Gf2.Zeros(5) + ([true] + (Gf2.Zeros(2) + s));
    NextOne(5, Gf2.Zeros(2) + s);
    Period.ResidueOfZeros(2, s);
  }

  lemma BitsOf3()
    ensures Crc16.Bits(3) == [false, false, false, false, false, false, true, true]
  {
  }

  lemma BitsOf4()
    ensures Crc16.Bits(4) == [false, false, false, false, false, true, false, false]
  {
  }

  lemma BitsOf5()
    ensures Crc16.Bits(5) == [false, false, false, false, false, true, false, true]
  {
  }

  lemma BitsOf11()
    ensures Crc16.Bits(11) == [false, false, false, false, true, false, true, true]
  {
  }

  lemma BitsOf17()
    ensures Crc16.Bits(17) == [false, false, false, true, false, false, false, true]
  {
  }

  function ZeroBytes(n: nat): (z: seq<byte>)
    ensures |z| == n
  {
    seq(n, i => 0)
  }

  lemma {:induction false} ResidueOfZeroBytes(n: nat, rest: seq<byte>)
    ensures ResidueOf(ZeroBytes(n) + rest) == ResidueOf(rest)
    decreases n
  {
    hide ResidueOf;
    if n == 0 {
      NothingBefore(rest);
    } else {
      assert ZeroBytes(n) + rest == [0] + (ZeroBytes(n - 1) + rest);
      ResidueOf0(ZeroBytes(n - 1) + rest);
      ResidueOfZeroBytes(n - 1, rest);
    }
  }

  lemma SwappedResidue()
    ensures ResidueOf(SWAPPED[..19]) == Period.NONE
  {
    hide ResidueOf, Period.Add, Period.Power;
    var e: seq<byte> := [4] + [0];
    var d := [11] + (ZeroBytes(10) + e);
    var c := [3] + ([17] + ([0] + d));
    assert SWAPPED[..19] == ZeroBytes(3) + c;
    ResidueOfZeroBytes(3, c);
    ResidueOf3([17] + ([0] + d));
    ResidueOf17([0] + d);
    ResidueOf0(d);
    ResidueOf11(ZeroBytes(10) + e);
    ResidueOfZeroBytes(10, e);
    ResidueOf4([0]);
    NothingBehind<byte>([0]);
    ResidueOf0([]);
    ResidueOfNothing();
    EightPowers();
  }

  lemma EightPowers()
    ensures Period.Add(Period.Power(137), Period.Add(Period.Power(136), Period.Add(Period.Power(132),
            Period.Add(Period.Power(128), Period.Add(Period.Power(115), Period.Add(Period.Power(113),
            Period.Add(Period.Power(112), Period.Add(Period.Power(26), Period.NONE)))))))) == Period.NONE
  {
    hide Period.Times, Period.Power;
    LowPowers();
    Period.Doubled(13);
    Period.Doubled(28);
    Period.Doubled(32);
    Period.Doubled(33);
    Period.Doubled(34);
    Period.Doubled(56);
    Period.Doubled(57);
    Period.Doubled(64);
    Period.Doubled(66);
    Period.Doubled(68);
  }

  lemma LowPowers()
    ensures Period.Power(13) == Period.Poly(false, false, true, false, false, false, false, false,
                                           false, false, false, false, false, false, false, false)
    ensures Period.Power(28) == Period.Poly(false, false, false, false, false, false, true, true,
                                           false, true, true, true, false, false, true, true)
    ensures Period.Power(32) == Period.Poly(false, false, true, true, false, true, true, true,
                                           false, false, true, true, false, false, false, false)
    ensures Period.Power(33) == Period.Poly(false, true, true, false, true, true, true, false,
                                           false, true, true, false, false, false, false, false)
    ensures Period.Power(34) == Period.Poly(true, true, false, true, true, true, false, false,
                                           true, true, false, false, false, false, false, false)
  {
    hide Period.Times, Period.Power;
    Period.Start();
    Period.Doubled(1);
    Period.Doubled(2);
    Period.Doubled(3);
    Period.Doubled(4);
    Period.Doubled(6);
    Period.Doubled(7);
    Period.Doubled(8);
    Period.Doubled(14);
    Period.Doubled(16);
    Period.Doubled(17);
  }

  lemma SwappedIsMultiple()
    ensures Gf2.IsMultiple(Codeword(SWAPPED))
  {
    hide Gf2.IsMultiple, Period.Residue, Crc16.BitsOf, Crc16.RegOf;
    SwappedResidue();
    assert |SWAPPED| == 21 && ReceivedCrc(SWAPPED) == 0;
    RegOfZero();
    Period.MultipleIsNoResidue(Codeword(SWAPPED));
  }

  lemma RegOfZero()
    ensures Crc16.RegOf(0) == Gf2.Zeros(16)
  {
    Crc16.LowBitsOfZero(16);
  }

  /** One flipped bit that passes: such a region with its first byte changed from 4
      to 5 is accepted as another frame. */
  lemma Passes(s: seq<byte>)
    requires DecodeRegion(s).Accepted? && Swappable(s)
    ensures var t := [5] + s[1..];
            && DecodeRegion(t).Accepted? && DecodeRegion(t).frame != DecodeRegion(s).frame
            && Gf2.Ones(Gf2.Xor(Crc16.BitsOf(s), Crc16.BitsOf(t))) == 1
            && (ZeroFree(s) ==> ZeroFree(t))
  {
    hide DecodeRegion, RawBlock, Codeword, Gf2.IsMultiple, Gf2.Xor, Gf2.Ones, Crc16.BitsOf;
    var t := [5] + s[1..];
    assert forall i :: 1 <= i < 22 ==> t[i] == s[i];
    OneBitOff(s, t);
    hide Closes, IsCode, Traded;
    SwappableWalk(s);
    SwappedWalk(t);
    SwappedBytes(s, t);
    SwappedIsMultiple();
    assert SWAPPED[1] == 0;
    CodeByteUndetectedExactly(s, t, 0);
    FrameOf(s);
    FrameOf(t);
    assert Unstuffed(s)[3] == 0 && Unstuffed(t)[3] == 3;
  }

  lemma OneBitOff(s: seq<byte>, t: seq<byte>)
    requires |s| == |t| > 0 && s[0] == 4 && t[0] == 5 && s[1..] == t[1..]
    ensures Gf2.Ones(Gf2.Xor(Crc16.BitsOf(s), Crc16.BitsOf(t))) == 1
  {
    hide Crc16.Bits, Crc16.BitsOf, Gf2.Xor, Gf2.Ones, Gf2.Zeros;
    HeadAndTail(s);
    HeadAndTail(t);
    var rest := Crc16.BitsOf(s[1..]);
    FirstByteBits(s);
    FirstByteBits(t);
    Gf2.XorConcat(Crc16.Bits(4), rest, Crc16.Bits(5), rest);
    Gf2.XorSelf(rest);
    FourAndFive();
    Gf2.OnesConcat(Gf2.Zeros(7) + [true], Gf2.Zeros(|rest|));
    Gf2.OnesConcat(Gf2.Zeros(7), [true]);
    Gf2.OnesZeros(7);
    Gf2.OnesZeros(|rest|);
    OnesOfDisplays();
  }

  lemma FirstByteBits(s: seq<byte>)
    requires s != []
    ensures Crc16.BitsOf(s) == Crc16.Bits(s[0]) + Crc16.BitsOf(s[1..])
  {
  }

  lemma FourAndFive()
    ensures Gf2.Xor(Crc16.Bits(4), Crc16.Bits(5)) == Gf2.Zeros(7) + [true]
  {
    hide Crc16.Bits;
    BitsOf4();
    BitsOf5();
  }

  // ---------------------------------------------------- and there are such regions

  /** A frame whose block is stuffed that way. */
  predicate SwappableFrame(f: Frame) {
    && |f.payload| == 17 && f.kind != 0 && f.payload[2] == 17
    && (forall i :: 0 <= i < 17 ==> (f.payload[i] == 0 <==> i == 1 || i == 4 || i == 15))
    && ZeroFree(LittleEndian(Crc16.Checksum(Covered(f))))
  }

  lemma SwappableRegion(f: Frame)
    requires SwappableFrame(f)
    ensures Swappable(Region(f))
  {
    hide Crc16.Checksum, Cobs.Encode;
    var p, crc := f.payload, LittleEndian(Crc16.Checksum(Covered(f)));
    var a, b, c, d := [f.kind, 17, p[0]], [p[2], p[3]], p[5..15], [p[16]] + crc;
    assert RawBlock(f) == a + [0] + (b + [0] + (c + [0] + d));
    Cobs.EncodeAtEnd(d);
    Cobs.EncodeAtZero(c, d);
    Cobs.EncodeAtZero(b, c + [0] + d);
    Cobs.EncodeAtZero(a, b + [0] + (c + [0] + d));
    assert Region(f) == [4] + a + ([3] + b + ([11] + c + ([4] + d)));
  }

  /** Feeding 1, 2 or 3 to an empty register sets a bit in either half. */
  lemma BothHalves(z: byte) returns (i: nat, j: nat)
    requires 1 <= z <= 3
    ensures i < 8 <= j < 16
    ensures var r := Gf2.Feed(Gf2.Zeros(16), Crc16.Bits(z)); r[i] && r[j]
  {
    hide Crc16.Bits, Gf2.Feed, Gf2.Zeros, Gf2.Step, Gf2.Xor;
    var none, one, two := Gf2.Zeros(16), Crc16.Bits(1), Crc16.Bits(2);
    FedOne();
    FedTwo();
    if z == 3 {
      OneTwoThree();
      Gf2.FeedLinear(none, none, one, two);
      Gf2.XorSelf(none);
      i, j := 3, 10;
      assert Gf2.Xor(Gf2.Feed(none, one), Gf2.Feed(none, two))[3];
      assert Gf2.Xor(Gf2.Feed(none, one), Gf2.Feed(none, two))[10];
    } else {
      i, j := if z == 1 then 3 else 2, if z == 1 then 10 else 9;
    }
  }

  lemma FedOne()
    ensures var r := Gf2.Feed(Gf2.Zeros(16), Crc16.Bits(1)); r == Gf2.GENERATOR[1..] && r[3] && r[10] && !r[2] && !r[9]
  {
    hide Crc16.Bits, Gf2.Feed;
    LowBitAlone();
    Gf2.FeedConcat(Gf2.Zeros(16), Gf2.Zeros(7), [true]);
    Period.Silent(7);
    FeedOneBit();
  }

  lemma FedTwo()
    ensures var r := Gf2.Feed(Gf2.Zeros(16), Crc16.Bits(2)); r[2] && r[9] && !r[3] && !r[10]
  {
    hide Crc16.Bits, Gf2.Feed, Gf2.Shift, Gf2.Step;
    var none, g := Gf2.Zeros(16), Gf2.GENERATOR[1..];
    BitsOf2();
    assert Crc16.Bits(2) == Gf2.Zeros(6) + ([true] + [false]);
    Gf2.FeedConcat(none, Gf2.Zeros(6), [true] + [false]);
    Period.Silent(6);
    Gf2.FeedConcat(none, [true], [false]);
    FeedOneBit();
    FeedQuietBit(g);
    Gf2.ShiftAt(g, 2);
    Gf2.ShiftAt(g, 9);
    Gf2.ShiftAt(g, 3);
    Gf2.ShiftAt(g, 10);
  }

  lemma FeedQuietBit(r: Gf2.Reg)
    ensures Gf2.Feed(r, [false]) == Gf2.Shift(r)
  {
    hide Gf2.Step, Gf2.Shift;
    Gf2.StepQuiet(r);
    assert [false][1..] == [];
  }

  lemma BitsOf2()
    ensures Crc16.Bits(2) == [false, false, false, false, false, false, true, false]
  {
  }

  lemma OneTwoThree()
    ensures Gf2.Xor(Crc16.Bits(1), Crc16.Bits(2)) == Crc16.Bits(3)
    ensures Gf2.Xor(Crc16.Bits(1), Crc16.Bits(3)) == Crc16.Bits(2)
    ensures Gf2.Xor(Crc16.Bits(2), Crc16.Bits(3)) == Crc16.Bits(1)
  {
    hide Crc16.Bits;
    LowBitAlone();
    BitsOf2();
    BitsOf3();
  }

  lemma ChecksumsApart(front: seq<byte>, a: byte, b: byte)
    requires 1 <= a < b <= 3
    ensures var v, w := Crc16.Checksum(front + [a]), Crc16.Checksum(front + [b]);
            v / 256 != w / 256 && v % 256 != w % 256
  {
    hide Crc16.Bits, Crc16.RegOf, Crc16.Update, Crc16.UpdateByte, Gf2.Feed, Gf2.Xor;
    var c, v, w := Crc16.Checksum(front), Crc16.Checksum(front + [a]), Crc16.Checksum(front + [b]);
    Crc16.UpdateLast(Crc16.INIT, front, a);
    Crc16.UpdateLast(Crc16.INIT, front, b);
    Crc16.UpdateByteIsFeed(c, a);
    Crc16.UpdateByteIsFeed(c, b);
    var r, x, y := Crc16.RegOf(c), Crc16.RegOf(v), Crc16.RegOf(w);
    Gf2.FeedLinear(r, r, Crc16.Bits(a), Crc16.Bits(b));
    Gf2.XorSelf(r);
    OneTwoThree();
    var i, j := BothHalves(if a == 2 then 1 else if b == 3 then 2 else 3);
    assert Gf2.Xor(x, y)[i] && Gf2.Xor(x, y)[j];
    Crc16.RegOfBytes(v / 256, v % 256);
    Crc16.RegOfBytes(w / 256, w % 256);
    assert x[i] == Crc16.Bits(v / 256)[i] && y[i] == Crc16.Bits(w / 256)[i];
    assert x[j] == Crc16.Bits(v % 256)[j - 8] && y[j] == Crc16.Bits(w % 256)[j - 8];
  }

  /** Of three last bytes at least one gives a checksum without a zero. */
  lemma SomeChecksumZeroFree(front: seq<byte>) returns (b: byte)
    ensures 1 <= b <= 3 && ZeroFree(LittleEndian(Crc16.Checksum(front + [b])))
  {
    hide Crc16.Checksum;
    ChecksumsApart(front, 1, 2);
    ChecksumsApart(front, 1, 3);
    ChecksumsApart(front, 2, 3);
    var u, v := Crc16.Checksum(front + [1]), Crc16.Checksum(front + [2]);
    b := if u / 256 != 0 && u % 256 != 0 then 1 else if v / 256 != 0 && v % 256 != 0 then 2 else 3;
  }

  /** There is a command packet of which one flipped bit makes another frame. */
  lemma Exists() returns (f: Frame, t: seq<byte>)
    ensures Sendable(f) && f.kind == COMMAND && |t| == |Region(f)| && ZeroFree(t)
    ensures Gf2.Ones(Gf2.Xor(Crc16.BitsOf(Region(f)), Crc16.BitsOf(t))) == 1
    ensures DecodeRegion(t).Accepted? && DecodeRegion(t).frame != f
  {
    hide DecodeRegion, Region, Crc16.Checksum, Crc16.BitsOf, Gf2.Xor, Gf2.Ones;
    var front: seq<byte> := [1, 0, 17, 1, 0, 1, 1, 1, 1, 1, 1, 1, 1, 1, 1, 0];
    var b := SomeChecksumZeroFree([COMMAND, 17] + front);
    f := Frame(COMMAND, front + [b]);
    assert Covered(f) == [COMMAND, 17] + front + [b];
    var s := Region(f);
    SwappableRegion(f);
    FrameRoundTrip(f);
    Passes(s);
    t := [5] + s[1..];
  }
}
