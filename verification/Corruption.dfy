/** Which damaged blocks the receiver refuses. A block is what stands in a packet
    before it is stuffed, or after; what damage to the stuffed bytes on the line
    makes of it is the subject of module Line. */
module Corruption {
  import opened Bytes
  import opened Framing
  import Cobs
  import Crc16
  import Gf2
  import Period

  /** `region` is read as `raw`, and `raw` passes every check. */
  predicate Accepts(region: seq<byte>, raw: seq<byte>) {
    Cobs.Decode(region) == Some(raw) && DecodeRegion(region).Accepted?
  }

  lemma AcceptsJudged(region: seq<byte>, raw: seq<byte>)
    requires Cobs.Decode(region) == Some(raw)
    ensures DecodeRegion(region).Accepted? <==> |raw| <= RAW_CAP && Judge(raw).Accepted?
    ensures Accepts(Cobs.Encode(raw), raw) <==> |raw| <= RAW_CAP && Judge(raw).Accepted?
  {
    hide Judge, Cobs.DecodeWithin, Cobs.Decode, Cobs.Encode;
    Cobs.DecodeWithinMeaning(region, RAW_CAP);
    Cobs.RoundTrip(raw);
    Cobs.DecodeWithinMeaning(Cobs.Encode(raw), RAW_CAP);
    var o, e := Cobs.DecodeWithin(region, RAW_CAP), Cobs.DecodeWithin(Cobs.Encode(raw), RAW_CAP);
    assert o.Decoded? ==> o == Cobs.Decoded(o.data);
    assert e.Decoded? ==> e == Cobs.Decoded(e.data);
  }

  /** The region a sender makes of a frame is accepted as the block it was made from. */
  lemma SentIsAccepted(f: Frame)
    requires Sendable(f)
    ensures Accepts(Region(f), RawBlock(f))
  {
    hide Judge, RawBlock, DecodeRegion, Cobs.Decode, Cobs.Encode;
    FrameRoundTrip(f);
    Cobs.RoundTrip(RawBlock(f));
  }

  // ----------------------------------------------------- the block as a polynomial

  /** The bits TYPE, LENGTH and PAYLOAD occupy. */
  function CoveredBits(raw: seq<byte>): (s: Gf2.bits)
    requires |raw| >= CRC_SIZE
    ensures |s| == 8 * (|raw| - CRC_SIZE)
  {
    Crc16.BitsOf(raw[..|raw| - CRC_SIZE])
  }

  /** The covered bits and the received checksum, most significant bit first. In
      the block the checksum's two bytes stand the other way round. */
  function Codeword(raw: seq<byte>): (s: Gf2.bits)
    requires |raw| >= CRC_SIZE
    ensures |s| == 8 * |raw|
  {
    CoveredBits(raw) + Crc16.RegOf(ReceivedCrc(raw))
  }

  /** What the length checks ask for. */
  predicate WellSized(raw: seq<byte>) {
    |raw| >= HEADER_SIZE + CRC_SIZE && raw[1] <= MAX_PAYLOAD && |raw| == HEADER_SIZE + raw[1] + CRC_SIZE
  }

  lemma JudgeExactly(raw: seq<byte>)
    ensures Judge(raw).Accepted? <==>
            WellSized(raw) && ReceivedCrc(raw) == Crc16.Checksum(raw[..|raw| - CRC_SIZE])
  {
  }

  /** The checksum test passes exactly when the codeword clears the register. */
  lemma AcceptedClears(raw: seq<byte>)
    requires |raw| >= CRC_SIZE
    ensures ReceivedCrc(raw) == Crc16.Checksum(raw[..|raw| - CRC_SIZE])
       <==> Gf2.Feed(Crc16.RegOf(Crc16.INIT), Codeword(raw)) == Gf2.Zeros(16)
  {
    hide Crc16.BitsOf, Crc16.RegOf, Crc16.Update, Gf2.Feed, Gf2.Zeros, ReceivedCrc;
    var covered, crc, seed := raw[..|raw| - CRC_SIZE], ReceivedCrc(raw), Crc16.RegOf(Crc16.INIT);
    Crc16.UpdateIsFeed(Crc16.INIT, covered);
    Gf2.FeedConcat(seed, CoveredBits(raw), Crc16.RegOf(crc));
    Gf2.FeedSelfClears(Crc16.RegOf(Crc16.Checksum(covered)), Crc16.RegOf(crc));
    if Crc16.RegOf(Crc16.Checksum(covered)) == Crc16.RegOf(crc) {
      Crc16.RegOfInjective(Crc16.Checksum(covered), crc);
    }
  }

  lemma Clears(raw: seq<byte>)
    ensures Judge(raw).Accepted? <==>
            WellSized(raw) && Gf2.Feed(Crc16.RegOf(Crc16.INIT), Codeword(raw)) == Gf2.Zeros(16)
  {
    hide Judge, Codeword, ReceivedCrc, Crc16.Checksum, Gf2.Feed;
    JudgeExactly(raw);
    if |raw| >= CRC_SIZE {
      AcceptedClears(raw);
    }
  }

  /** Exactly which damage goes unnoticed, wherever it falls: it must leave LENGTH
      alone and differ, as a codeword, by a multiple of the generator. */
  lemma UndetectedExactly(region: seq<byte>, raw: seq<byte>, damaged: seq<byte>, region': seq<byte>)
    requires Accepts(region, raw) && Cobs.Decode(region') == Some(damaged) && |raw| == |damaged| >= HEADER_SIZE
    ensures DecodeRegion(region').Accepted? <==>
            raw[1] == damaged[1] && Gf2.IsMultiple(Gf2.Xor(Codeword(raw), Codeword(damaged)))
  {
    hide Judge, DecodeRegion, Codeword, Cobs.Decode, Cobs.Encode, Crc16.RegOf;
    hide Gf2.IsMultiple, Gf2.Xor, Gf2.Zeros, Gf2.Feed;
    AcceptsJudged(region, raw);
    AcceptsJudged(region', damaged);
    Clears(raw);
    Clears(damaged);
    var seed, x, y := Crc16.RegOf(Crc16.INIT), Codeword(raw), Codeword(damaged);
    Gf2.FeedLinear(seed, seed, x, y);
    Gf2.XorSelf(seed);
    Gf2.XorClearExactly(Gf2.Feed(seed, x), Gf2.Feed(seed, y));
    Gf2.MultipleExactly(Gf2.Xor(x, y));
  }

  // -------------------------------------------------------- bits in sending order

  /** A block's bits: in the order of its bytes, and as a codeword. */
  lemma BlockBits(raw: seq<byte>) returns (low: Gf2.bits, high: Gf2.bits)
    requires |raw| >= CRC_SIZE
    ensures low == Crc16.Bits(raw[|raw| - 2]) && high == Crc16.Bits(raw[|raw| - 1])
    ensures Crc16.BitsOf(raw) == CoveredBits(raw) + (low + high)
    ensures Codeword(raw) == CoveredBits(raw) + (high + low)
  {
    hide Crc16.Bits, Crc16.RegOf;
    var n := |raw| - CRC_SIZE;
    Crc16.RegOfBytes(raw[n + 1], raw[n]);
    low, high := Crc16.Bits(raw[n]), Crc16.Bits(raw[n + 1]);
    assert raw == raw[..n] + raw[n..] && raw[n..] == [raw[n], raw[n + 1]];
    Crc16.BitsOfConcat(raw[..n], raw[n..]);
    BitsOfTwo(raw[n], raw[n + 1]);
  }

  lemma BitsOfTwo(a: byte, b: byte)
    ensures Crc16.BitsOf([a, b]) == Crc16.Bits(a) + Crc16.Bits(b)
  {
    hide Crc16.Bits;
    assert [a, b][1..] == [b] && [b][1..] == [];
    assert Crc16.BitsOf([b]) == Crc16.Bits(b) + [] == Crc16.Bits(b);
  }

  /** Where bit `i` of a block of `n` bytes stands in its codeword. */
  function Place(n: nat, i: nat): (p: nat)
    requires CRC_SIZE <= n && i < 8 * n
    ensures p < 8 * n
  {
    if i < 8 * n - 16 then i else if i < 8 * n - 8 then i + 8 else i - 8
  }

  lemma PlaceOfBit(raw: seq<byte>, i: nat)
    requires |raw| >= CRC_SIZE && i < 8 * |raw|
    ensures Crc16.BitsOf(raw)[i] == Codeword(raw)[Place(|raw|, i)]
  {
    hide Crc16.Bits, Crc16.BitsOf, Codeword, CoveredBits;
    var low, high := BlockBits(raw);
  }

  lemma CodewordInjective(a: seq<byte>, b: seq<byte>)
    requires |a| == |b| >= CRC_SIZE && Codeword(a) == Codeword(b)
    ensures a == b
  {
    hide Codeword, Crc16.BitsOf;
    var x, y := Crc16.BitsOf(a), Crc16.BitsOf(b);
    forall i | 0 <= i < 8 * |a|
      ensures x[i] == y[i]
    {
      PlaceOfBit(a, i);
      PlaceOfBit(b, i);
    }
    Crc16.BitsOfInjective(a, b);
  }

  // --------------------------------------------------------------------- bursts

  /** The codewords of `a` and `b` agree outside `[at, at + width)`. */
  ghost predicate DifferWithin(a: seq<byte>, b: seq<byte>, at: nat, width: nat) {
    && |a| == |b| >= CRC_SIZE && at + width <= 8 * |a|
    && forall i :: 0 <= i < 8 * |a| && !(at <= i < at + width) ==> Codeword(a)[i] == Codeword(b)[i]
  }

  /** Damage confined to sixteen consecutive bits of the codeword never gets past
      the receiver, whatever region the block arrives in. */
  lemma BurstRefused(region: seq<byte>, raw: seq<byte>, damaged: seq<byte>, region': seq<byte>, at: nat, width: nat)
    requires Accepts(region, raw) && Cobs.Decode(region') == Some(damaged)
    requires DifferWithin(raw, damaged, at, width) && width <= 16 && raw != damaged
    ensures DecodeRegion(region').Refused?
  {
    hide Judge, DecodeRegion, Codeword, Cobs.Decode, Cobs.Encode, Crc16.RegOf, Gf2.Feed;
    AcceptsJudged(region, raw);
    AcceptsJudged(region', damaged);
    Clears(raw);
    Clears(damaged);
    if Codeword(raw) == Codeword(damaged) {
      CodewordInjective(raw, damaged);
    }
    Gf2.BurstChangesRegister(Crc16.RegOf(Crc16.INIT), Codeword(raw), Codeword(damaged), at, width);
  }

  /** The last payload byte and the checksum bytes changed by the generator's own
      seventeen bits: thirteen consecutive bits in the order of its bytes. */
  function SeamDamage(raw: seq<byte>): (damaged: seq<byte>)
    requires |raw| >= HEADER_SIZE + CRC_SIZE
    ensures |damaged| == |raw|
  {
    var n := |raw| - 3;
    raw[..n] + [Crc16.XorByte(raw[n], 0x01), Crc16.XorByte(raw[n + 1], 0x21), Crc16.XorByte(raw[n + 2], 0x10)]
  }

  lemma SeamShape(raw: seq<byte>) returns (front: Gf2.bits, x: Gf2.bits)
    requires |raw| >= HEADER_SIZE + CRC_SIZE
    ensures |front| == 8 * (|raw| - 3) && |x| == 24
    ensures Codeword(raw) == front + x
    ensures Codeword(SeamDamage(raw)) == front + Gf2.Xor(x, Gf2.Zeros(7) + Gf2.GENERATOR)
  {
    hide Crc16.Bits, Crc16.BitsOf, Codeword, CoveredBits, Gf2.Xor, Gf2.GENERATOR;
    var n, damaged := |raw| - 3, SeamDamage(raw);
    var low, high := BlockBits(raw);
    var low', high' := BlockBits(damaged);
    front, x := Crc16.BitsOf(raw[..n]), Crc16.Bits(raw[n]) + (high + low);
    CoveredLast(raw);
    CoveredLast(damaged);
    assert damaged[..n] == raw[..n];
    Regroup(front, Crc16.Bits(raw[n]), high + low);
    Regroup(front, Crc16.Bits(damaged[n]), high' + low');
    var a, b, c := Crc16.Bits(0x01), Crc16.Bits(0x10), Crc16.Bits(0x21);
    Gf2.XorConcat(high, low, b, c);
    Gf2.XorConcat(Crc16.Bits(raw[n]), high + low, a, b + c);
    GeneratorBytes();
  }

  lemma CoveredLast(raw: seq<byte>)
    requires |raw| > CRC_SIZE
    ensures CoveredBits(raw) == Crc16.BitsOf(raw[..|raw| - 3]) + Crc16.Bits(raw[|raw| - 3])
  {
    hide Crc16.Bits;
    var n := |raw| - 3;
    assert raw[..n + 1] == raw[..n] + [raw[n]];
    Crc16.BitsOfConcat(raw[..n], [raw[n]]);
    assert [raw[n]][1..] == [];
    NothingBehind(Crc16.Bits(raw[n]));
  }

  /** The generator's seventeen coefficients, as the end of three bytes. */
  lemma GeneratorBytes()
    ensures Crc16.Bits(0x01) + (Crc16.Bits(0x10) + Crc16.Bits(0x21)) == Gf2.Zeros(7) + Gf2.GENERATOR
  {
    hide Crc16.Bits, Crc16.RegOf;
    Crc16.RegOfBytes(0x10, 0x21);
    Crc16.RegOfPolynomial();
    LowBitAlone();
    Gf2.GeneratorLeads();
    assert Gf2.GENERATOR == [true] + Gf2.GENERATOR[1..];
    Regroup(Gf2.Zeros(7), [true], Gf2.GENERATOR[1..]);
  }

  lemma LowBitAlone()
    ensures Crc16.Bits(0x01) == Gf2.Zeros(7) + [true]
  {
    Crc16.LowBitsOfZero(7);
  }

  /** The generator itself, with zeros before it, clears the register. */
  lemma GeneratorIsMultiple(n: nat)
    ensures Gf2.IsMultiple(Gf2.Zeros(n) + Gf2.GENERATOR)
  {
    hide Gf2.IsMultiple, Gf2.Feed, Gf2.Shift, Gf2.Xor, Gf2.Zeros;
    var none, g := Gf2.Zeros(16), Gf2.GENERATOR[1..];
    Gf2.GeneratorLeads();
    assert Gf2.GENERATOR == [true] + g;
    Gf2.MultipleExactly(Gf2.Zeros(n) + Gf2.GENERATOR);
    Gf2.FeedConcat(none, Gf2.Zeros(n), Gf2.GENERATOR);
    Period.Silent(n);
    Gf2.FeedConcat(none, [true], g);
    FeedOneBit();
    Gf2.FeedSelfClears(g, g);
  }

  lemma FeedOneBit()
    ensures Gf2.Feed(Gf2.Zeros(16), [true]) == Gf2.GENERATOR[1..]
  {
    var none := Gf2.Zeros(16);
    assert [true][1..] == [] && Gf2.Feed(Gf2.Step(none, true), []) == Gf2.Step(none, true);
    forall i | 0 <= i < 16
      ensures Gf2.Step(none, true)[i] == Gf2.GENERATOR[1..][i]
    {
      hide Gf2.Step;
      Gf2.StepAt(none, true, i);
    }
  }

  lemma SeamDifference(front: Gf2.bits, x: Gf2.bits)
    requires |x| == 24
    ensures |Gf2.GENERATOR| == 17
    ensures Gf2.Xor(front + x, front + Gf2.Xor(x, Gf2.Zeros(7) + Gf2.GENERATOR)) ==
            Gf2.Zeros(|front| + 7) + Gf2.GENERATOR
  {
    hide Gf2.GENERATOR;
    Gf2.GeneratorLeads();
  }

  lemma SeamBytes(raw: seq<byte>)
    requires |raw| >= HEADER_SIZE + CRC_SIZE
    ensures raw != SeamDamage(raw) && (raw[1] == SeamDamage(raw)[1] <==> |raw| > HEADER_SIZE + CRC_SIZE)
  {
    hide Crc16.Bits;
    var b := raw[|raw| - 3];
    LowBitAlone();
    assert Crc16.Bits(Crc16.XorByte(b, 0x01))[7] != Crc16.Bits(b)[7];
    assert SeamDamage(raw)[|raw| - 3] == Crc16.XorByte(b, 0x01) != b;
  }

  /** A block's bits, its last three bytes apart. */
  lemma LastThree(raw: seq<byte>)
    requires |raw| >= 3
    ensures var n := |raw| - 3;
            Crc16.BitsOf(raw) ==
            Crc16.BitsOf(raw[..n]) + Crc16.Bits(raw[n]) + (Crc16.Bits(raw[n + 1]) + Crc16.Bits(raw[n + 2]))
  {
    hide Crc16.BitsOf, Crc16.Bits, CoveredBits;
    var low, high := BlockBits(raw);
    CoveredLast(raw);
  }

  lemma SeamOrder(raw: seq<byte>)
    requires |raw| >= HEADER_SIZE + CRC_SIZE
    ensures var n := 8 * |raw|;
            forall i :: 0 <= i < n && !(n - 17 <= i < n - 4) ==>
                          Crc16.BitsOf(raw)[i] == Crc16.BitsOf(SeamDamage(raw))[i]
  {
    hide Crc16.BitsOf, Crc16.Bits, Crc16.XorByte;
    var n, damaged := |raw| - 3, SeamDamage(raw);
    LastThree(raw);
    LastThree(damaged);
    assert damaged[..n] == raw[..n];
    LowBitAlone();
    Crc16.BitsOfHighHalf();
    var x, y := Crc16.Bits(raw[n]), Crc16.Bits(damaged[n]);
    assert forall k :: 0 <= k < 7 ==> y[k] == x[k];
    var u, v := Crc16.Bits(raw[n + 2]), Crc16.Bits(damaged[n + 2]);
    assert forall k :: 4 <= k < 8 ==> v[k] == u[k];
  }

  lemma SeamFlipsFour(raw: seq<byte>)
    requires |raw| >= HEADER_SIZE + CRC_SIZE
    ensures Gf2.Ones(Gf2.Xor(Crc16.BitsOf(raw), Crc16.BitsOf(SeamDamage(raw)))) == 4
  {
    hide Crc16.BitsOf, Crc16.Bits, Crc16.XorByte, Gf2.Xor, Gf2.Ones, Gf2.Zeros;
    var n, damaged := |raw| - 3, SeamDamage(raw);
    LastThree(raw);
    LastThree(damaged);
    assert damaged[..n] == raw[..n];
    var front, a, b, c := Crc16.BitsOf(raw[..n]), Crc16.Bits(0x01), Crc16.Bits(0x21), Crc16.Bits(0x10);
    var x, y, z := Crc16.Bits(raw[n]), Crc16.Bits(raw[n + 1]), Crc16.Bits(raw[n + 2]);
    var x', y', z' := Gf2.Xor(x, a), Gf2.Xor(y, b), Gf2.Xor(z, c);
    Gf2.XorConcat(front + x, y + z, front + x', y' + z');
    Gf2.XorConcat(front, x, front, x');
    Gf2.XorConcat(y, z, y', z');
    Gf2.XorSelf(front);
    Gf2.XorTwice(x, a);
    Gf2.XorTwice(y, b);
    Gf2.XorTwice(z, c);
    var none := Gf2.Zeros(|front|);
    Gf2.OnesConcat(none + a, b + c);
    Gf2.OnesConcat(none, a);
    Gf2.OnesConcat(b, c);
    Gf2.OnesZeros(|front|);
    OnesOfSeam();
  }

  lemma OnesOfSeam()
    ensures Gf2.Ones(Crc16.Bits(0x01)) == 1 && Gf2.Ones(Crc16.Bits(0x21)) == 2 && Gf2.Ones(Crc16.Bits(0x10)) == 1
  {
    hide Crc16.Bits, Gf2.Ones;
    LowBitAlone();
    Gf2.OnesConcat(Gf2.Zeros(7), [true]);
    Gf2.OnesZeros(7);
    Crc16.BitsOfHighHalf();
    Crc16.BitsOfLowHalf();
    OnesOfDisplays();
  }

  lemma OnesOfDisplays()
    ensures Gf2.Ones([true]) == 1
    ensures Gf2.Ones([false, false, false, true, false, false, false, false]) == 1
    ensures Gf2.Ones([false, false, true, false, false, false, false, true]) == 2
  {
    var a, b, c := [false, false, false], [false, false], [false, false, false, false];
    assert Gf2.Ones(a) == 0 && Gf2.Ones(b) == 0 && Gf2.Ones(c) == 0 && Gf2.Ones([true]) == 1;
    assert [false, false, false, true, false, false, false, false] == a + [true] + c;
    assert [false, false, true, false, false, false, false, true] == b + [true] + (c + [true]);
    Gf2.OnesConcat(a + [true], c);
    Gf2.OnesConcat(a, [true]);
    Gf2.OnesConcat(b + [true], c + [true]);
    Gf2.OnesConcat(b, [true]);
    Gf2.OnesConcat(c, [true]);
  }

  /** A burst of thirteen bits of the block, four of them flipped, that is accepted
      whenever there is a payload: in the codeword it is seventeen bits long. */
  lemma SeamBurstAccepted(region: seq<byte>, raw: seq<byte>, region': seq<byte>)
    requires Accepts(region, raw) && |raw| >= HEADER_SIZE + CRC_SIZE && Cobs.Decode(region') == Some(SeamDamage(raw))
    ensures DecodeRegion(region').Accepted? <==> |raw| > HEADER_SIZE + CRC_SIZE
    ensures raw != SeamDamage(raw)
    ensures Gf2.Ones(Gf2.Xor(Crc16.BitsOf(raw), Crc16.BitsOf(SeamDamage(raw)))) == 4
    ensures var n := 8 * |raw|;
            forall i :: 0 <= i < n && !(n - 17 <= i < n - 4) ==>
                          Crc16.BitsOf(raw)[i] == Crc16.BitsOf(SeamDamage(raw))[i]
  {
    hide Accepts, Codeword, SeamDamage, DecodeRegion, Cobs.Decode, Crc16.BitsOf, Gf2.Xor, Gf2.Zeros, Gf2.IsMultiple;
    UndetectedExactly(region, raw, SeamDamage(raw), region');
    var front, x := SeamShape(raw);
    SeamDifference(front, x);
    GeneratorIsMultiple(|front| + 7);
    SeamBytes(raw);
    SeamOrder(raw);
    SeamFlipsFour(raw);
  }

  // ------------------------------------------------------------- one to three bits

  lemma SeedIsEven()
    ensures !Gf2.Odd(Crc16.RegOf(Crc16.INIT))
  {
    hide Crc16.RegOf, Crc16.Bits, Gf2.Odd;
    Crc16.RegOfBytes(0xFF, 0xFF);
    Gf2.OddConcat(Crc16.Bits(0xFF), Crc16.Bits(0xFF));
  }

  /** Whether `raw` has an odd number of one bits. */
  function OddOnes(raw: seq<byte>): bool { Gf2.Odd(Crc16.BitsOf(raw)) }

  lemma CodewordParity(raw: seq<byte>)
    requires |raw| >= CRC_SIZE
    ensures Gf2.Odd(Codeword(raw)) == OddOnes(raw)
  {
    hide Gf2.Odd, Codeword, CoveredBits, Crc16.BitsOf, Crc16.Bits;
    var low, high := BlockBits(raw);
    Gf2.OddConcat(CoveredBits(raw), low + high);
    Gf2.OddConcat(CoveredBits(raw), high + low);
    Gf2.OddConcat(low, high);
    Gf2.OddConcat(high, low);
  }

  /** Every block that passes the checks has an even number of ones, checksum
      bytes included: the generator has x + 1 as a factor. */
  lemma AcceptedIsEven(raw: seq<byte>)
    requires Judge(raw).Accepted?
    ensures !OddOnes(raw)
  {
    hide Judge, OddOnes, Codeword, Crc16.RegOf, Gf2.Odd, Gf2.Feed, Gf2.Zeros;
    Clears(raw);
    CodewordParity(raw);
    SeedIsEven();
    Gf2.FeedParity(Crc16.RegOf(Crc16.INIT), Codeword(raw));
    Gf2.OddZeros(16);
  }

  /** Flipping an odd number of bits anywhere in an accepted block is always noticed. */
  lemma OddDamageRefused(region: seq<byte>, raw: seq<byte>, damaged: seq<byte>, region': seq<byte>)
    requires Accepts(region, raw) && Cobs.Decode(region') == Some(damaged) && |raw| == |damaged|
    requires Gf2.Odd(Gf2.Xor(Crc16.BitsOf(raw), Crc16.BitsOf(damaged)))
    ensures DecodeRegion(region').Refused?
  {
    hide Judge, DecodeRegion, Crc16.BitsOf, Gf2.Odd, Gf2.Xor, Cobs.Decode, Cobs.Encode;
    AcceptsJudged(region, raw);
    AcceptsJudged(region', damaged);
    AcceptedIsEven(raw);
    if Judge(damaged).Accepted? {
      AcceptedIsEven(damaged);
      Gf2.OddXor(Crc16.BitsOf(raw), Crc16.BitsOf(damaged));
    }
  }

  /** Two bits changed in the block are two bits changed in its codeword. */
  lemma TwoPlaces(raw: seq<byte>, damaged: seq<byte>, i: nat, j: nat) returns (p: nat, q: nat)
    requires |raw| == |damaged| >= CRC_SIZE
    requires Gf2.OnlyAt(Gf2.Xor(Crc16.BitsOf(raw), Crc16.BitsOf(damaged)), i, j)
    ensures p < q < 8 * |raw| && Gf2.OnlyAt(Gf2.Xor(Codeword(raw), Codeword(damaged)), p, q)
  {
    hide Crc16.BitsOf, Codeword;
    var n, e, c := |raw|, Gf2.Xor(Crc16.BitsOf(raw), Crc16.BitsOf(damaged)), Gf2.Xor(Codeword(raw), Codeword(damaged));
    p, q := Place(n, i), Place(n, j);
    forall k | 0 <= k < 8 * n
      ensures c[k] <==> k == p || k == q
    {
      var back := Place(n, k);
      assert Place(n, back) == k;
      PlaceOfBit(raw, back);
      PlaceOfBit(damaged, back);
    }
    if q < p {
      p, q := q, p;
    }
  }

  /** Flipping any two bits of an accepted block is always noticed: blocks are far
      shorter than the order of x. */
  lemma TwoBitDamageRefused(region: seq<byte>, raw: seq<byte>, damaged: seq<byte>, region': seq<byte>, i: nat, j: nat)
    requires Accepts(region, raw) && Cobs.Decode(region') == Some(damaged) && |raw| == |damaged|
    requires Gf2.OnlyAt(Gf2.Xor(Crc16.BitsOf(raw), Crc16.BitsOf(damaged)), i, j)
    ensures DecodeRegion(region').Refused?
  {
    hide Judge, DecodeRegion, Codeword, Cobs.Decode, Cobs.Encode, Crc16.BitsOf, Gf2.IsMultiple, Gf2.Xor, Gf2.OnlyAt;
    AcceptedSize(region, raw);
    UndetectedExactly(region, raw, damaged, region');
    var p, q := TwoPlaces(raw, damaged, i, j);
    Period.TwoBitsExactly(Gf2.Xor(Codeword(raw), Codeword(damaged)), p, q);
    BelowOrder(q - p);
  }

  lemma AcceptedSize(region: seq<byte>, raw: seq<byte>)
    requires Accepts(region, raw)
    ensures HEADER_SIZE + CRC_SIZE <= |raw| <= RAW_CAP
  {
    hide Judge, DecodeRegion, Cobs.Decode, Cobs.Encode, ReceivedCrc, Crc16.Checksum;
    AcceptsJudged(region, raw);
    JudgeExactly(raw);
  }

  lemma BelowOrder(d: nat)
    requires 0 < d < Period.ORDER
    ensures d % Period.ORDER != 0
  {
  }

  /** One, two or three flipped bits, anywhere in an unstuffed block, are always noticed. */
  lemma FewFlippedBitsRefused(region: seq<byte>, raw: seq<byte>, damaged: seq<byte>, region': seq<byte>)
    requires Accepts(region, raw) && Cobs.Decode(region') == Some(damaged) && |raw| == |damaged|
    requires 1 <= Gf2.Ones(Gf2.Xor(Crc16.BitsOf(raw), Crc16.BitsOf(damaged))) <= 3
    ensures DecodeRegion(region').Refused?
  {
    hide DecodeRegion, Cobs.Decode, Crc16.BitsOf, Gf2.Xor, Gf2.Odd, Gf2.Ones;
    var e := Gf2.Xor(Crc16.BitsOf(raw), Crc16.BitsOf(damaged));
    Gf2.OddOnes(e);
    if Gf2.Ones(e) == 2 {
      var i, j := Gf2.TwoOnes(e);
      TwoBitDamageRefused(region, raw, damaged, region', i, j);
    } else {
      OddDamageRefused(region, raw, damaged, region');
    }
  }
}
