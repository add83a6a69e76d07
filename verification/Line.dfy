/** Damage on the line. Between a block and the line stands the byte stuffing, and
    code bytes carry no checksum: what follows says which results about damaged
    blocks carry over to damaged regions, and what a damaged code byte does. */
module Line {
  import opened Bytes
  import opened Framing
  import opened Corruption
  import opened Receiver
  import Cobs
  import Crc16
  import Gf2
  import Period

  // -------------------------------------------------------------------- the walk

  /** Whether byte `i` of a region is a code byte: the walk from code byte to code
      byte stops at it. */
  predicate IsCode(s: seq<byte>, i: nat)
    decreases |s|
  {
    i < |s| && (i == 0 || (0 < s[0] <= i && IsCode(s[s[0]..], i - s[0])))
  }

  /** Whether the walk comes out exactly at the end. */
  predicate Closes(s: seq<byte>)
    decreases |s|
  {
    s == [] || (0 < s[0] <= |s| && Closes(s[s[0]..]))
  }

  /** What a region of at most 255 bytes stands for: byte for byte the region behind
      its first code byte, with every later code byte a zero. */
  function Unstuffed(s: seq<byte>): (d: seq<byte>)
    requires s != []
    ensures |d| == |s| - 1
  {
    seq(|s| - 1, i requires 0 <= i < |s| - 1 => if IsCode(s, i + 1) then 0 else s[i + 1])
  }

  lemma {:induction false} ClosesExactly(s: seq<byte>)
    ensures Closes(s) <==> Cobs.Decode(s).Some?
    decreases |s|
  {
    if s != [] && 0 < s[0] <= |s| {
      ClosesExactly(s[s[0]..]);
    }
  }

  lemma {:induction false} DecodeIsUnstuffed(s: seq<byte>)
    requires 0 < |s| < MAX_PACKET && Closes(s)
    ensures Cobs.Decode(s) == Some(Unstuffed(s))
    decreases |s|
  {
    var c, rest := s[0], s[s[0]..];
    ClosesExactly(s);
    if rest == [] {
      Cobs.DecodeNothing();
      assert s[1..c] + [] + [] == Unstuffed(s);
    } else {
      DecodeIsUnstuffed(rest);
      var d := s[1..c] + [0] + Unstuffed(rest);
      assert Cobs.Decode(s) == Some(d);
      forall i | 0 <= i < |s| - 1
        ensures d[i] == Unstuffed(s)[i]
      {
        if i + 1 >= c {
          assert IsCode(s, i + 1) == IsCode(rest, i + 1 - c);
        }
      }
      assert d == Unstuffed(s);
    }
  }

  /** The walk up to `n` only depends on the bytes before `n`. */
  lemma {:induction false} WalkSoFar(s: seq<byte>, t: seq<byte>, n: nat)
    requires n <= |s| && n <= |t| && s[..n] == t[..n]
    ensures forall i :: 0 <= i <= n && i < |s| && i < |t| ==> (IsCode(s, i) <==> IsCode(t, i))
    decreases |s|
  {
    if n > 0 {
      assert s[0] == s[..n][0] == t[..n][0] == t[0];
      if 0 < s[0] <= n {
        var c := s[0];
        assert s[c..][..n - c] == s[..n][c..] == t[..n][c..] == t[c..][..n - c];
        WalkSoFar(s[c..], t[c..], n - c);
      }
    }
  }

  /** `t` has the code bytes of `s` where `s` has them. */
  ghost predicate SameCodes(s: seq<byte>, t: seq<byte>) {
    |s| == |t| && forall i :: 0 <= i < |s| && IsCode(s, i) ==> t[i] == s[i]
  }

  lemma {:induction false} SameWalk(s: seq<byte>, t: seq<byte>)
    requires SameCodes(s, t)
    ensures Closes(s) <==> Closes(t)
    ensures forall i :: 0 <= i < |s| ==> (IsCode(s, i) <==> IsCode(t, i))
    decreases |s|
  {
    if s != [] {
      assert IsCode(s, 0);
      var c := s[0];
      if 0 < c <= |s| {
        forall i | 0 <= i < |s| - c && IsCode(s[c..], i)
          ensures t[c..][i] == s[c..][i]
        {
          assert IsCode(s, i + c);
        }
        SameWalk(s[c..], t[c..]);
      }
    }
  }

  // ------------------------------------------------------------------ differences

  /** The bits in which two byte strings differ, byte by byte. */
  function Differ(a: seq<byte>, b: seq<byte>): (e: seq<byte>)
    requires |a| == |b|
    ensures |e| == |a|
  {
    seq(|a|, i requires 0 <= i < |a| => Crc16.XorByte(a[i], b[i]))
  }

  lemma {:induction false} DifferBits(a: seq<byte>, b: seq<byte>)
    requires |a| == |b|
    ensures Crc16.BitsOf(Differ(a, b)) == Gf2.Xor(Crc16.BitsOf(a), Crc16.BitsOf(b))
    decreases |a|
  {
    hide Crc16.Bits, Crc16.XorByte;
    if a != [] {
      DifferBits(a[1..], b[1..]);
      assert Differ(a, b)[1..] == Differ(a[1..], b[1..]);
      Gf2.XorConcat(Crc16.Bits(a[0]), Crc16.BitsOf(a[1..]), Crc16.Bits(b[0]), Crc16.BitsOf(b[1..]));
    }
  }

  lemma DifferCodeword(a: seq<byte>, b: seq<byte>)
    requires |a| == |b| >= CRC_SIZE
    ensures Codeword(Differ(a, b)) == Gf2.Xor(Codeword(a), Codeword(b))
  {
    hide Codeword, Crc16.BitsOf, Gf2.Xor;
    var n, e := |a|, Differ(a, b);
    DifferBits(a, b);
    forall k | 0 <= k < 8 * n
      ensures Codeword(e)[k] == Gf2.Xor(Codeword(a), Codeword(b))[k]
    {
      var i := Place(n, k);
      assert Place(n, i) == k;
      PlaceOfBit(e, i);
      PlaceOfBit(a, i);
      PlaceOfBit(b, i);
      assert Gf2.Xor(Crc16.BitsOf(a), Crc16.BitsOf(b))[i] == (Crc16.BitsOf(a)[i] != Crc16.BitsOf(b)[i]);
    }
  }

  lemma XorSame(b: byte)
    ensures Crc16.XorByte(b, b) == 0
  {
    hide Crc16.Bits, Crc16.XorByte;
    Gf2.XorSelf(Crc16.Bits(b));
    Crc16.ZeroByte();
    Crc16.BitsInjective(Crc16.XorByte(b, b), 0);
  }

  lemma XorZero(b: byte)
    ensures Crc16.XorByte(b, 0) == b == Crc16.XorByte(0, b)
  {
    hide Crc16.Bits, Crc16.XorByte;
    Crc16.ZeroByte();
    var x, none := Crc16.Bits(b), Gf2.Zeros(8);
    assert Gf2.Xor(x, none) == x == Gf2.Xor(none, x);
    Crc16.BitsInjective(Crc16.XorByte(b, 0), b);
    Crc16.BitsInjective(Crc16.XorByte(0, b), b);
  }

  lemma XorIsZero(a: byte, b: byte)
    ensures Crc16.XorByte(a, b) == 0 <==> a == b
  {
    hide Crc16.Bits, Crc16.XorByte;
    XorSame(b);
    if Crc16.XorByte(a, b) == 0 {
      Crc16.ZeroByte();
      var x, y := Crc16.Bits(a), Crc16.Bits(b);
      forall i | 0 <= i < 8
        ensures x[i] == y[i]
      {
        assert !Gf2.Xor(x, y)[i];
      }
      Crc16.BitsInjective(a, b);
    }
  }

  // ------------------------------------------------------ any damage to a region

  lemma AcceptedCloses(s: seq<byte>)
    requires DecodeRegion(s).Accepted?
    ensures Closes(s) && |s| >= 5
    ensures |s| < MAX_PACKET ==> Accepts(s, Unstuffed(s))
  {
    hide Judge, DecodeRegion, Cobs.Decode;
    AcceptedDecodes(s);
    ClosesExactly(s);
    var raw := Cobs.Decode(s).value;
    AcceptedSize(s, raw);
    Cobs.DecodeNothing();
    DecodedSize(s);
    if |s| < MAX_PACKET {
      DecodeIsUnstuffed(s);
    }
  }

  lemma AcceptedDecodes(s: seq<byte>)
    requires DecodeRegion(s).Accepted?
    ensures Cobs.Decode(s).Some? && Accepts(s, Cobs.Decode(s).value)
  {
    hide Judge, Cobs.Decode, Cobs.DecodeWithin;
    Cobs.DecodeWithinMeaning(s, RAW_CAP);
    var o := Cobs.DecodeWithin(s, RAW_CAP);
    assert o == Cobs.Decoded(o.data);
  }

  lemma DecodedSize(s: seq<byte>)
    requires Cobs.Decode(s).Some? && s != []
    ensures |Cobs.Decode(s).value| <= |s| - 1
  {
    hide *;
  }

  lemma FrameOf(s: seq<byte>)
    requires DecodeRegion(s).Accepted? && |s| < MAX_PACKET
    ensures |s| >= 5 && DecodeRegion(s) == Judge(Unstuffed(s))
    ensures Sendable(DecodeRegion(s).frame) && RawBlock(DecodeRegion(s).frame) == Unstuffed(s)
  {
    hide Judge, RawBlock, Cobs.Decode, Cobs.DecodeWithin, Unstuffed, Closes;
    AcceptedCloses(s);
    Cobs.DecodeWithinMeaning(s, RAW_CAP);
    var o := Cobs.DecodeWithin(s, RAW_CAP);
    assert o == Cobs.Decoded(o.data);
    AcceptedRaw(Unstuffed(s));
  }

  /** Exactly which damage to a region that keeps its length goes unnoticed: the
      walk must still close, LENGTH must read the same, and the blocks the two
      regions stand for must differ by a multiple of the generator. */
  lemma LineUndetectedExactly(s: seq<byte>, t: seq<byte>)
    requires DecodeRegion(s).Accepted? && |s| == |t| < MAX_PACKET
    ensures |s| >= 5
    ensures var e := Differ(Unstuffed(s), Unstuffed(t));
            DecodeRegion(t).Accepted? <==> Closes(t) && e[1] == 0 && Gf2.IsMultiple(Codeword(e))
  {
    hide DecodeRegion, Codeword, Crc16.XorByte, Cobs.Decode, Gf2.Xor, Gf2.IsMultiple, Closes, IsCode;
    AcceptedCloses(s);
    if Closes(t) {
      var raw, damaged := Unstuffed(s), Unstuffed(t);
      DecodeIsUnstuffed(t);
      UndetectedExactly(s, raw, damaged, t);
      DifferCodeword(raw, damaged);
      XorIsZero(raw[1], damaged[1]);
    } else if DecodeRegion(t).Accepted? {
      AcceptedCloses(t);
    }
  }

  // --------------------------------------------------- damage beside the code bytes

  /** Damage that leaves the code bytes alone is the same damage to the block. */
  lemma DataDamage(s: seq<byte>, t: seq<byte>)
    requires SameCodes(s, t) && 0 < |s| < MAX_PACKET && Closes(s)
    ensures Closes(t) && Differ(s, t) == [0] + Differ(Unstuffed(s), Unstuffed(t))
  {
    hide Closes, IsCode, Crc16.XorByte;
    SameWalk(s, t);
    FirstIsCode(s);
    XorSame(s[0]);
    XorSame(0);
    var e, d := Differ(s, t), Differ(Unstuffed(s), Unstuffed(t));
    forall i | 0 <= i < |s|
      ensures e[i] == ([0] + d)[i]
    {
      if i > 0 && IsCode(s, i) {
        XorSame(s[i]);
      }
    }
  }

  lemma FirstIsCode(s: seq<byte>)
    requires s != []
    ensures IsCode(s, 0)
  {
  }

  lemma DataDamageBits(s: seq<byte>, t: seq<byte>)
    requires SameCodes(s, t) && 0 < |s| < MAX_PACKET && Closes(s)
    ensures Gf2.Xor(Crc16.BitsOf(s), Crc16.BitsOf(t)) ==
            Gf2.Zeros(8) + Gf2.Xor(Crc16.BitsOf(Unstuffed(s)), Crc16.BitsOf(Unstuffed(t)))
  {
    hide Crc16.Bits, Crc16.XorByte, IsCode, Closes, Gf2.Xor, Gf2.Zeros, Differ;
    DataDamage(s, t);
    var d := Differ(Unstuffed(s), Unstuffed(t));
    DifferBits(s, t);
    DifferBits(Unstuffed(s), Unstuffed(t));
    TailOf<byte>(0, d);
    Crc16.ZeroByte();
  }

  /** One, two, three or any odd number of bits flipped on the line, none of them in
      a code byte: always noticed, as long as the reader still sees one region. */
  lemma FewLineBitsRefused(s: seq<byte>, t: seq<byte>)
    requires DecodeRegion(s).Accepted? && |s| < MAX_PACKET && SameCodes(s, t)
    requires var n := Gf2.Ones(Gf2.Xor(Crc16.BitsOf(s), Crc16.BitsOf(t))); 1 <= n && (n <= 3 || n % 2 == 1)
    ensures DecodeRegion(t).Refused?
  {
    hide DecodeRegion, Crc16.BitsOf, Cobs.Decode, Gf2.Xor, Gf2.Zeros, Gf2.Ones, Gf2.Odd, IsCode, Closes, Unstuffed;
    AcceptedCloses(s);
    DataDamage(s, t);
    DataDamageBits(s, t);
    DecodeIsUnstuffed(t);
    var raw, damaged := Unstuffed(s), Unstuffed(t);
    var e := Gf2.Xor(Crc16.BitsOf(raw), Crc16.BitsOf(damaged));
    Gf2.OnesConcat(Gf2.Zeros(8), e);
    Gf2.OnesZeros(8);
    if Gf2.Ones(e) <= 3 {
      FewFlippedBitsRefused(s, raw, damaged, t);
    } else {
      Gf2.OddOnes(e);
      OddDamageRefused(s, raw, damaged, t);
    }
  }

  // ------------------------------------------------------------ a damaged code byte

  /** With only the code byte at `c` changed, the walk takes another way from there:
      data bytes it now stops at turn into zeros, and code bytes it now passes over
      turn into data. */
  function Traded(s: seq<byte>, t: seq<byte>): (e: seq<byte>)
    requires |s| == |t| > 0
    ensures |e| == |s| - 1
  {
    seq(|s| - 1, i requires 0 <= i < |s| - 1 => if IsCode(s, i + 1) != IsCode(t, i + 1) then s[i + 1] else 0)
  }

  ghost predicate OnlyCodeChanged(s: seq<byte>, t: seq<byte>, c: nat) {
    |s| == |t| && IsCode(s, c) && forall i :: 0 <= i < |s| && i != c ==> t[i] == s[i]
  }

  lemma TradedIsDifference(s: seq<byte>, t: seq<byte>, c: nat)
    requires OnlyCodeChanged(s, t, c)
    ensures Differ(Unstuffed(s), Unstuffed(t)) == Traded(s, t)
  {
    hide IsCode, Crc16.XorByte;
    CodeInside(s, c);
    assert s[..c] == t[..c];
    WalkSoFar(s, t, c);
    XorSame(0);
    var e := Differ(Unstuffed(s), Unstuffed(t));
    forall i | 0 <= i < |s| - 1
      ensures e[i] == Traded(s, t)[i]
    {
      XorSame(s[i + 1]);
      XorZero(s[i + 1]);
    }
  }

  lemma CodeInside(s: seq<byte>, c: nat)
    requires IsCode(s, c)
    ensures c < |s|
  {
  }

  /** Exactly when a changed code byte goes unnoticed: the new walk closes, LENGTH is
      not among the bytes that trade places, and those that do are a multiple of
      the generator. */
  lemma CodeByteUndetectedExactly(s: seq<byte>, t: seq<byte>, c: nat)
    requires DecodeRegion(s).Accepted? && |s| < MAX_PACKET && OnlyCodeChanged(s, t, c)
    ensures |s| >= 5
    ensures DecodeRegion(t).Accepted? <==>
            Closes(t) && Traded(s, t)[1] == 0 && Gf2.IsMultiple(Codeword(Traded(s, t)))
  {
    hide DecodeRegion, Codeword, Gf2.IsMultiple, Closes, IsCode, Unstuffed, Traded, Differ;
    LineUndetectedExactly(s, t);
    TradedIsDifference(s, t, c);
  }

  // ------------------------------------------------------------------- made zeros

  /** No region cut short is accepted. */
  lemma PrefixRefused(s: seq<byte>, n: nat)
    requires DecodeRegion(s).Accepted? && n < |s| < MAX_PACKET
    ensures DecodeRegion(s[..n]).Refused?
  {
    hide DecodeRegion, Judge, IsCode, Closes, Cobs.Decode, ReceivedCrc, Crc16.Checksum;
    var front := s[..n];
    AcceptedCloses(s);
    var raw := Unstuffed(s);
    AcceptsJudged(s, raw);
    JudgeExactly(raw);
    if DecodeRegion(front).Accepted? {
      AcceptedCloses(front);
      CutBlock(s, n);
      AcceptsJudged(front, Unstuffed(front));
      JudgeExactly(Unstuffed(front));
    }
  }

  lemma CutBlock(s: seq<byte>, n: nat)
    requires 3 <= n <= |s|
    ensures Unstuffed(s[..n])[1] == Unstuffed(s)[1]
  {
    hide IsCode;
    assert s[..n][..n] == s[..n];
    WalkSoFar(s, s[..n], n);
  }

  /** A byte of a region turned into 0x00 splits it at the reader: what stands before
      it is refused, what stands behind it is a region of its own. */
  lemma MadeZero(r: State, s: seq<byte>, i: nat)
    requires r.piece == [] && DecodeRegion(s).Accepted? && ZeroFree(s) && i < |s| < MAX_PACKET
    ensures var front, back := s[..i], s[i + 1..];
            && Reports(r, front + [DELIMITER] + back + [DELIMITER]) == Verdicts([front, back])
            && (front != [] ==> VerdictOn(front).Refused?)
  {
    hide DecodeRegion, VerdictOn, Split, Reports, Verdicts;
    var front, back := s[..i], s[i + 1..];
    var t := front + [DELIMITER] + back + [DELIMITER];
    ReaderIsSplitter(r, t);
    NothingBefore(t);
    SplitPiece(back, []);
    NothingBehind(back + [DELIMITER]);
    Regroup(front + [DELIMITER], back, [DELIMITER]);
    SplitPiece(front, back + [DELIMITER]);
    SplitNothing();
    assert [front] + ([back] + []) == [front, back];
    if front != [] {
      PrefixRefused(s, i);
      ShortVerdict(front);
    }
  }

  lemma SplitNothing()
    ensures Split([]) == Pieces([], [])
  {
  }

  lemma ShortVerdict(piece: seq<byte>)
    requires |piece| < MAX_PACKET
    ensures VerdictOn(piece) == DecodeRegion(piece)
  {
  }

  // -------------------------------------------------------- the seam, on the line

  lemma SeamUnstuffed(s: seq<byte>)
    requires |s| >= 5 && forall i :: 0 <= i < |s| && |s| <= i + 3 ==> !IsCode(s, i)
    ensures SameCodes(s, SeamDamage(s))
    ensures Closes(s) ==> Closes(SeamDamage(s)) && Unstuffed(SeamDamage(s)) == SeamDamage(Unstuffed(s))
  {
    hide IsCode, Closes, SeamDamage, Crc16.XorByte;
    var t := SeamDamage(s);
    forall i | 0 <= i < |s| && IsCode(s, i)
      ensures t[i] == s[i]
    {
      SeamAt(s, i);
    }
    SameWalk(s, t);
    var u, v := SeamDamage(Unstuffed(s)), Unstuffed(t);
    forall i | 0 <= i < |s| - 1
      ensures v[i] == u[i]
    {
      SeamAt(s, i + 1);
      SeamAt(Unstuffed(s), i);
    }
    assert v == u;
  }

  lemma SeamAt(raw: seq<byte>, i: nat)
    requires 4 <= |raw| && i < |raw|
    ensures SeamDamage(raw)[i] ==
            if i + 3 < |raw| then raw[i]
            else Crc16.XorByte(raw[i], if i + 3 == |raw| then 0x01 else if i + 2 == |raw| then 0x21 else 0x10)
  {
    hide Crc16.XorByte;
  }

  /** The burst across payload and checksum, on the line: where a region ends in
      three bytes that are no code bytes, thirteen consecutive bits of it, four of
      them flipped, pass whenever there is a payload; and the reader still sees one
      region unless one of the three bytes becomes zero. */
  lemma SeamBurstOnLine(s: seq<byte>)
    requires DecodeRegion(s).Accepted? && |s| < MAX_PACKET
    requires forall i :: 0 <= i < |s| && |s| <= i + 3 ==> !IsCode(s, i)
    ensures |s| >= 5
    ensures DecodeRegion(SeamDamage(s)).Accepted? <==> |s| > 5
    ensures Gf2.Ones(Gf2.Xor(Crc16.BitsOf(s), Crc16.BitsOf(SeamDamage(s)))) == 4
    ensures var n := 8 * |s|;
            forall i :: 0 <= i < n && !(n - 17 <= i < n - 4) ==>
                          Crc16.BitsOf(s)[i] == Crc16.BitsOf(SeamDamage(s))[i]
    ensures ZeroFree(s) ==>
              (ZeroFree(SeamDamage(s)) <==> s[|s| - 3] != 0x01 && s[|s| - 2] != 0x21 && s[|s| - 1] != 0x10)
  {
    hide DecodeRegion, IsCode, Closes, Unstuffed, SeamDamage, ZeroFree, Crc16.BitsOf, Gf2.Xor, Gf2.Ones, Cobs.Decode;
    AcceptedCloses(s);
    SeamUnstuffed(s);
    DecodeIsUnstuffed(SeamDamage(s));
    SeamBurstAccepted(s, Unstuffed(s), SeamDamage(s));
    SeamOrder(s);
    SeamFlipsFour(s);
    if ZeroFree(s) {
      SeamZeros(s);
    }
  }

  lemma SeamZeros(s: seq<byte>)
    requires |s| >= 4 && ZeroFree(s)
    ensures ZeroFree(SeamDamage(s)) <==> s[|s| - 3] != 0x01 && s[|s| - 2] != 0x21 && s[|s| - 1] != 0x10
  {
    hide Crc16.XorByte;
    var n, t := |s| - 3, SeamDamage(s);
    XorIsZero(s[n], 0x01);
    XorIsZero(s[n + 1], 0x21);
    XorIsZero(s[n + 2], 0x10);
    assert t[n] == Crc16.XorByte(s[n], 0x01) && t[n + 1] == Crc16.XorByte(s[n + 1], 0x21);
    assert t[n + 2] == Crc16.XorByte(s[n + 2], 0x10);
    assert forall i :: 0 <= i < n ==> t[i] == s[i];
  }
}
