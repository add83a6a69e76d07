/** The order of x modulo the generator: far enough apart, or not at all, is
    where two single bits could cancel. */
module Period {
  import Gf2

  /** The order of x: 7 * 31 * 151. */
  const ORDER := 32767

  /** A polynomial of degree at most fifteen, coefficient by coefficient. */
  datatype Poly = Poly(c15: bool, c14: bool, c13: bool, c12: bool, c11: bool, c10: bool, c9: bool, c8: bool,
                       c7: bool, c6: bool, c5: bool, c4: bool, c3: bool, c2: bool, c1: bool, c0: bool)

  const ONE := Poly(false, false, false, false, false, false, false, false,
                    false, false, false, false, false, false, false, true)

  function OfReg(r: Gf2.Reg): Poly {
    Poly(r[0], r[1], r[2], r[3], r[4], r[5], r[6], r[7], r[8], r[9], r[10], r[11], r[12], r[13], r[14], r[15])
  }

  /** Multiplication by x: x^16 is x^12 + x^5 + 1. */
  function Turn(p: Poly): Poly {
    Poly(p.c14, p.c13, p.c12, p.c11 != p.c15, p.c10, p.c9, p.c8, p.c7,
         p.c6, p.c5, p.c4 != p.c15, p.c3, p.c2, p.c1, p.c0, p.c15)
  }

  /** Squaring: x^i goes to x^(2i). */
  function Square(p: Poly): Poly {
    Poly(p.c13, (p.c13 != p.c11) != (p.c9 != p.c7), p.c12, (p.c12 != p.c10) != (p.c8 != p.c6),
         (p.c15 != p.c13) != p.c11, (p.c15 != p.c13) != p.c5, (p.c14 != p.c12) != p.c10,
         (p.c15 != p.c14) != (p.c12 != p.c4), (p.c15 != p.c13) != (p.c11 != p.c9),
         (p.c15 != p.c14) != ((p.c13 != p.c11) != p.c3), (p.c14 != p.c12) != (p.c10 != p.c8),
         (p.c14 != p.c12) != (p.c10 != p.c2), p.c15, (p.c15 != p.c13) != ((p.c11 != p.c9) != p.c1),
         p.c14, (p.c14 != p.c12) != ((p.c10 != p.c8) != p.c0))
  }

  lemma SquareOfTurnTop(p: Poly)
    ensures var s, t := Square(Turn(p)), Turn(Turn(Square(p)));
            s.c15 == t.c15 && s.c14 == t.c14 && s.c13 == t.c13 && s.c12 == t.c12
  {
  }

  lemma SquareOfTurnUpper(p: Poly)
    ensures var s, t := Square(Turn(p)), Turn(Turn(Square(p)));
            s.c11 == t.c11 && s.c10 == t.c10 && s.c9 == t.c9 && s.c8 == t.c8
  {
  }

  lemma SquareOfTurnLower(p: Poly)
    ensures var s, t := Square(Turn(p)), Turn(Turn(Square(p)));
            s.c7 == t.c7 && s.c6 == t.c6 && s.c5 == t.c5 && s.c4 == t.c4
  {
  }

  lemma SquareOfTurnLow(p: Poly)
    ensures var s, t := Square(Turn(p)), Turn(Turn(Square(p)));
            s.c3 == t.c3 && s.c2 == t.c2 && s.c1 == t.c1 && s.c0 == t.c0
  {
  }

  lemma SquareOfTurn(p: Poly)
    ensures Square(Turn(p)) == Turn(Turn(Square(p)))
  {
    hide Square, Turn;
    SquareOfTurnTop(p);
    SquareOfTurnUpper(p);
    SquareOfTurnLower(p);
    SquareOfTurnLow(p);
  }

  lemma TurnInjective(p: Poly, q: Poly)
    requires Turn(p) == Turn(q)
    ensures p == q
  {
  }

  /** `p` times x^n. */
  function Times(p: Poly, n: nat): Poly
    decreases n
  {
    if n == 0 then p else Times(Turn(p), n - 1)
  }

  function Power(n: nat): Poly { Times(ONE, n) }

  lemma {:induction false} TimesSum(p: Poly, m: nat, n: nat)
    ensures Times(p, m + n) == Times(Times(p, m), n)
    decreases m
  {
    hide Turn;
    if m > 0 {
      TimesSum(Turn(p), m - 1, n);
    }
  }

  lemma {:induction false} TimesInjective(p: Poly, q: Poly, n: nat)
    requires Times(p, n) == Times(q, n)
    ensures p == q
    decreases n
  {
    hide Turn;
    if n > 0 {
      TimesInjective(Turn(p), Turn(q), n - 1);
      TurnInjective(p, q);
    }
  }

  lemma PowerNext(n: nat)
    ensures Power(n + 1) == Turn(Power(n))
  {
    hide Turn;
    TimesSum(ONE, n, 1);
    assert Times(Power(n), 1) == Times(Turn(Power(n)), 0);
  }

  lemma {:induction false} Doubled(n: nat)
    ensures Power(2 * n) == Square(Power(n)) && Power(2 * n + 1) == Turn(Square(Power(n)))
  {
    hide Turn, Square, Power;
    PowerNext(2 * n);
    if n == 0 {
      Start();
    } else {
      Doubled(n - 1);
      PowerNext(n - 1);
      PowerNext(2 * n - 1);
      PowerNext(2 * n - 2);
      SquareOfTurn(Power(n - 1));
    }
  }

  predicate Returns(n: nat) { Power(n) == ONE }

  lemma Difference(a: nat, b: nat)
    requires Returns(a)
    ensures Returns(a + b) <==> Returns(b)
  {
    TimesSum(ONE, a, b);
  }

  lemma {:induction false} Multiple(a: nat, k: nat)
    requires Returns(a)
    ensures Returns(a * k)
    decreases k
  {
    hide Times;
    if k == 0 {
      assert a * k == 0;
      Start();
    } else {
      assert a * k == a + a * (k - 1);
      Multiple(a, k - 1);
      Difference(a, a * (k - 1));
    }
  }

  lemma Start()
    ensures Power(0) == ONE && Square(ONE) == ONE && Power(1) == Turn(ONE)
  {
    assert Times(ONE, 1) == Times(Turn(ONE), 0);
  }

  lemma FullPeriod()
    ensures Returns(32767)
  {
    hide Times, Power;
    Start();
    Doubled(1);
    Doubled(2);
    Doubled(4);
    Doubled(8);
    Doubled(16);
    Doubled(32);
    Doubled(64);
    Doubled(128);
    Doubled(256);
    Doubled(512);
    Doubled(1024);
    Doubled(2048);
    Doubled(4096);
    Doubled(8192);
    Doubled(16384);
    PowerNext(32767);
    TurnInjective(Power(32767), ONE);
  }

  lemma NotAfter217()
    ensures !Returns(217)
  {
    hide Times, Power;
    Start();
    Doubled(1);
    Doubled(3);
    Doubled(6);
    Doubled(13);
    Doubled(27);
    Doubled(54);
    Doubled(108);
  }

  lemma NotAfter1057()
    ensures !Returns(1057)
  {
    hide Times, Power;
    Start();
    Doubled(1);
    Doubled(2);
    Doubled(4);
    Doubled(8);
    Doubled(16);
    Doubled(33);
    Doubled(66);
    Doubled(132);
    Doubled(264);
    Doubled(528);
  }

  lemma NotAfter4681()
    ensures !Returns(4681)
  {
    hide Times, Power;
    Start();
    Doubled(1);
    Doubled(2);
    Doubled(4);
    Doubled(9);
    Doubled(18);
    Doubled(36);
    Doubled(73);
    Doubled(146);
    Doubled(292);
    Doubled(585);
    Doubled(1170);
    Doubled(2340);
  }

  predicate Prime(p: nat) { p >= 2 && forall i :: 2 <= i < p ==> p % i != 0 }

  lemma Primes()
    ensures Prime(7) && Prime(31) && Prime(151)
  {
    forall p, i | p in {7, 31, 151} && 2 <= i < p
      ensures p % i != 0
    {
      NoFactor(p, i, p / i);
      assert p == i * (p / i) + p % i;
    }
  }

  lemma NoFactor(p: nat, i: nat, q: nat)
    requires p in {7, 31, 151} && 2 <= i < p && 1 <= q
    ensures i * q != p
  {
    if i > 12 && q > 12 {
      assert i * q >= 13 * 13;
    }
  }

  /** Euclid's algorithm on exponents: what returns after m p and m i turns, for a
      prime p above i, returns after m. */
  lemma {:induction false} Descend(m: nat, p: nat, i: nat)
    requires Prime(p) && 0 < i < p && Returns(m * p) && Returns(m * i)
    ensures Returns(m)
    decreases i
  {
    hide Returns;
    if i == 1 {
      assert m * i == m;
    } else {
      var q, r := p / i, p % i;
      Multiple(m * i, q);
      assert m * p == m * i * q + m * r by {
        assert p == i * q + r;
      }
      Difference(m * i * q, m * r);
      Descend(m, p, r);
    }
  }

  lemma PrimeDivides(m: nat, p: nat, k: nat)
    requires Prime(p) && Returns(m * p) && !Returns(m) && Returns(k)
    ensures k == p * (k / p)
  {
    hide Returns;
    var q, i := k / p, k % p;
    Multiple(m * p, q);
    Multiple(k, m);
    assert k * m == m * p * q + m * i by {
      assert k == p * q + i;
    }
    Difference(m * p * q, m * i);
    if i != 0 {
      Descend(m, p, i);
    }
  }

  /** x^k is 1 exactly at the multiples of the order. */
  lemma ReturnsExactly(k: nat)
    ensures Returns(k) <==> k % ORDER == 0
  {
    hide Returns;
    FullPeriod();
    if k % ORDER == 0 {
      Multiple(32767, k / 32767);
    }
    if Returns(k) {
      Primes();
      NotAfter217();
      NotAfter1057();
      NotAfter4681();
      PrimeDivides(4681, 7, k);
      PrimeDivides(1057, 31, k);
      PrimeDivides(217, 151, k);
      var w := Combined(k / 7, k / 31, k / 151);
      DividesExactly(k, w);
    }
  }

  lemma Combined(a: nat, b: nat, c: nat) returns (w: int)
    requires 7 * a == 31 * b == 151 * c
    ensures 7 * a == 32767 * w
  {
    var u := 9 * b - 2 * a;
    assert 7 * a == 217 * u;
    w := 135 * c - 194 * u;
  }

  lemma DividesExactly(k: nat, w: int)
    requires k == 32767 * w
    ensures k % ORDER == 0
  {
  }

  // ------------------------------------------------------------ two lone bits

  const TOP: Gf2.Reg := [true] + Gf2.Zeros(15)

  /** x^15, the place at which message bits enter. */
  const X15 := Poly(true, false, false, false, false, false, false, false,
                    false, false, false, false, false, false, false, false)

  lemma TopIsX15()
    ensures OfReg(TOP) == X15 && Power(15) == X15
  {
    hide Times, Power;
    Start();
    Doubled(1);
    Doubled(3);
    Doubled(7);
  }

  lemma ShiftTaps(r: Gf2.Reg, i: nat)
    requires i < 16
    ensures Gf2.Shift(r)[i] == if i == 15 then r[0] else if i == 3 || i == 10 then r[i + 1] != r[0] else r[i + 1]
  {
    hide Gf2.Shift;
    Gf2.ShiftAt(r, i);
  }

  lemma ShiftIsTurn(r: Gf2.Reg)
    ensures OfReg(Gf2.Shift(r)) == Turn(OfReg(r))
  {
    hide Gf2.Shift;
    forall i | 0 <= i < 16
      ensures Gf2.Shift(r)[i] == if i == 15 then r[0] else if i == 3 || i == 10 then r[i + 1] != r[0] else r[i + 1]
    {
      ShiftTaps(r, i);
    }
  }

  lemma {:induction false} ShiftTimesIsTimes(r: Gf2.Reg, n: nat)
    ensures OfReg(Gf2.ShiftTimes(r, n)) == Times(OfReg(r), n)
    decreases n
  {
    hide OfReg, Turn, Gf2.Shift;
    if n > 0 {
      ShiftIsTurn(r);
      ShiftTimesIsTimes(Gf2.Shift(r), n - 1);
    }
  }

  lemma OfRegInjective(r: Gf2.Reg, s: Gf2.Reg)
    requires OfReg(r) == OfReg(s)
    ensures r == s
  {
  }

  lemma TopReturnsExactly(k: nat)
    ensures Gf2.ShiftTimes(TOP, k) == TOP <==> k % ORDER == 0
  {
    hide OfReg, Times, Gf2.ShiftTimes;
    TopIsX15();
    ShiftTimesIsTimes(TOP, k);
    ReturnsExactly(k);
    TimesSum(ONE, 15, k);
    TimesSum(ONE, k, 15);
    if Times(X15, k) == X15 {
      OfRegInjective(Gf2.ShiftTimes(TOP, k), TOP);
      TimesInjective(Power(k), ONE, 15);
    }
  }

  lemma Silent(n: nat)
    ensures Gf2.Feed(Gf2.Zeros(16), Gf2.Zeros(n)) == Gf2.Zeros(16)
  {
    Gf2.FeedZeros(Gf2.Zeros(16), n);
    Gf2.ZeroStays(n);
  }

  /** A lone bit, followed by `n` zeros. */
  lemma LoneBit(n: nat)
    ensures Gf2.Feed(Gf2.Zeros(16), [true] + Gf2.Zeros(n)) == Gf2.ShiftTimes(TOP, n + 1)
  {
    hide Gf2.Step, Gf2.Shift;
    var e := [true] + Gf2.Zeros(n);
    assert e[1..] == Gf2.Zeros(n);
    LoneStep(Gf2.Zeros(16));
    assert Gf2.Xor(Gf2.Zeros(16), TOP) == TOP;
    Gf2.FeedZeros(Gf2.Shift(TOP), n);
  }

  lemma LoneStep(r: Gf2.Reg)
    ensures Gf2.Step(r, true) == Gf2.Shift(Gf2.Xor(r, TOP))
  {
  }

  lemma TwoBitsCut(e: Gf2.bits, i: nat, j: nat) returns (a: Gf2.bits, b: Gf2.bits, c: Gf2.bits)
    requires Gf2.OnlyAt(e, i, j)
    ensures a == Gf2.Zeros(i) && b == [true] + Gf2.Zeros(j - i - 1) && c == [true] + Gf2.Zeros(|e| - j - 1)
    ensures e == a + (b + c)
  {
    a, b, c := Gf2.Zeros(i), [true] + Gf2.Zeros(j - i - 1), [true] + Gf2.Zeros(|e| - j - 1);
  }

  /** Two lone bits make a multiple of the generator exactly when their distance
      is a multiple of the order. */
  lemma TwoBitsExactly(e: Gf2.bits, i: nat, j: nat)
    requires |e| >= 16 && Gf2.OnlyAt(e, i, j)
    ensures Gf2.IsMultiple(e) <==> (j - i) % ORDER == 0
  {
    hide *;
    var a, b, c := TwoBitsCut(e, i, j);
    var none := Gf2.Zeros(16);
    Gf2.MultipleExactly(e);
    Gf2.FeedConcat(none, a, b + c);
    Silent(i);
    Gf2.FeedConcat(none, b, c);
    LoneBit(j - i - 1);
    var r := Gf2.ShiftTimes(TOP, j - i);
    SecondBit(r, |e| - j - 1);
    TopReturnsExactly(j - i);
  }

  lemma SecondBit(r: Gf2.Reg, n: nat)
    ensures Gf2.Feed(r, [true] + Gf2.Zeros(n)) == Gf2.Zeros(16) <==> r == TOP
  {
    hide Gf2.Step, Gf2.Shift;
    var e := [true] + Gf2.Zeros(n);
    assert e[1..] == Gf2.Zeros(n);
    LoneStep(r);
    var s := Gf2.Xor(r, TOP);
    Gf2.FeedZeros(Gf2.Shift(s), n);
    assert Gf2.ShiftTimes(s, n + 1) == Gf2.ShiftTimes(Gf2.Shift(s), n);
    Gf2.ClearExactly(s, n + 1);
    Gf2.XorClearExactly(r, TOP);
  }

  // ------------------------------------------------------ any bits, power by power

  const NONE := Poly(false, false, false, false, false, false, false, false,
                     false, false, false, false, false, false, false, false)

  function Add(p: Poly, q: Poly): Poly {
    Poly(p.c15 != q.c15, p.c14 != q.c14, p.c13 != q.c13, p.c12 != q.c12,
         p.c11 != q.c11, p.c10 != q.c10, p.c9 != q.c9, p.c8 != q.c8,
         p.c7 != q.c7, p.c6 != q.c6, p.c5 != q.c5, p.c4 != q.c4,
         p.c3 != q.c3, p.c2 != q.c2, p.c1 != q.c1, p.c0 != q.c0)
  }

  /** The bits `s`, as a polynomial, modulo the generator: a power of x for each one. */
  function Residue(s: Gf2.bits): Poly
    decreases |s|
  {
    if s == [] then NONE
    else if s[0] then Add(Power(|s| - 1), Residue(s[1..])) else Residue(s[1..])
  }

  lemma AddNone(p: Poly)
    ensures Add(NONE, p) == p == Add(p, NONE)
  {
  }

  lemma TurnOfAddHigh(p: Poly, q: Poly)
    ensures var s, t := Turn(Add(p, q)), Add(Turn(p), Turn(q));
            && s.c15 == t.c15 && s.c14 == t.c14 && s.c13 == t.c13 && s.c12 == t.c12
            && s.c11 == t.c11 && s.c10 == t.c10 && s.c9 == t.c9 && s.c8 == t.c8
  {
  }

  lemma TurnOfAddLow(p: Poly, q: Poly)
    ensures var s, t := Turn(Add(p, q)), Add(Turn(p), Turn(q));
            && s.c7 == t.c7 && s.c6 == t.c6 && s.c5 == t.c5 && s.c4 == t.c4
            && s.c3 == t.c3 && s.c2 == t.c2 && s.c1 == t.c1 && s.c0 == t.c0
  {
  }

  lemma {:induction false} TimesOfAdd(p: Poly, q: Poly, n: nat)
    ensures Times(Add(p, q), n) == Add(Times(p, n), Times(q, n))
    decreases n
  {
    hide Turn, Add;
    if n > 0 {
      TurnOfAddHigh(p, q);
      TurnOfAddLow(p, q);
      TimesOfAdd(Turn(p), Turn(q), n - 1);
    }
  }

  lemma {:induction false} TimesOfNone(n: nat)
    ensures Times(NONE, n) == NONE
    decreases n
  {
    if n > 0 {
      assert Turn(NONE) == NONE;
      TimesOfNone(n - 1);
    }
  }

  lemma OfRegXor(r: Gf2.Reg, s: Gf2.Reg)
    ensures OfReg(Gf2.Xor(r, s)) == Add(OfReg(r), OfReg(s))
  {
  }

  lemma OfRegNone()
    ensures OfReg(Gf2.Zeros(16)) == NONE
  {
  }

  lemma FeedSplits(b: bool, s: Gf2.bits)
    ensures var none := Gf2.Zeros(16);
            Gf2.Feed(none, [b] + s) == Gf2.Xor(if b then Gf2.ShiftTimes(TOP, |s| + 1) else none, Gf2.Feed(none, s))
  {
    hide Gf2.Feed, Gf2.ShiftTimes, Gf2.Zeros, Gf2.Xor, TOP;
    var none, quiet := Gf2.Zeros(16), Gf2.Zeros(|s|);
    Gf2.FeedLinear(none, none, [b] + quiet, [false] + s);
    BitAndRest(b, s);
    Gf2.XorSelf(none);
    Gf2.FeedConcat(none, [false], s);
    OneZero();
    Silent(1);
    if b {
      LoneBit(|s|);
    } else {
      Silent(|s| + 1);
    }
  }

  lemma BitAndRest(b: bool, s: Gf2.bits)
    ensures Gf2.Xor([b] + Gf2.Zeros(|s|), [false] + s) == [b] + s
    ensures !b ==> [b] + Gf2.Zeros(|s|) == Gf2.Zeros(|s| + 1)
  {
  }

  lemma OneZero()
    ensures Gf2.Zeros(1) == [false]
  {
  }

  /** What the register makes of the bits is their residue, sixteen turns on. */
  lemma {:induction false} FeedIsResidue(s: Gf2.bits)
    ensures OfReg(Gf2.Feed(Gf2.Zeros(16), s)) == Times(Residue(s), 16)
    decreases |s|
  {
    hide OfReg, Times, Power, Add, Gf2.Zeros, Gf2.Xor, Gf2.Feed;
    var none := Gf2.Zeros(16);
    OfRegNone();
    if s == [] {
      Gf2.FeedNothing(none);
      TimesOfNone(16);
    } else {
      var rest := s[1..];
      FeedIsResidue(rest);
      FeedSplits(s[0], rest);
      assert s == [s[0]] + rest;
      var f := Gf2.Feed(none, rest);
      OfRegXor(if s[0] then Gf2.ShiftTimes(TOP, |s|) else none, f);
      AddNone(OfReg(f));
      if s[0] {
        TopTurned(|s|);
        TimesOfAdd(Power(|s| - 1), Residue(rest), 16);
      }
    }
  }

  lemma TopTurned(n: nat)
    requires n > 0
    ensures OfReg(Gf2.ShiftTimes(TOP, n)) == Times(Power(n - 1), 16)
  {
    hide OfReg, Times, Gf2.ShiftTimes;
    TopIsX15();
    ShiftTimesIsTimes(TOP, n);
    TimesSum(ONE, 15, n);
    TimesSum(ONE, n - 1, 16);
  }

  lemma MultipleIsNoResidue(s: Gf2.bits)
    requires |s| >= 16
    ensures Gf2.IsMultiple(s) <==> Residue(s) == NONE
  {
    hide OfReg, Times, Residue, Gf2.IsMultiple, Gf2.Feed, Gf2.Zeros;
    var none := Gf2.Zeros(16);
    Gf2.MultipleExactly(s);
    FeedIsResidue(s);
    OfRegNone();
    TimesOfNone(16);
    if Residue(s) == NONE {
      OfRegInjective(Gf2.Feed(none, s), none);
    }
    if Gf2.Feed(none, s) == none {
      TimesInjective(Residue(s), NONE, 16);
    }
  }

  lemma {:induction false} ResidueOfZeros(n: nat, s: Gf2.bits)
    ensures Residue(Gf2.Zeros(n) + s) == Residue(s)
    decreases n
  {
    hide Add, Power;
    var whole := Gf2.Zeros(n) + s;
    if n == 0 {
      assert whole == s;
    } else {
      assert whole[1..] == Gf2.Zeros(n - 1) + s;
      ResidueOfZeros(n - 1, s);
    }
  }

  lemma ResidueOfOne(s: Gf2.bits)
    ensures Residue([true] + s) == Add(Power(|s|), Residue(s))
  {
    assert ([true] + s)[1..] == s;
  }
}
