/** Bit strings as polynomials over the two-element field, most significant
    coefficient first, and the sixteen-bit division register that consumes them. */
module Gf2 {

  type bits = seq<bool>

  function Zeros(n: nat): (z: bits)
    ensures |z| == n && forall i :: 0 <= i < n ==> !z[i]
  {
    seq(n, i => false)
  }

  /** Sum of two equally long bit strings, which is also their difference. */
  function Xor(a: bits, b: bits): (d: bits)
    requires |a| == |b|
    ensures |d| == |a| && forall i :: 0 <= i < |d| ==> d[i] == (a[i] != b[i])
  {
    seq(|a|, i requires 0 <= i < |a| => a[i] != b[i])
  }

  /** `g` if wanted, else nothing of the same length. */
  function Scale(c: bool, g: bits): (s: bits)
    ensures |s| == |g| && forall i :: 0 <= i < |s| ==> s[i] == (c && g[i])
  {
    if c then g else Zeros(|g|)
  }

  /** x^16 + x^12 + x^5 + 1. */
  const GENERATOR: bits :=
    [true] + Zeros(3) + [true] + Zeros(6) + [true] + Zeros(4) + [true]

  type Reg = r: bits | |r| == 16 witness Zeros(16)

  // ------------------------------------------------------------- the register

  function Shift(r: Reg): Reg {
    Xor(r[1..] + [false], Scale(r[0], GENERATOR[1..]))
  }

  /** One message bit enters at the top, then the register moves. */
  function Step(r: Reg, bit: bool): Reg {
    Shift(Xor(r, [bit] + Zeros(15)))
  }

  function Feed(r: Reg, msg: bits): Reg
    decreases |msg|
  {
    if msg == [] then r else Feed(Step(r, msg[0]), msg[1..])
  }

  function ShiftTimes(r: Reg, n: nat): Reg
    decreases n
  {
    if n == 0 then r else ShiftTimes(Shift(r), n - 1)
  }

  lemma FeedNothing(r: Reg)
    ensures Feed(r, []) == r
  {
  }

  lemma {:induction false} FeedConcat(r: Reg, a: bits, b: bits)
    ensures Feed(r, a + b) == Feed(Feed(r, a), b)
    decreases |a|
  {
    hide Step;
    if a == [] {
      assert a + b == b;
    } else {
      assert (a + b)[1..] == a[1..] + b;
      FeedConcat(Step(r, a[0]), a[1..], b);
    }
  }

  lemma ShiftAt(r: Reg, i: nat)
    requires i < 16
    ensures Shift(r)[i] == ((i < 15 && r[i + 1]) != (r[0] && GENERATOR[i + 1]))
  {
  }

  /** No information is lost in a step: the constant term of the generator
      tells afterwards which way the step went. */
  lemma ShiftInjective(a: Reg, b: Reg)
    requires Shift(a) == Shift(b)
    ensures a == b
  {
    hide Shift;
    ShiftAt(a, 15);
    ShiftAt(b, 15);
    assert GENERATOR[16];
    forall i | 0 < i < 16
      ensures a[i] == b[i]
    {
      ShiftAt(a, i - 1);
      ShiftAt(b, i - 1);
    }
  }

  lemma StepAt(r: Reg, bit: bool, i: nat)
    requires i < 16
    ensures Step(r, bit)[i] == ((i < 15 && r[i + 1]) != ((r[0] != bit) && GENERATOR[i + 1]))
  {
    hide Shift;
    ShiftAt(Xor(r, [bit] + Zeros(15)), i);
  }

  lemma StepInjective(a: Reg, b: Reg, bit: bool)
    requires Step(a, bit) == Step(b, bit)
    ensures a == b
  {
    hide Shift;
    ShiftInjective(Xor(a, [bit] + Zeros(15)), Xor(b, [bit] + Zeros(15)));
    forall i | 0 <= i < 16
      ensures a[i] == b[i]
    {
      assert Xor(a, [bit] + Zeros(15))[i] == Xor(b, [bit] + Zeros(15))[i];
    }
  }

  lemma {:induction false} FeedInjective(a: Reg, b: Reg, msg: bits)
    requires Feed(a, msg) == Feed(b, msg)
    ensures a == b
    decreases |msg|
  {
    hide Step;
    if msg != [] {
      FeedInjective(Step(a, msg[0]), Step(b, msg[0]), msg[1..]);
      StepInjective(a, b, msg[0]);
    }
  }

  lemma {:induction false} ShiftTimesInjective(a: Reg, b: Reg, n: nat)
    requires ShiftTimes(a, n) == ShiftTimes(b, n)
    ensures a == b
    decreases n
  {
    hide Shift;
    if n > 0 {
      ShiftTimesInjective(Shift(a), Shift(b), n - 1);
      ShiftInjective(a, b);
    }
  }

  // ------------------------------------------------------------------ linearity

  lemma XorConcat(a: bits, b: bits, c: bits, d: bits)
    requires |a| == |c| && |b| == |d|
    ensures Xor(a + b, c + d) == Xor(a, c) + Xor(b, d)
  {
  }

  lemma StepLinear(r: Reg, s: Reg, b: bool, c: bool)
    ensures Step(Xor(r, s), b != c) == Xor(Step(r, b), Step(s, c))
  {
    forall i | 0 <= i < 16
      ensures Step(Xor(r, s), b != c)[i] == Xor(Step(r, b), Step(s, c))[i]
    {
      hide Step;
      StepAt(r, b, i);
      StepAt(s, c, i);
      StepAt(Xor(r, s), b != c, i);
    }
  }

  /** The register is linear in seed and message together. */
  lemma {:induction false} FeedLinear(r: Reg, s: Reg, a: bits, b: bits)
    requires |a| == |b|
    ensures Feed(Xor(r, s), Xor(a, b)) == Xor(Feed(r, a), Feed(s, b))
    decreases |a|
  {
    hide Step, Xor;
    if a != [] {
      StepLinear(r, s, a[0], b[0]);
      assert Xor(a, b)[1..] == Xor(a[1..], b[1..]);
      FeedLinear(Step(r, a[0]), Step(s, b[0]), a[1..], b[1..]);
    }
  }

  // ------------------------------------------------------------ burst detection

  /** Up to sixteen bits may be added to the register first and shifted after. */
  lemma {:induction false} FeedIsShift(r: Reg, msg: bits)
    requires |msg| <= 16
    ensures Feed(r, msg) == ShiftTimes(Xor(r, msg + Zeros(16 - |msg|)), |msg|)
    decreases |msg|
  {
    hide Shift, Step;
    if msg == [] {
      assert Xor(r, msg + Zeros(16)) == r;
    } else {
      var rest := msg[1..];
      FeedIsShift(Step(r, msg[0]), rest);
      FirstBitThenRest(r, msg);
    }
  }

  lemma FirstBitThenRest(r: Reg, msg: bits)
    requires 0 < |msg| <= 16
    ensures Xor(Step(r, msg[0]), msg[1..] + Zeros(17 - |msg|)) == Shift(Xor(r, msg + Zeros(16 - |msg|)))
  {
    var whole := Xor(r, msg + Zeros(16 - |msg|));
    forall i | 0 <= i < 16
      ensures Xor(Step(r, msg[0]), msg[1..] + Zeros(17 - |msg|))[i] == Shift(whole)[i]
    {
      hide Shift, Step;
      ShiftAt(whole, i);
      StepAt(r, msg[0], i);
    }
  }

  /** Two different messages that agree outside sixteen consecutive bits leave
      the register in different states. */
  lemma BurstChangesRegister(r: Reg, a: bits, b: bits, at: nat, width: nat)
    requires |a| == |b| && a != b && width <= 16 && at + width <= |a|
    requires forall i :: 0 <= i < |a| && !(at <= i < at + width) ==> a[i] == b[i]
    ensures Feed(r, a) != Feed(r, b)
  {
    hide Feed, ShiftTimes;
    var front, x, y, back := Window(a, b, at, width);
    FeedConcat(r, front + x, back);
    FeedConcat(r, front, x);
    FeedConcat(r, front + y, back);
    FeedConcat(r, front, y);
    if Feed(r, a) == Feed(r, b) {
      var s := Feed(r, front);
      FeedInjective(Feed(s, x), Feed(s, y), back);
      WindowDecides(s, x, y);
    }
  }

  lemma Window(a: bits, b: bits, at: nat, width: nat) returns (front: bits, x: bits, y: bits, back: bits)
    requires |a| == |b| && at + width <= |a|
    requires forall i :: 0 <= i < |a| && !(at <= i < at + width) ==> a[i] == b[i]
    ensures |x| == |y| == width && a == front + x + back && b == front + y + back
  {
    front, x, y, back := a[..at], a[at..at + width], b[at..at + width], a[at + width..];
  }

  lemma WindowDecides(s: Reg, x: bits, y: bits)
    requires |x| == |y| <= 16 && Feed(s, x) == Feed(s, y)
    ensures x == y
  {
    hide Feed, ShiftTimes;
    var p, q := x + Zeros(16 - |x|), y + Zeros(16 - |y|);
    FeedIsShift(s, x);
    FeedIsShift(s, y);
    ShiftTimesInjective(Xor(s, p), Xor(s, q), |x|);
    forall i | 0 <= i < |x|
      ensures x[i] == y[i]
    {
      assert Xor(s, p)[i] == Xor(s, q)[i] && p[i] == x[i] && q[i] == y[i];
    }
  }

  lemma XorTwice(a: bits, m: bits)
    requires |a| == |m|
    ensures Xor(a, Xor(a, m)) == m
  {
  }

  // ------------------------------------------------------------- coming to zero

  lemma StepQuiet(r: Reg)
    ensures Step(r, false) == Shift(r)
  {
    assert Xor(r, [false] + Zeros(15)) == r;
  }

  lemma {:induction false} FeedZeros(r: Reg, n: nat)
    ensures Feed(r, Zeros(n)) == ShiftTimes(r, n)
    decreases n
  {
    hide Step, Shift;
    if n > 0 {
      assert Zeros(n)[1..] == Zeros(n - 1);
      StepQuiet(r);
      FeedZeros(Shift(r), n - 1);
    }
  }

  lemma {:induction false} ZeroStays(n: nat)
    ensures ShiftTimes(Zeros(16), n) == Zeros(16)
    decreases n
  {
    if n > 0 {
      assert Shift(Zeros(16)) == Zeros(16);
      ZeroStays(n - 1);
    }
  }

  /** A turned register is clear exactly if it was clear before. */
  lemma ClearExactly(r: Reg, n: nat)
    ensures ShiftTimes(r, n) == Zeros(16) <==> r == Zeros(16)
  {
    ZeroStays(n);
    if ShiftTimes(r, n) == Zeros(16) {
      ShiftTimesInjective(r, Zeros(16), n);
    }
  }

  lemma XorClearExactly(r: Reg, s: Reg)
    ensures Xor(r, s) == Zeros(16) <==> r == s
  {
    XorSelf(r);
    if Xor(r, s) == Zeros(16) {
      forall i | 0 <= i < 16
        ensures r[i] == s[i]
      {
        assert !Xor(r, s)[i];
      }
    }
  }

  /** A register fed its own content, and only that, clears it. */
  lemma FeedSelfClears(r: Reg, w: Reg)
    ensures Feed(r, w) == Zeros(16) <==> r == w
  {
    hide Feed, Xor, Zeros, ShiftTimes;
    FeedIsShift(r, w);
    assert w + Zeros(0) == w;
    ClearExactly(Xor(r, w), 16);
    XorClearExactly(r, w);
  }

  // --------------------------------------------------------------------- parity

  /** How many bits are one. */
  function Ones(s: bits): nat
    decreases |s|
  {
    if s == [] then 0 else (if s[0] then 1 else 0) + Ones(s[1..])
  }

  lemma {:induction false} OddOnes(s: bits)
    ensures Odd(s) <==> Ones(s) % 2 == 1
    decreases |s|
  {
    if s != [] {
      OddOnes(s[1..]);
    }
  }

  lemma {:induction false} OnesConcat(a: bits, b: bits)
    ensures Ones(a + b) == Ones(a) + Ones(b)
    decreases |a|
  {
    if a == [] {
      assert a + b == b;
    } else {
      assert (a + b)[1..] == a[1..] + b;
      OnesConcat(a[1..], b);
    }
  }

  lemma {:induction false} OnesZeros(n: nat)
    ensures Ones(Zeros(n)) == 0
    decreases n
  {
    if n > 0 {
      assert Zeros(n)[1..] == Zeros(n - 1);
      OnesZeros(n - 1);
    }
  }

  lemma {:induction false} NoOnes(s: bits)
    requires Ones(s) == 0
    ensures forall k :: 0 <= k < |s| ==> !s[k]
    decreases |s|
  {
    if s != [] {
      NoOnes(s[1..]);
      assert s == [s[0]] + s[1..];
    }
  }

  lemma {:induction false} OneOne(s: bits) returns (i: nat)
    requires Ones(s) == 1
    ensures i < |s| && forall k :: 0 <= k < |s| ==> (s[k] <==> k == i)
    decreases |s|
  {
    if s[0] {
      NoOnes(s[1..]);
      i := 0;
    } else {
      var t := OneOne(s[1..]);
      i := t + 1;
    }
    assert s == [s[0]] + s[1..];
  }

  /** Only the bits at `i` and `j` are one. */
  ghost predicate OnlyAt(s: bits, i: nat, j: nat) {
    i < j < |s| && forall k :: 0 <= k < |s| ==> (s[k] <==> k == i || k == j)
  }

  lemma {:induction false} TwoOnes(s: bits) returns (i: nat, j: nat)
    requires Ones(s) == 2
    ensures OnlyAt(s, i, j)
    decreases |s|
  {
    if s[0] {
      var t := OneOne(s[1..]);
      i, j := 0, t + 1;
    } else {
      var t, u := TwoOnes(s[1..]);
      i, j := t + 1, u + 1;
    }
    assert s == [s[0]] + s[1..];
  }

  /** Whether the number of one bits is odd. */
  function Odd(s: bits): bool
    decreases |s|
  {
    s != [] && (s[0] != Odd(s[1..]))
  }

  lemma {:induction false} OddConcat(a: bits, b: bits)
    ensures Odd(a + b) == (Odd(a) != Odd(b))
    decreases |a|
  {
    if a == [] {
      assert a + b == b;
    } else {
      assert (a + b)[1..] == a[1..] + b;
      OddConcat(a[1..], b);
    }
  }

  lemma {:induction false} OddZeros(n: nat)
    ensures !Odd(Zeros(n))
    decreases n
  {
    if n > 0 {
      assert Zeros(n)[1..] == Zeros(n - 1);
      OddZeros(n - 1);
    }
  }

  lemma {:induction false} OddXor(a: bits, b: bits)
    requires |a| == |b|
    ensures Odd(Xor(a, b)) == (Odd(a) != Odd(b))
    decreases |a|
  {
    if a != [] {
      assert Xor(a, b)[1..] == Xor(a[1..], b[1..]);
      OddXor(a[1..], b[1..]);
    }
  }

  lemma GeneratorTailOdd()
    ensures |GENERATOR| == 17 && Odd(GENERATOR[1..])
  {
    hide Zeros, Odd;
    var a, b, c := Zeros(3) + [true], Zeros(6) + [true], Zeros(4) + [true];
    assert GENERATOR[1..] == a + b + c;
    OddTail(3);
    OddTail(6);
    OddTail(4);
    OddConcat(a, b);
    OddConcat(a + b, c);
  }

  lemma OddTail(n: nat)
    ensures Odd(Zeros(n) + [true])
  {
    OddZeros(n);
    OddConcat(Zeros(n), [true]);
  }

  /** The generator has an even number of terms, so a step keeps parity. */
  lemma ShiftKeepsParity(r: Reg)
    ensures Odd(Shift(r)) == Odd(r)
  {
    hide Zeros;
    GeneratorTailOdd();
    OddXor(r[1..] + [false], Scale(r[0], GENERATOR[1..]));
    OddConcat(r[1..], [false]);
    assert !Odd([false]);
    OddZeros(16);
  }

  lemma StepParity(r: Reg, bit: bool)
    ensures Odd(Step(r, bit)) == (Odd(r) != bit)
  {
    hide Shift, Zeros;
    var top := [bit] + Zeros(15);
    ShiftKeepsParity(Xor(r, top));
    OddXor(r, top);
    OddZeros(15);
    assert top[1..] == Zeros(15);
  }

  /** The register's parity is the seed's plus that of everything fed to it. */
  lemma {:induction false} FeedParity(r: Reg, msg: bits)
    ensures Odd(Feed(r, msg)) == (Odd(r) != Odd(msg))
    decreases |msg|
  {
    hide Step;
    if msg != [] {
      StepParity(r, msg[0]);
      FeedParity(Step(r, msg[0]), msg[1..]);
    }
  }

  // ------------------------------------------------------- polynomial division

  /** Product of polynomials, by schoolbook shift and add. */
  function Mul(q: bits, g: bits): (p: bits)
    requires g != []
    ensures |p| == |q| + |g| - 1
    decreases |q|
  {
    if q == [] then Zeros(|g| - 1)
    else Xor(Scale(q[0], g) + Zeros(|q| - 1), [false] + Mul(q[1..], g))
  }

  /** `seed * x^m + message * x^16`, as a string of m + 16 coefficients. */
  function Dividend(r: Reg, msg: bits): (d: bits)
    ensures |d| == |msg| + 16
  {
    Xor(r + Zeros(|msg|), msg + Zeros(16))
  }

  /** `r` is what is left of `p` after taking away a multiple of the generator. */
  ghost predicate IsRemainder(p: bits, r: Reg)
    requires |p| >= 16
  {
    exists q: bits :: |q| == |p| - 16 && LeavesRemainder(p, q, r)
  }

  predicate LeavesRemainder(p: bits, q: bits, r: Reg)
    requires |p| == |q| + 16
  {
    |GENERATOR| == 17 && p == Xor(Mul(q, GENERATOR), Zeros(|q|) + r)
  }

  /** The quotient the register throws away, one bit a step. */
  function Quotient(r: Reg, msg: bits): (q: bits)
    ensures |q| == |msg|
    decreases |msg|
  {
    if msg == [] then [] else [r[0] != msg[0]] + Quotient(Step(r, msg[0]), msg[1..])
  }

  lemma {:induction false} FeedDivides(r: Reg, msg: bits)
    ensures LeavesRemainder(Dividend(r, msg), Quotient(r, msg), Feed(r, msg))
    decreases |msg|
  {
    hide Step, Zeros, Xor, Scale, GENERATOR;
    GeneratorTailOdd();
    if msg == [] {
      assert Dividend(r, msg) == Xor(Mul([], GENERATOR), Zeros(0) + r);
    } else {
      FeedDivides(Step(r, msg[0]), msg[1..]);
      OneStepOfDivision(r, msg, Quotient(Step(r, msg[0]), msg[1..]), Feed(r, msg));
    }
  }

  lemma OneStepOfDivision(r: Reg, msg: bits, q: bits, rem: Reg)
    requires msg != [] && |q| == |msg| - 1
    requires LeavesRemainder(Dividend(Step(r, msg[0]), msg[1..]), q, rem)
    ensures LeavesRemainder(Dividend(r, msg), [r[0] != msg[0]] + q, rem)
  {
    hide Step, Zeros, Xor, Scale, Mul, GENERATOR;
    var s, t, c := Step(r, msg[0]), msg[1..], r[0] != msg[0];
    var d, m := Dividend(s, t), Mul(q, GENERATOR);
    MulCons(c, q);
    forall i | 0 <= i < |msg| + 16
      ensures Dividend(r, msg)[i] == Xor(Mul([c] + q, GENERATOR), Zeros(|q| + 1) + rem)[i]
    {
      assert GENERATOR[0] by { GeneratorLeads(); }
      if i > 0 {
        assert d[i - 1] == Xor(m, Zeros(|q|) + rem)[i - 1];
        if i <= 16 {
          StepAt(r, msg[0], i - 1);
        }
      }
    }
  }

  lemma GeneratorLeads()
    ensures |GENERATOR| == 17 && GENERATOR[0]
  {
  }

  lemma MulCons(c: bool, q: bits)
    ensures |GENERATOR| == 17
    ensures Mul([c] + q, GENERATOR) == Xor(Scale(c, GENERATOR) + Zeros(|q|), [false] + Mul(q, GENERATOR))
  {
    assert ([c] + q)[1..] == q;
  }

  /** The register ends up holding the remainder, and nothing else is one. */
  lemma RegisterIsTheRemainder(r: Reg, msg: bits)
    ensures forall rem: Reg :: IsRemainder(Dividend(r, msg), rem) <==> rem == Feed(r, msg)
  {
    hide LeavesRemainder, Dividend, Feed, Quotient;
    FeedDivides(r, msg);
    var p, q := Dividend(r, msg), Quotient(r, msg);
    assert |p| == |msg| + 16 && |q| == |msg|;
    forall rem: Reg | IsRemainder(p, rem)
      ensures rem == Feed(r, msg)
    {
      var q' :| |q'| == |p| - 16 && LeavesRemainder(p, q', rem);
      RemainderUnique(p, q, Feed(r, msg), q', rem);
    }
  }

  lemma {:induction false} RemainderUnique(p: bits, q: bits, r: Reg, q': bits, r': Reg)
    requires |p| == |q| + 16 == |q'| + 16
    requires LeavesRemainder(p, q, r) && LeavesRemainder(p, q', r')
    ensures q == q' && r == r'
    decreases |p|
  {
    hide Zeros, Xor, Scale, GENERATOR;
    GeneratorLeads();
    if q == [] {
      assert p == r && p == r';
    } else {
      LeadingBit(p, q, r);
      LeadingBit(p, q', r');
      RemainderUnique(Reduced(p), q[1..], r, q'[1..], r');
      assert q == [q[0]] + q[1..] && q' == [q'[0]] + q'[1..];
    }
  }

  /** One step of long division on the dividend. */
  function Reduced(p: bits): (s: bits)
    requires |p| > 16
    ensures |s| == |p| - 1
  {
    Xor(p, Scale(p[0], GENERATOR) + Zeros(|p| - 17))[1..]
  }

  lemma LeadingBit(p: bits, q: bits, r: Reg)
    requires |p| == |q| + 16 && q != [] && LeavesRemainder(p, q, r)
    ensures p[0] == q[0] && LeavesRemainder(Reduced(p), q[1..], r)
  {
    hide Zeros, Xor, Scale, Mul, GENERATOR;
    GeneratorLeads();
    assert q == [q[0]] + q[1..];
    MulCons(q[0], q[1..]);
    assert p[0] == Xor(Mul(q, GENERATOR), Zeros(|q|) + r)[0];
    forall i | 0 <= i < |p| - 1
      ensures Reduced(p)[i] == Xor(Mul(q[1..], GENERATOR), Zeros(|q| - 1) + r)[i]
    {
      assert p[i + 1] == Xor(Mul(q, GENERATOR), Zeros(|q|) + r)[i + 1];
    }
  }

  /** The remainder of nothing. */
  ghost predicate IsMultiple(p: bits)
    requires |p| >= 16
  {
    IsRemainder(p, Zeros(16))
  }

  /** Two messages are confused exactly when their difference, shifted up by the
      register's width, is a multiple of the generator. */
  lemma ConfusedExactly(r: Reg, a: bits, b: bits)
    requires |a| == |b|
    ensures Feed(r, a) == Feed(r, b) <==> IsMultiple(Xor(a, b) + Zeros(16))
  {
    hide IsRemainder, Feed;
    var e, none := Xor(a, b), Zeros(16);
    FeedLinear(r, r, a, b);
    XorSelf(r);
    XorSelf(Feed(r, b));
    if Xor(Feed(r, a), Feed(r, b)) == none {
      assert forall i :: 0 <= i < 16 ==> !Xor(Feed(r, a), Feed(r, b))[i];
      assert Feed(r, a) == Feed(r, b);
    }
    RegisterIsTheRemainder(none, e);
    assert Dividend(none, e) == e + none;
  }

  lemma XorSelf(a: bits)
    ensures Xor(a, a) == Zeros(|a|)
  {
  }

  lemma MovedRemainder(d: bits, rem: Reg, q: bits)
    requires |d| == |q|
    ensures LeavesRemainder(d + rem, q, Zeros(16)) <==> LeavesRemainder(d + Zeros(16), q, rem)
  {
    hide GENERATOR, Mul;
    GeneratorLeads();
    var m, n := Mul(q, GENERATOR), |q|;
    var a, b := Xor(m, Zeros(n) + Zeros(16)), Xor(m, Zeros(n) + rem);
    if d + rem == a {
      forall i | 0 <= i < n + 16
        ensures (d + Zeros(16))[i] == b[i]
      {
        assert (d + rem)[i] == a[i];
      }
    }
    if d + Zeros(16) == b {
      forall i | 0 <= i < n + 16
        ensures (d + rem)[i] == a[i]
      {
        assert (d + Zeros(16))[i] == b[i];
      }
    }
  }

  /** What leaves an empty register empty is exactly a multiple of the generator. */
  lemma MultipleExactly(e: bits)
    requires |e| >= 16
    ensures IsMultiple(e) <==> Feed(Zeros(16), e) == Zeros(16)
  {
    var n := |e| - 16;
    var d, rem := e[..n], e[n..];
    assert e == d + rem;
    hide Zeros, Xor, Feed, LeavesRemainder;
    forall q: bits | |q| == n
      ensures LeavesRemainder(e, q, Zeros(16)) <==> LeavesRemainder(d + Zeros(16), q, rem)
    {
      MovedRemainder(d, rem, q);
    }
    assert IsMultiple(e) <==> IsRemainder(d + Zeros(16), rem);
    DividendOfClear(d);
    RegisterIsTheRemainder(Zeros(16), d);
    FeedConcat(Zeros(16), d, rem);
    FeedSelfClears(Feed(Zeros(16), d), rem);
  }

  lemma DividendOfClear(d: bits)
    ensures Dividend(Zeros(16), d) == d + Zeros(16)
  {
  }
}
