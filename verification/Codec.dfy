/** Typed fields and their wire form: little-endian scalars, one-byte booleans
    and counted spans of scalars, in tuples read back in the same order. */
module Codec {
  import opened Bytes

  /** Widths of the integer (and bit-pattern) types, in bytes. */
  type Width = w: nat | w == 1 || w == 2 || w == 4 || w == 8 witness 1

  /** What an InlineArray may hold at most: the count must fit one byte. */
  type Capacity = n: nat | n <= 255

  datatype ScalarType = Unsigned(width: Width) | Signed(width: Width) | Bool
  datatype FieldType = One(scalar: ScalarType) | Span(elem: ScalarType, cap: Capacity)

  datatype Scalar = Number(n: int) | Truth(b: bool)
  datatype Value = Single(v: Scalar) | Many(vs: seq<Scalar>)

  // ------------------------------------------------------------- typing and size

  function Radix(w: nat): (r: nat)
    ensures r >= 1
  {
    if w == 0 then 1 else 256 * Radix(w - 1)
  }

  /** Two's complement range of `w` bytes. */
  predicate InSignedRange(n: int, w: nat) { 0 <= 2 * n + Radix(w) && 2 * n < Radix(w) }

  predicate ScalarTyped(v: Scalar, s: ScalarType) {
    match s
    case Unsigned(w) => v.Number? && 0 <= v.n < Radix(w)
    case Signed(w) => v.Number? && InSignedRange(v.n, w)
    case Bool => v.Truth?
  }

  predicate FieldTyped(v: Value, t: FieldType) {
    match t
    case One(s) => v.Single? && ScalarTyped(v.v, s)
    case Span(s, n) => v.Many? && |v.vs| <= n && forall i :: 0 <= i < |v.vs| ==> ScalarTyped(v.vs[i], s)
  }

  predicate Typed(vs: seq<Value>, ts: seq<FieldType>) {
    |vs| == |ts| && forall i :: 0 <= i < |ts| ==> FieldTyped(vs[i], ts[i])
  }

  function ScalarSize(s: ScalarType): (n: nat)
    ensures n >= 1
  {
    if s.Bool? then 1 else s.width
  }

  /** Size of `count` elements of `size` bytes. */
  function Total(count: nat, size: nat): nat
    decreases count
  {
    if count == 0 then 0 else size + Total(count - 1, size)
  }

  lemma {:induction false} TotalIsProduct(count: nat, size: nat)
    ensures Total(count, size) == count * size
    decreases count
  {
    if count > 0 {
      TotalIsProduct(count - 1, size);
      assert count * size == (count - 1) * size + size;
    }
  }

  lemma {:induction false} TotalGrows(m: nat, n: nat, size: nat)
    requires m <= n
    ensures Total(m, size) <= Total(n, size)
    decreases n
  {
    if m < n {
      TotalGrows(m, n - 1, size);
    }
  }

  function MaxSize(t: FieldType): nat {
    match t
    case One(s) => ScalarSize(s)
    case Span(s, n) => 1 + Total(n, ScalarSize(s))
  }

  function TupleMaxSize(ts: seq<FieldType>): nat
    decreases |ts|
  {
    if ts == [] then 0 else MaxSize(ts[0]) + TupleMaxSize(ts[1..])
  }

  // -------------------------------------------------------------------- encoding

  function UintBytes(v: nat, w: nat): (s: seq<byte>)
    ensures |s| == w
    decreases w
  {
    if w == 0 then [] else [v % 256] + UintBytes(v / 256, w - 1)
  }

  /** `static_cast` to the unsigned type of the same width. */
  function ToUnsigned(n: int, w: nat): (u: nat)
    requires InSignedRange(n, w)
    ensures u < Radix(w)
  {
    if n < 0 then n + Radix(w) else n
  }

  function EncodeScalar(v: Scalar, s: ScalarType): (e: seq<byte>)
    requires ScalarTyped(v, s)
    ensures |e| == ScalarSize(s)
  {
    match s
    case Unsigned(w) => UintBytes(v.n, w)
    case Signed(w) => UintBytes(ToUnsigned(v.n, w), w)
    case Bool => [if v.b then 1 else 0]
  }

  function EncodeScalars(vs: seq<Scalar>, s: ScalarType): (e: seq<byte>)
    requires forall i :: 0 <= i < |vs| ==> ScalarTyped(vs[i], s)
    ensures |e| == Total(|vs|, ScalarSize(s))
    decreases |vs|
  {
    if vs == [] then [] else EncodeScalar(vs[0], s) + EncodeScalars(vs[1..], s)
  }

  function EncodeField(v: Value, t: FieldType): (e: seq<byte>)
    requires FieldTyped(v, t)
  {
    match t
    case One(s) => EncodeScalar(v.v, s)
    case Span(s, _) => [|v.vs|] + EncodeScalars(v.vs, s)
  }

  function Encode(vs: seq<Value>, ts: seq<FieldType>): seq<byte>
    requires Typed(vs, ts)
    decreases |ts|
  {
    if ts == [] then [] else EncodeField(vs[0], ts[0]) + Encode(vs[1..], ts[1..])
  }

  // -------------------------------------------------------------------- decoding

  datatype Parse<+T> = Rejected | Parsed(value: T, rest: seq<byte>)

  function UintValue(s: seq<byte>): (v: nat)
    ensures v < Radix(|s|)
    decreases |s|
  {
    if s == [] then 0 else s[0] + 256 * UintValue(s[1..])
  }

  /** `static_cast` back to the signed type of the same width. */
  function FromUnsigned(u: nat, w: nat): (n: int)
    requires u < Radix(w)
    ensures InSignedRange(n, w)
  {
    if 2 * u < Radix(w) then u else u - Radix(w)
  }

  function DecodeScalar(s: ScalarType, e: seq<byte>): (v: Scalar)
    requires |e| == ScalarSize(s)
    ensures ScalarTyped(v, s)
  {
    match s
    case Unsigned(_) => Number(UintValue(e))
    case Signed(w) => Number(FromUnsigned(UintValue(e), w))
    case Bool => Truth(e[0] != 0)
  }

  function DecodeScalars(count: nat, s: ScalarType, input: seq<byte>): (p: Parse<seq<Scalar>>)
    ensures p.Parsed? ==> |p.value| == count && forall i :: 0 <= i < count ==> ScalarTyped(p.value[i], s)
    decreases count
  {
    if count == 0 then Parsed([], input)
    else if |input| < ScalarSize(s) then Rejected
    else match DecodeScalars(count - 1, s, input[ScalarSize(s)..])
         case Rejected => Rejected
         case Parsed(vs, rest) => Parsed([DecodeScalar(s, input[..ScalarSize(s)])] + vs, rest)
  }

  function DecodeField(t: FieldType, input: seq<byte>): (p: Parse<Value>)
    ensures p.Parsed? ==> FieldTyped(p.value, t)
  {
    match t
    case One(s) =>
      if |input| < ScalarSize(s) then Rejected
      else Parsed(Single(DecodeScalar(s, input[..ScalarSize(s)])), input[ScalarSize(s)..])
    case Span(s, n) =>
      if input == [] || input[0] > n then Rejected
      else match DecodeScalars(input[0], s, input[1..])
           case Rejected => Rejected
           case Parsed(vs, rest) => Parsed(Many(vs), rest)
  }

  function DecodeFields(ts: seq<FieldType>, input: seq<byte>): (p: Parse<seq<Value>>)
    ensures p.Parsed? ==> Typed(p.value, ts)
    decreases |ts|
  {
    if ts == [] then Parsed([], input)
    else match DecodeField(ts[0], input)
         case Rejected => Rejected
         case Parsed(v, rest) =>
           match DecodeFields(ts[1..], rest)
           case Rejected => Rejected
           case Parsed(vs, rest') => Parsed([v] + vs, rest')
  }

  /** A whole tuple: the input must be used up exactly. */
  function Decode(ts: seq<FieldType>, input: seq<byte>): (r: Option<seq<Value>>)
    ensures r.Some? ==> Typed(r.value, ts)
  {
    var p := DecodeFields(ts, input);
    if p.Parsed? && p.rest == [] then Some(p.value) else None
  }

  // ------------------------------------------------------------------ round trip

  lemma {:induction false} UintRoundTrip(v: nat, w: nat)
    requires v < Radix(w)
    ensures UintValue(UintBytes(v, w)) == v
    decreases w
  {
    if w > 0 {
      UintRoundTrip(v / 256, w - 1);
      assert UintBytes(v, w)[1..] == UintBytes(v / 256, w - 1);
    }
  }

  lemma {:induction false} UintUnique(s: seq<byte>)
    ensures UintBytes(UintValue(s), |s|) == s
    decreases |s|
  {
    if s != [] {
      UintUnique(s[1..]);
      assert UintValue(s) % 256 == s[0] && UintValue(s) / 256 == UintValue(s[1..]);
    }
  }

  lemma SignedRoundTrip(n: int, w: nat)
    requires InSignedRange(n, w)
    ensures FromUnsigned(ToUnsigned(n, w), w) == n
  {
  }

  lemma UnsignedRoundTrip(u: nat, w: nat)
    requires u < Radix(w)
    ensures ToUnsigned(FromUnsigned(u, w), w) == u
  {
  }

  lemma ScalarRoundTrip(v: Scalar, s: ScalarType)
    requires ScalarTyped(v, s)
    ensures DecodeScalar(s, EncodeScalar(v, s)) == v
  {
    hide UintBytes, UintValue, ToUnsigned, FromUnsigned, Radix;
    match s
    case Unsigned(w) => UintRoundTrip(v.n, w);
    case Signed(w) =>
      UintRoundTrip(ToUnsigned(v.n, w), w);
      SignedRoundTrip(v.n, w);
    case Bool =>
  }

  lemma EncodeScalarsCons(vs: seq<Scalar>, s: ScalarType)
    requires vs != [] && forall i :: 0 <= i < |vs| ==> ScalarTyped(vs[i], s)
    ensures EncodeScalars(vs, s) == EncodeScalar(vs[0], s) + EncodeScalars(vs[1..], s)
  {
  }

  lemma DecodeScalarsCons(count: nat, s: ScalarType, first: seq<byte>, tail: seq<byte>)
    requires count > 0 && |first| == ScalarSize(s)
    ensures DecodeScalars(count, s, first + tail) ==
            match DecodeScalars(count - 1, s, tail)
            case Rejected => Rejected
            case Parsed(vs, rest) => Parsed([DecodeScalar(s, first)] + vs, rest)
  {
    hide DecodeScalar;
    var input := first + tail;
    assert input[..ScalarSize(s)] == first && input[ScalarSize(s)..] == tail;
  }

  lemma {:induction false} ScalarsRoundTrip(vs: seq<Scalar>, s: ScalarType, rest: seq<byte>)
    requires forall i :: 0 <= i < |vs| ==> ScalarTyped(vs[i], s)
    ensures DecodeScalars(|vs|, s, EncodeScalars(vs, s) + rest) == Parsed(vs, rest)
    decreases |vs|
  {
    if vs == [] {
      NothingBefore(rest);
    } else {
      hide *;
      var first, more := EncodeScalar(vs[0], s), EncodeScalars(vs[1..], s);
      ScalarRoundTrip(vs[0], s);
      ScalarsRoundTrip(vs[1..], s, rest);
      EncodeScalarsCons(vs, s);
      DecodeScalarsCons(|vs|, s, first, more + rest);
      Regroup(first, more, rest);
      HeadAndTail(vs);
    }
  }

  lemma FieldRoundTrip(v: Value, t: FieldType, rest: seq<byte>)
    requires FieldTyped(v, t)
    ensures DecodeField(t, EncodeField(v, t) + rest) == Parsed(v, rest)
  {
    hide Total, EncodeScalar, DecodeScalar, EncodeScalars, DecodeScalars, ScalarTyped;
    var input := EncodeField(v, t) + rest;
    match t
    case One(s) =>
      ScalarRoundTrip(v.v, s);
      assert input[..ScalarSize(s)] == EncodeField(v, t) && input[ScalarSize(s)..] == rest;
    case Span(s, _) =>
      ScalarsRoundTrip(v.vs, s, rest);
      assert input[1..] == EncodeScalars(v.vs, s) + rest;
  }

  /** Reading back what was written gives every value and uses exactly its bytes,
      whatever follows. */
  lemma {:induction false} FieldsRoundTrip(vs: seq<Value>, ts: seq<FieldType>, rest: seq<byte>)
    requires Typed(vs, ts)
    ensures DecodeFields(ts, Encode(vs, ts) + rest) == Parsed(vs, rest)
    decreases |ts|
  {
    hide EncodeField, DecodeField, FieldTyped;
    if ts == [] {
      assert Encode(vs, ts) + rest == rest;
    } else {
      var more := Encode(vs[1..], ts[1..]);
      FieldRoundTrip(vs[0], ts[0], more + rest);
      FieldsRoundTrip(vs[1..], ts[1..], rest);
      EncodeCons(vs, ts);
      hide Encode;
      Regroup(EncodeField(vs[0], ts[0]), more, rest);
      HeadAndTail(vs);
    }
  }

  lemma EncodeCons(vs: seq<Value>, ts: seq<FieldType>)
    requires Typed(vs, ts) && ts != []
    ensures Encode(vs, ts) == EncodeField(vs[0], ts[0]) + Encode(vs[1..], ts[1..])
  {
  }

  lemma TupleRoundTrip(vs: seq<Value>, ts: seq<FieldType>)
    requires Typed(vs, ts)
    ensures Decode(ts, Encode(vs, ts)) == Some(vs)
  {
    hide Encode, DecodeFields, Typed;
    FieldsRoundTrip(vs, ts, []);
    assert Encode(vs, ts) + [] == Encode(vs, ts);
  }

  // ------------------------------------------------------------------- canonicity

  /** Every byte `DecodeScalars` reads as a boolean is 0 or 1. */
  predicate CleanScalars(count: nat, s: ScalarType, input: seq<byte>) {
    s.Bool? ==> forall i :: 0 <= i < count && i < |input| ==> input[i] <= 1
  }

  predicate CleanField(t: FieldType, input: seq<byte>) {
    match t
    case One(s) => CleanScalars(1, s, input)
    case Span(s, _) => input != [] ==> CleanScalars(input[0], s, input[1..])
  }

  predicate Clean(ts: seq<FieldType>, input: seq<byte>)
    decreases |ts|
  {
    ts == [] || (CleanField(ts[0], input) &&
                 var p := DecodeField(ts[0], input);
                 p.Parsed? ==> Clean(ts[1..], p.rest))
  }

  lemma ScalarCanonical(s: ScalarType, e: seq<byte>)
    requires |e| == ScalarSize(s)
    ensures EncodeScalar(DecodeScalar(s, e), s) == e <==> (s.Bool? ==> e[0] <= 1)
  {
    hide UintBytes, UintValue, ToUnsigned, FromUnsigned, Radix;
    match s
    case Unsigned(_) => UintUnique(e);
    case Signed(w) =>
      UintUnique(e);
      UnsignedRoundTrip(UintValue(e), w);
    case Bool =>
  }

  lemma {:induction false} ScalarsCanonical(count: nat, s: ScalarType, input: seq<byte>)
    requires DecodeScalars(count, s, input).Parsed?
    ensures var p := DecodeScalars(count, s, input);
            EncodeScalars(p.value, s) + p.rest == input <==> CleanScalars(count, s, input)
    decreases count
  {
    if count == 0 {
      assert EncodeScalars([], s) + input == input;
    } else {
      var n := ScalarSize(s);
      assert input == input[..n] + input[n..];
      ScalarsCanonical(count - 1, s, input[n..]);
      ScalarsCanonicalStep(count, s, input[..n], input[n..]);
    }
  }

  lemma ScalarsCanonicalStep(count: nat, s: ScalarType, first: seq<byte>, tail: seq<byte>)
    requires count > 0 && |first| == ScalarSize(s) && DecodeScalars(count - 1, s, tail).Parsed?
    requires var q := DecodeScalars(count - 1, s, tail);
             EncodeScalars(q.value, s) + q.rest == tail <==> CleanScalars(count - 1, s, tail)
    ensures DecodeScalars(count, s, first + tail).Parsed?
    ensures var p := DecodeScalars(count, s, first + tail);
            EncodeScalars(p.value, s) + p.rest == first + tail <==> CleanScalars(count, s, first + tail)
  {
    hide *;
    DecodeScalarsCons(count, s, first, tail);
    ScalarCanonical(s, first);
    var p, q := DecodeScalars(count, s, first + tail), DecodeScalars(count - 1, s, tail);
    EncodeScalarsCons(p.value, s);
    assert p.value[0] == DecodeScalar(s, first) && p.value[1..] == q.value;
    var e, m := EncodeScalar(p.value[0], s), EncodeScalars(q.value, s);
    Regroup(e, m, q.rest);
    SplitEqual(e, m + q.rest, first, tail);
    CleanScalarsSplit(count, s, first, tail);
  }

  lemma CleanScalarsSplit(count: nat, s: ScalarType, first: seq<byte>, tail: seq<byte>)
    requires count > 0 && |first| == ScalarSize(s)
    ensures CleanScalars(count, s, first + tail) <==> (s.Bool? ==> first[0] <= 1) && CleanScalars(count - 1, s, tail)
  {
    if s.Bool? && first[0] <= 1 && CleanScalars(count - 1, s, tail) {
      forall i | 0 <= i < count && i < |first + tail|
        ensures (first + tail)[i] <= 1
      {
        assert i > 0 ==> (first + tail)[i] == tail[i - 1];
      }
    } else if s.Bool? && CleanScalars(count, s, first + tail) {
      assert (first + tail)[0] <= 1;
      forall i | 0 <= i < count - 1 && i < |tail|
        ensures tail[i] <= 1
      {
        assert (first + tail)[i + 1] == tail[i];
      }
    }
  }

  /** Two splits at the same place agree exactly when both halves do. */
  lemma SplitEqual(a: seq<byte>, b: seq<byte>, c: seq<byte>, d: seq<byte>)
    requires |a| == |c|
    ensures a + b == c + d <==> a == c && b == d
  {
    if a + b == c + d {
      assert a == (a + b)[..|a|] == (c + d)[..|a|] == c;
      assert b == (a + b)[|a|..] == (c + d)[|a|..] == d;
    }
  }

  lemma FieldCanonical(t: FieldType, input: seq<byte>)
    requires DecodeField(t, input).Parsed?
    ensures var p := DecodeField(t, input);
            |EncodeField(p.value, t)| <= |input| && p.rest == input[|EncodeField(p.value, t)|..]
            && (EncodeField(p.value, t) + p.rest == input <==> CleanField(t, input))
  {
    hide Total, EncodeScalar, DecodeScalar, EncodeScalars, DecodeScalars, ScalarTyped;
    var p := DecodeField(t, input);
    match t
    case One(s) =>
      var n := ScalarSize(s);
      ScalarCanonical(s, input[..n]);
      assert input == input[..n] + input[n..];
      SplitEqual(EncodeField(p.value, t), p.rest, input[..n], input[n..]);
    case Span(s, _) =>
      ScalarsCanonical(input[0], s, input[1..]);
      ScalarsUse(input[0], s, input[1..]);
      var m := EncodeScalars(p.value.vs, s) + p.rest;
      assert EncodeField(p.value, t) + p.rest == [input[0]] + m;
      assert input == [input[0]] + input[1..];
      SplitEqual([input[0]], m, [input[0]], input[1..]);
  }

  lemma {:induction false} ScalarsUse(count: nat, s: ScalarType, input: seq<byte>)
    requires DecodeScalars(count, s, input).Parsed?
    ensures var n := Total(count, ScalarSize(s));
            n <= |input| && DecodeScalars(count, s, input).rest == input[n..]
    decreases count
  {
    if count > 0 {
      var n := ScalarSize(s);
      ScalarsUse(count - 1, s, input[n..]);
      assert input[n..][Total(count - 1, n)..] == input[n + Total(count - 1, n)..];
    }
  }

  lemma {:induction false} FieldsCanonical(ts: seq<FieldType>, input: seq<byte>)
    requires DecodeFields(ts, input).Parsed?
    ensures var p := DecodeFields(ts, input);
            Encode(p.value, ts) + p.rest == input <==> Clean(ts, input)
    decreases |ts|
  {
    hide EncodeField, DecodeField, FieldTyped, CleanField;
    var p := DecodeFields(ts, input);
    if ts == [] {
      assert Encode(p.value, ts) + p.rest == input;
    } else {
      var f := DecodeField(ts[0], input);
      var q := DecodeFields(ts[1..], f.rest);
      FieldCanonical(ts[0], input);
      FieldsCanonical(ts[1..], f.rest);
      EncodeCons(p.value, ts);
      assert p.value[1..] == q.value;
      hide Encode, DecodeFields;
      var e, m := EncodeField(f.value, ts[0]), Encode(q.value, ts[1..]);
      Regroup(e, m, q.rest);
      CutAt(input, |e|);
      SplitEqual(e, m + q.rest, input[..|e|], f.rest);
      SplitEqual(e, f.rest, input[..|e|], f.rest);
    }
  }

  /** An accepted input re-encodes to itself exactly when it spells its booleans
      as the encoder does. */
  lemma CanonicalExactly(ts: seq<FieldType>, input: seq<byte>)
    requires Decode(ts, input).Some?
    ensures Encode(Decode(ts, input).value, ts) == input <==> Clean(ts, input)
  {
    hide Encode, DecodeFields, Typed, Clean;
    FieldsCanonical(ts, input);
    var vs := DecodeFields(ts, input).value;
    assert Encode(vs, ts) + [] == Encode(vs, ts);
  }

  predicate HasBool(t: FieldType) { if t.One? then t.scalar.Bool? else t.elem.Bool? }

  lemma {:induction false} NoBoolIsClean(ts: seq<FieldType>, input: seq<byte>)
    requires forall i :: 0 <= i < |ts| ==> !HasBool(ts[i])
    ensures Clean(ts, input)
    decreases |ts|
  {
    if ts != [] {
      var p := DecodeField(ts[0], input);
      if p.Parsed? {
        NoBoolIsClean(ts[1..], p.rest);
      }
    }
  }

  /** Without booleans the accepted inputs are exactly the encodings. */
  lemma AcceptedExactly(ts: seq<FieldType>, input: seq<byte>)
    requires forall i :: 0 <= i < |ts| ==> !HasBool(ts[i])
    ensures Decode(ts, input).Some? <==> exists vs: seq<Value> :: Typed(vs, ts) && Encode(vs, ts) == input
  {
    hide Encode, Decode, Clean, Typed;
    if Decode(ts, input).Some? {
      NoBoolIsClean(ts, input);
      CanonicalExactly(ts, input);
    }
    forall vs: seq<Value> | Typed(vs, ts) && Encode(vs, ts) == input
      ensures Decode(ts, input).Some?
    {
      TupleRoundTrip(vs, ts);
    }
  }

  // ------------------------------------------------------------------ size budget

  lemma FieldSize(v: Value, t: FieldType)
    requires FieldTyped(v, t)
    ensures |EncodeField(v, t)| <= MaxSize(t)
    ensures t.One? ==> |EncodeField(v, t)| == MaxSize(t)
  {
    if t.Span? {
      TotalGrows(|v.vs|, t.cap, ScalarSize(t.elem));
    }
  }

  /** No tuple of values ever needs more than the compile-time bound. */
  lemma {:induction false} SizeBudget(vs: seq<Value>, ts: seq<FieldType>)
    requires Typed(vs, ts)
    ensures |Encode(vs, ts)| <= TupleMaxSize(ts)
    decreases |ts|
  {
    hide EncodeField, FieldTyped, MaxSize;
    if ts != [] {
      FieldSize(vs[0], ts[0]);
      SizeBudget(vs[1..], ts[1..]);
    }
  }

  /** No field whose size depends on its value. */
  predicate FixedSize(ts: seq<FieldType>) { forall i :: 0 <= i < |ts| ==> ts[i].One? }

  lemma {:induction false} FixedFieldsDecode(ts: seq<FieldType>, input: seq<byte>)
    requires FixedSize(ts) && |input| >= TupleMaxSize(ts)
    ensures DecodeFields(ts, input).Parsed? && |DecodeFields(ts, input).rest| == |input| - TupleMaxSize(ts)
    decreases |ts|
  {
    hide DecodeScalar, ScalarTyped;
    if ts != [] {
      FixedFieldsDecode(ts[1..], input[MaxSize(ts[0])..]);
    }
  }

  /** With fixed-size fields any bytes of the right number are read. */
  lemma FixedDecodes(ts: seq<FieldType>, input: seq<byte>)
    requires FixedSize(ts) && |input| == TupleMaxSize(ts)
    ensures Decode(ts, input).Some?
  {
    hide DecodeFields, Typed;
    FixedFieldsDecode(ts, input);
  }

  /** What a value-initialised tuple holds. */
  function DefaultScalar(s: ScalarType): (v: Scalar)
    ensures ScalarTyped(v, s)
  {
    if s.Bool? then Truth(false) else Number(0)
  }

  function Default(t: FieldType): (v: Value)
    ensures FieldTyped(v, t)
  {
    match t
    case One(s) => Single(DefaultScalar(s))
    case Span(_, _) => Many([])
  }

  function Defaults(ts: seq<FieldType>): (vs: seq<Value>)
    ensures Typed(vs, ts)
  {
    seq(|ts|, i requires 0 <= i < |ts| => Default(ts[i]))
  }

  // ------------------------------------------------------- the format, in numbers

  lemma Radices()
    ensures Radix(0) == 1 && Radix(1) == 0x100 && Radix(2) == 0x1_0000 && Radix(4) == 0x1_0000_0000
    ensures Radix(8) == 0x1_0000_0000_0000_0000
  {
    assert Radix(4) == 256 * (256 * (256 * (256 * Radix(0))));
    assert Radix(8) == 256 * (256 * (256 * (256 * Radix(4))));
  }

  /** What the integer types hold, in numbers. */
  lemma Ranges(n: int)
    ensures ScalarTyped(Number(n), Unsigned(1)) <==> 0 <= n < 0x100
    ensures ScalarTyped(Number(n), Unsigned(2)) <==> 0 <= n < 0x1_0000
    ensures ScalarTyped(Number(n), Unsigned(4)) <==> 0 <= n < 0x1_0000_0000
    ensures ScalarTyped(Number(n), Unsigned(8)) <==> 0 <= n < 0x1_0000_0000_0000_0000
    ensures ScalarTyped(Number(n), Signed(1)) <==> -0x80 <= n < 0x80
    ensures ScalarTyped(Number(n), Signed(2)) <==> -0x8000 <= n < 0x8000
    ensures ScalarTyped(Number(n), Signed(4)) <==> -0x8000_0000 <= n < 0x8000_0000
    ensures ScalarTyped(Number(n), Signed(8)) <==> -0x8000_0000_0000_0000 <= n < 0x8000_0000_0000_0000
  {
    hide Radix;
    Radices();
  }

  lemma {:induction false} RadixSum(i: nat, j: nat)
    ensures Radix(i + j) == Radix(i) * Radix(j)
    decreases i
  {
    if i > 0 {
      RadixSum(i - 1, j);
      var a, b := Radix(i - 1), Radix(j);
      assert 256 * (a * b) == (256 * a) * b;
    }
  }

  lemma {:induction false} UintDigit(v: nat, w: nat, i: nat)
    requires i < w
    ensures UintBytes(v, w)[i] == v / Radix(i) % 256
    decreases i
  {
    if i > 0 {
      UintDigit(v / 256, w - 1, i - 1);
      DivideTwice(v, Radix(i - 1));
    }
  }

  lemma DivideTwice(v: nat, r: nat)
    requires r > 0
    ensures v / 256 / r == v / (256 * r)
  {
    var q, m := v / 256 / r, v / 256 % r;
    assert v == 256 * (q * r + m) + v % 256;
    assert 256 * (q * r) == q * (256 * r);
    QuotientIs(v, 256 * r, q, 256 * m + v % 256);
  }

  lemma QuotientIs(v: int, d: nat, q: int, m: nat)
    requires d > 0 && v == q * d + m && m < d
    ensures v / d == q
  {
    var e, r := v / d, v % d;
    Remainder(v, d);
    if e > q {
      MultiplesApart(e, q, d);
    } else if e < q {
      MultiplesApart(q, e, d);
    }
  }

  lemma MultiplesApart(e: int, q: int, d: nat)
    requires e > q
    ensures e * d >= q * d + d
  {
    MultipleIsFar(e - q, d);
    assert (e - q) * d == e * d - q * d;
  }

  lemma Remainder(v: int, d: nat)
    requires d > 0
    ensures v == (v / d) * d + v % d && 0 <= v % d < d
  {
  }

  lemma {:induction false} MultipleIsFar(k: nat, d: nat)
    requires k > 0
    ensures k * d >= d
    decreases k
  {
    if k > 1 {
      MultipleIsFar(k - 1, d);
      assert k * d == (k - 1) * d + d;
    }
  }

  /** Byte `i` on the wire of an integer of either sign: its digit of weight 256^i, as
      floor division has it. For negative numbers that is two's complement. */
  lemma ScalarDigit(v: Scalar, s: ScalarType, i: nat)
    requires ScalarTyped(v, s) && !s.Bool? && i < s.width
    ensures EncodeScalar(v, s)[i] == v.n / Radix(i) % 256
  {
    hide UintBytes, Radix;
    var w := s.width;
    if s.Signed? && v.n < 0 {
      UintDigit(v.n + Radix(w), w, i);
      RadixSum(i, w - i);
      WrapsRound(v.n, Radix(i), Radix(w - i));
      RadixSum(1, w - i - 1);
      Radices();
      MultipleOf256(v.n / Radix(i), Radix(w - i - 1));
    } else {
      UintDigit(v.n, w, i);
    }
  }

  lemma WrapsRound(n: int, r: nat, k: nat)
    requires r > 0
    ensures (n + r * k) / r == n / r + k
  {
    var q := n / r;
    assert n + r * k == (q + k) * r + n % r;
    QuotientIs(n + r * k, r, q + k, n % r);
  }

  lemma MultipleOf256(q: int, k: nat)
    ensures (q + 256 * k) % 256 == q % 256
  {
  }

  /** Which inputs a field can be read from: enough bytes, and for a span a count
      within its capacity. */
  lemma FieldReadExactly(t: FieldType, input: seq<byte>)
    ensures DecodeField(t, input).Parsed? <==>
            match t
            case One(s) => |input| >= ScalarSize(s)
            case Span(s, n) => input != [] && input[0] <= n && |input| - 1 >= Total(input[0], ScalarSize(s))
  {
    hide DecodeScalars, DecodeScalar, Total;
    if t.Span? && input != [] {
      ScalarsReadExactly(input[0], t.elem, input[1..]);
    }
  }

  lemma {:induction false} ScalarsReadExactly(count: nat, s: ScalarType, input: seq<byte>)
    ensures DecodeScalars(count, s, input).Parsed? <==> |input| >= Total(count, ScalarSize(s))
    decreases count
  {
    hide DecodeScalar;
    if count > 0 && |input| >= ScalarSize(s) {
      ScalarsReadExactly(count - 1, s, input[ScalarSize(s)..]);
    }
  }

  /** A boolean is written as 0 or 1 and read from any byte: all but 0 are true. */
  lemma BooleanBytes(b: bool, x: byte)
    ensures Encode([Single(Truth(b))], [FieldType.One(Bool)]) == [if b then 1 else 0]
    ensures Decode([FieldType.One(Bool)], [x]) == Some([Single(Truth(x != 0))])
  {
    var vs, ts := [Single(Truth(b))], [FieldType.One(Bool)];
    var v := Single(Truth(x != 0));
    assert vs[1..] == [] && ts[1..] == [] && [x][..1] == [x] && [x][1..] == [];
    assert DecodeField(ts[0], [x]) == Parsed(v, []);
    assert DecodeFields(ts[1..], []) == Parsed([], []);
    NothingBehind([v]);
    assert DecodeFields(ts, [x]) == Parsed([v], []);
  }

  /** A span is its count and then its elements, one after the other. */
  lemma SpanBytes(vs: seq<Scalar>, s: ScalarType, n: Capacity, i: nat, k: nat)
    requires FieldTyped(Many(vs), Span(s, n)) && i < |vs| && k < ScalarSize(s)
    ensures |EncodeField(Many(vs), Span(s, n))| == 1 + Total(|vs|, ScalarSize(s))
    ensures 1 + Total(i, ScalarSize(s)) + k < |EncodeField(Many(vs), Span(s, n))|
    ensures var e := EncodeField(Many(vs), Span(s, n));
            e[0] == |vs| && e[1 + Total(i, ScalarSize(s)) + k] == EncodeScalar(vs[i], s)[k]
  {
    hide EncodeScalars, EncodeScalar, ScalarTyped, Total;
    ElementAt(vs, s, i, k);
  }

  lemma {:induction false} ElementAt(vs: seq<Scalar>, s: ScalarType, i: nat, k: nat)
    requires i < |vs| && k < ScalarSize(s) && forall j :: 0 <= j < |vs| ==> ScalarTyped(vs[j], s)
    ensures Total(i, ScalarSize(s)) + k < |EncodeScalars(vs, s)|
    ensures EncodeScalars(vs, s)[Total(i, ScalarSize(s)) + k] == EncodeScalar(vs[i], s)[k]
    decreases i
  {
    hide EncodeScalar, ScalarTyped;
    if i > 0 {
      ElementAt(vs[1..], s, i - 1, k);
    }
  }

  /** A value-initialised tuple: every byte of it is zero. */
  lemma {:induction false} DefaultsAreZeros(ts: seq<FieldType>)
    ensures forall i :: 0 <= i < |Encode(Defaults(ts), ts)| ==> Encode(Defaults(ts), ts)[i] == 0
    decreases |ts|
  {
    hide EncodeField, Default, FieldTyped;
    if ts != [] {
      DefaultsAreZeros(ts[1..]);
      assert Defaults(ts)[1..] == Defaults(ts[1..]);
      DefaultIsZero(ts[0]);
    }
  }

  lemma DefaultIsZero(t: FieldType)
    ensures FieldTyped(Default(t), t)
    ensures forall i :: 0 <= i < |EncodeField(Default(t), t)| ==> EncodeField(Default(t), t)[i] == 0
  {
    match t
    case One(s) =>
      if !s.Bool? {
        forall i | 0 <= i < s.width
          ensures EncodeScalar(Number(0), s)[i] == 0
        {
          ScalarDigit(Number(0), s, i);
        }
      }
    case Span(_, _) =>
  }

  /** The compile-time bound is met by some tuple, so it is no more than needed. */
  lemma {:induction false} SizeBudgetAttained(ts: seq<FieldType>) returns (vs: seq<Value>)
    ensures Typed(vs, ts) && |Encode(vs, ts)| == TupleMaxSize(ts)
    decreases |ts|
  {
    hide EncodeField, MaxSize, FieldTyped;
    if ts == [] {
      vs := [];
    } else {
      var v := Largest(ts[0]);
      var more := SizeBudgetAttained(ts[1..]);
      vs := [v] + more;
      assert vs[1..] == more;
    }
  }

  lemma Largest(t: FieldType) returns (v: Value)
    ensures FieldTyped(v, t) && |EncodeField(v, t)| == MaxSize(t)
  {
    match t
    case One(s) =>
      v := Default(t);
    case Span(s, n) =>
      v := Many(seq(n, _ => DefaultScalar(s)));
  }

  /** Fixed-size fields are read from exactly the inputs of their number of bytes. */
  lemma FixedReadExactly(ts: seq<FieldType>, input: seq<byte>)
    requires FixedSize(ts)
    ensures Decode(ts, input).Some? <==> |input| == TupleMaxSize(ts)
  {
    hide Encode, DecodeFields, Typed;
    if |input| >= TupleMaxSize(ts) {
      FixedFieldsDecode(ts, input);
    } else {
      FixedTooShort(ts, input);
    }
  }

  lemma {:induction false} FixedTooShort(ts: seq<FieldType>, input: seq<byte>)
    requires FixedSize(ts) && |input| < TupleMaxSize(ts)
    ensures DecodeFields(ts, input).Rejected?
    decreases |ts|
  {
    hide DecodeScalar, ScalarTyped;
    if ts != [] && |input| >= MaxSize(ts[0]) {
      FixedTooShort(ts[1..], input[MaxSize(ts[0])..]);
    }
  }
}
