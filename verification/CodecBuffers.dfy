/** The codecs as they run: writing at an offset into a caller's buffer and
    reading from a view, each proved against the functions of module Codec. */
module CodecBuffers {
  import opened Bytes
  import opened Codec

  // ----------------------------------------------------------- buffers with a hole

  /** `buf` with `data` written at `at`. */
  function Written(buf: seq<byte>, at: nat, data: seq<byte>): (r: seq<byte>)
    requires at + |data| <= |buf|
    ensures |r| == |buf|
  {
    buf[..at] + data + buf[at + |data|..]
  }

  lemma WrittenTwice(buf: seq<byte>, at: nat, a: seq<byte>, b: seq<byte>)
    requires at + |a| + |b| <= |buf|
    ensures Written(Written(buf, at, a), at + |a|, b) == Written(buf, at, a + b)
  {
    var once := Written(buf, at, a);
    assert once[..at + |a|] == buf[..at] + a;
    assert once[at + |a| + |b|..] == buf[at + |a| + |b|..];
    assert buf[..at] + (a + b) == buf[..at] + a + b;
  }

  lemma WrittenNothing(buf: seq<byte>, at: nat)
    requires at <= |buf|
    ensures Written(buf, at, []) == buf
  {
    assert buf[..at] + [] + buf[at..] == buf;
  }

  lemma WrittenByte(buf: seq<byte>, at: nat, b: byte)
    requires at < |buf|
    ensures Written(buf, at, [b]) == buf[at := b]
  {
  }

  lemma WrittenView(buf: seq<byte>, at: nat, data: seq<byte>)
    requires at + |data| <= |buf|
    ensures Written(buf, at, data)[at..at + |data|] == data
    ensures Written(buf, at, data)[..at] == buf[..at]
  {
  }

  lemma WrittenPrefix(buf: seq<byte>, at: nat, data: seq<byte>)
    requires at + |data| <= |buf|
    ensures Written(buf, at, data)[..at + |data|] == buf[..at] + data
  {
  }

  /** The two differ at most in `[at, at + n)`. */
  predicate SameOutside(a: seq<byte>, b: seq<byte>, at: nat, n: nat)
    requires at + n <= |a| == |b|
  {
    a[..at] == b[..at] && a[at + n..] == b[at + n..]
  }

  lemma WrittenInside(buf: seq<byte>, at: nat, data: seq<byte>, n: nat)
    requires |data| <= n && at + n <= |buf|
    ensures SameOutside(Written(buf, at, data), buf, at, n)
  {
    var w := Written(buf, at, data);
    assert w[at + n..] == buf[at + n..];
    assert w[..at] == buf[..at];
  }

  lemma InsideInside(a: seq<byte>, b: seq<byte>, c: seq<byte>, at: nat, skip: nat, n: nat)
    requires skip <= n && at + n <= |a| == |b| == |c|
    requires SameOutside(a, b, at + skip, n - skip) && SameOutside(b, c, at, n)
    ensures SameOutside(a, c, at, n)
  {
    assert a[..at] == a[..at + skip][..at] == b[..at + skip][..at] == b[..at];
  }

  // ------------------------------------------------------------------------ scalars

  lemma {:induction false} UintValueLast(s: seq<byte>, b: byte)
    ensures UintValue(s + [b]) == UintValue(s) + b * Radix(|s|)
    decreases |s|
  {
    if s == [] {
      assert [b][1..] == [];
    } else {
      var head: int, r := s[0], Radix(|s| - 1);
      assert (s + [b])[1..] == s[1..] + [b];
      UintValueLast(s[1..], b);
      assert b * (256 * r) == 256 * (b * r);
    }
  }

  lemma UintBytesNext(done: seq<byte>, v: nat, w: nat)
    requires w > 0
    ensures done + UintBytes(v, w) == done + [v % 256] + UintBytes(v / 256, w - 1)
  {
  }

  lemma UintBytesDone(done: seq<byte>, v: nat)
    ensures done + UintBytes(v, 0) == done
  {
  }

  lemma UintBytesStart(v: nat, w: nat)
    ensures [] + UintBytes(v, w) == UintBytes(v, w)
  {
  }

  /** `UintCodec::encode`. */
  method EncodeUint(v: nat, w: Width, out: array<byte>, at: nat, cap: nat) returns (ok: bool, written: nat)
    requires at + cap <= out.Length && v < Radix(w)
    modifies out
    ensures ok == (w <= cap)
    ensures ok ==> written == w && out[..] == Written(old(out[..]), at, UintBytes(v, w))
    ensures !ok ==> out[..] == old(out[..])
  {
    hide Written, Radix, UintBytes;
    if cap < w {
      return false, 0;
    }
    var rest := v;
    ghost var done: seq<byte> := [];
    WrittenNothing(out[..], at);
    UintBytesStart(v, w);
    for i := 0 to w
      invariant |done| == i && done + UintBytes(rest, w - i) == UintBytes(v, w)
      invariant out[..] == Written(old(out[..]), at, done)
    {
      ghost var before := out[..];
      UintBytesNext(done, rest, w - i);
      WrittenByte(before, at + i, rest % 256);
      WrittenTwice(old(out[..]), at, done, [rest % 256]);
      done := done + [rest % 256];
      out[at + i] := rest % 256;
      rest := rest / 256;
    }
    UintBytesDone(done, rest);
    return true, w;
  }

  /** `UintCodec::decode`; the shifted bytes occupy disjoint places, so combining
      them with `|` is adding them. */
  method DecodeUint(input: seq<byte>, w: Width) returns (ok: bool, v: nat, consumed: nat)
    ensures ok == (w <= |input|)
    ensures ok ==> consumed == w && v == UintValue(input[..w])
  {
    v := 0;
    if |input| < w {
      return false, 0, 0;
    }
    var weight: nat := 1;
    for i := 0 to w
      invariant v == UintValue(input[..i]) && weight == Radix(i)
    {
      UintValueLast(input[..i], input[i]);
      assert input[..i + 1] == input[..i] + [input[i]];
      var b: int := input[i];
      v := v + b * weight;
      weight := 256 * weight;
    }
    return true, v, w;
  }

  /** `Codec<T>::encode` for the fixed-size types. */
  method EncodeScalarInto(v: Scalar, s: ScalarType, out: array<byte>, at: nat, cap: nat)
    returns (ok: bool, written: nat)
    requires at + cap <= out.Length && ScalarTyped(v, s)
    modifies out
    ensures ok == (ScalarSize(s) <= cap)
    ensures ok ==> written == ScalarSize(s) && out[..] == Written(old(out[..]), at, EncodeScalar(v, s))
    ensures !ok ==> out[..] == old(out[..])
  {
    hide Written, UintBytes, Radix;
    match s
    case Unsigned(w) =>
      ok, written := EncodeUint(v.n, w, out, at, cap);
    case Signed(w) =>
      ok, written := EncodeUint(ToUnsigned(v.n, w), w, out, at, cap);
    case Bool =>
      if cap < 1 {
        return false, 0;
      }
      WrittenByte(out[..], at, if v.b then 1 else 0);
      out[at] := if v.b then 1 else 0;
      return true, 1;
  }

  /** `Codec<T>::decode` for the fixed-size types. */
  method DecodeScalarFrom(s: ScalarType, input: seq<byte>) returns (ok: bool, v: Scalar, consumed: nat)
    ensures ok == (ScalarSize(s) <= |input|)
    ensures ok ==> consumed == ScalarSize(s) && v == DecodeScalar(s, input[..consumed])
  {
    v := DefaultScalar(s);
    match s
    case Unsigned(w) =>
      var u;
      ok, u, consumed := DecodeUint(input, w);
      if ok { v := Number(u); }
    case Signed(w) =>
      var u;
      ok, u, consumed := DecodeUint(input, w);
      if ok { v := Number(FromUnsigned(u, w)); }
    case Bool =>
      if |input| < 1 {
        return false, v, 0;
      }
      return true, Truth(input[0] != 0), 1;
  }

  // -------------------------------------------------------------------------- spans

  /** `InlineArray<T, N>`: owned storage for up to `N` elements. */
  class InlineArray {
    const N: Capacity
    const data: array<Scalar>
    var size: nat

    ghost predicate Valid()
      reads this
    {
      data.Length == N && size <= N
    }

    function Contents(): (s: seq<Scalar>)
      reads this, data
      requires Valid()
      ensures |s| <= N
    {
      data[..size]
    }

    constructor (n: Capacity)
      ensures Valid() && N == n && Contents() == [] && fresh(data)
    {
      N := n;
      data := new Scalar[n](_ => Number(0));
      size := 0;
    }

    method Clear()
      requires Valid()
      modifies this
      ensures Valid() && Contents() == []
    {
      size := 0;
    }

    /** `push_back`. */
    method PushBack(v: Scalar) returns (ok: bool)
      requires Valid()
      modifies this, data
      ensures Valid() && ok == (|old(Contents())| < N)
      ensures Contents() == if ok then old(Contents()) + [v] else old(Contents())
    {
      if size >= N {
        return false;
      }
      data[size] := v;
      size := size + 1;
      return true;
    }
  }

  lemma SliceOfTail<T>(s: seq<T>, i: nat)
    requires 0 < i <= |s|
    ensures s[1..][..i - 1] == s[..i][1..] && s[1..][i - 1..] == s[i..]
  {
  }

  lemma {:induction false} EncodeScalarsSplit(vs: seq<Scalar>, s: ScalarType, i: nat)
    requires i <= |vs| && forall k :: 0 <= k < |vs| ==> ScalarTyped(vs[k], s)
    ensures EncodeScalars(vs, s) == EncodeScalars(vs[..i], s) + EncodeScalars(vs[i..], s)
    decreases i
  {
    hide ScalarTyped, EncodeScalar, Total;
    if i == 0 {
      NothingBefore(EncodeScalars(vs, s));
    } else {
      hide EncodeScalars;
      SliceOfTail(vs, i);
      EncodeScalarsSplit(vs[1..], s, i - 1);
      EncodeScalarsCons(vs, s);
      EncodeScalarsCons(vs[..i], s);
      Regroup(EncodeScalar(vs[0], s), EncodeScalars(vs[..i][1..], s), EncodeScalars(vs[i..], s));
    }
  }

  lemma EncodeScalarsNext(vs: seq<Scalar>, s: ScalarType, i: nat)
    requires i < |vs| && forall k :: 0 <= k < |vs| ==> ScalarTyped(vs[k], s)
    ensures EncodeScalars(vs[..i + 1], s) == EncodeScalars(vs[..i], s) + EncodeScalar(vs[i], s)
    ensures |EncodeScalars(vs[..i + 1], s)| <= |EncodeScalars(vs, s)|
  {
    hide ScalarTyped, EncodeScalar, Total, ScalarSize;
    var front := vs[..i + 1];
    EncodeScalarsSplit(front, s, i);
    EncodeScalarsSplit(vs, s, i + 1);
    assert front[..i] == vs[..i] && front[i..] == [vs[i]];
    EncodeScalarsCons([vs[i]], s);
    assert EncodeScalar(vs[i], s) + [] == EncodeScalar(vs[i], s);
  }

  /** `Codec<InlineArray<T, N>>::encode`. */
  method EncodeSpan(vs: seq<Scalar>, s: ScalarType, n: Capacity, out: array<byte>, at: nat, cap: nat)
    returns (ok: bool, written: nat)
    requires at + cap <= out.Length && FieldTyped(Many(vs), Span(s, n))
    modifies out
    ensures ok == (1 + |EncodeScalars(vs, s)| <= cap)
    ensures ok ==> written == 1 + |EncodeScalars(vs, s)|
    ensures ok ==> out[..] == Written(old(out[..]), at, [|vs|] + EncodeScalars(vs, s))
    ensures SameOutside(out[..], old(out[..]), at, cap)
  {
    hide Written, SameOutside, EncodeScalars, EncodeScalar, ScalarTyped, Total;
    ghost var was := out[..];
    WrittenNothing(was, at);
    WrittenInside(was, at, [], cap);
    if cap < 1 {
      return false, 0;
    }
    WrittenByte(was, at, |vs|);
    out[at] := |vs|;
    var off := 1;
    ghost var done: seq<byte> := [|vs|];
    EncodeNoScalars(s);
    for i := 0 to |vs|
      invariant done == [|vs|] + EncodeScalars(vs[..i], s) && off == |done| <= cap
      invariant out[..] == Written(was, at, done)
    {
      EncodeScalarsNext(vs, s, i);
      WrittenInside(was, at, done, cap);
      var fits, w := EncodeScalarInto(vs[i], s, out, at + off, cap - off);
      if !fits {
        return false, 0;
      }
      off := off + w;
      WrittenTwice(was, at, done, EncodeScalar(vs[i], s));
      done := done + EncodeScalar(vs[i], s);
      assert done == [|vs|] + EncodeScalars(vs[..i + 1], s);
    }
    assert vs[..|vs|] == vs;
    WrittenInside(was, at, done, cap);
    return true, off;
  }

  lemma EncodeNoScalars(s: ScalarType)
    ensures EncodeScalars([], s) == []
  {
  }

  /** `front` before what a parse yields. */
  function After<T>(front: seq<T>, p: Parse<seq<T>>): Parse<seq<T>> {
    match p
    case Rejected => Rejected
    case Parsed(vs, rest) => Parsed(front + vs, rest)
  }

  lemma AfterNothing<T>(p: Parse<seq<T>>)
    ensures After([], p) == p
  {
    if p.Parsed? {
      assert [] + p.value == p.value;
    }
  }

  lemma AfterNext(front: seq<Scalar>, count: nat, s: ScalarType, input: seq<byte>)
    requires count > 0
    ensures |input| < ScalarSize(s) ==> DecodeScalars(count, s, input).Rejected?
    ensures |input| >= ScalarSize(s) ==>
              After(front, DecodeScalars(count, s, input)) ==
              After(front + [DecodeScalar(s, input[..ScalarSize(s)])],
                    DecodeScalars(count - 1, s, input[ScalarSize(s)..]))
  {
    hide DecodeScalar;
    if |input| >= ScalarSize(s) {
      var v, p := DecodeScalar(s, input[..ScalarSize(s)]), DecodeScalars(count - 1, s, input[ScalarSize(s)..]);
      if p.Parsed? {
        assert front + ([v] + p.value) == front + [v] + p.value;
      }
    }
  }

  lemma DecodeNoScalars(s: ScalarType, input: seq<byte>)
    ensures DecodeScalars(0, s, input) == Parsed([], input)
  {
  }

  /** `Codec<InlineArray<T, N>>::decode`. */
  method DecodeSpan(s: ScalarType, input: seq<byte>, out: InlineArray) returns (ok: bool, consumed: nat)
    requires out.Valid()
    modifies out, out.data
    ensures out.Valid() && consumed <= |input|
    ensures DecodeField(Span(s, out.N), input) ==
            if ok then Parsed(Many(out.Contents()), input[consumed..]) else Rejected
  {
    hide DecodeScalars, DecodeScalar;
    if |input| < 1 {
      return false, 0;
    }
    var count := input[0];
    if count > out.N {
      return false, 0;
    }
    var off := 1;
    out.Clear();
    ghost var whole := DecodeScalars(count, s, input[1..]);
    AfterNothing(whole);
    for i := 0 to count
      invariant out.Valid() && |out.Contents()| == i && 1 <= off <= |input|
      invariant whole == After(out.Contents(), DecodeScalars(count - i, s, input[off..]))
    {
      AfterNext(out.Contents(), count - i, s, input[off..]);
      var good, elem, c := DecodeScalarFrom(s, input[off..]);
      if !good {
        return false, 0;
      }
      assert input[off..][c..] == input[off + c..];
      off := off + c;
      var pushed := out.PushBack(elem);
    }
    DecodeNoScalars(s, input[off..]);
    assert out.Contents() + [] == out.Contents();
    return true, off;
  }

  // ------------------------------------------------------------------- whole fields

  /** `encode_one`: append one value, advancing `off`. */
  method EncodeOne(v: Value, t: FieldType, out: array<byte>, at: nat, cap: nat, off: nat) returns (ok: bool, off': nat)
    requires at + cap <= out.Length && off <= cap && FieldTyped(v, t)
    modifies out
    ensures ok == (off + |EncodeField(v, t)| <= cap)
    ensures ok ==> off' == off + |EncodeField(v, t)| && out[..] == Written(old(out[..]), at + off, EncodeField(v, t))
    ensures !ok ==> off' == off
    ensures SameOutside(out[..], old(out[..]), at + off, cap - off)
  {
    hide Written, SameOutside, EncodeScalars, EncodeScalar, ScalarTyped, Total;
    ghost var was := out[..];
    WrittenNothing(was, at + off);
    WrittenInside(was, at + off, [], cap - off);
    var written;
    match t {
      case One(s) =>
        ok, written := EncodeScalarInto(v.v, s, out, at + off, cap - off);
        if ok {
          WrittenInside(was, at + off, EncodeScalar(v.v, s), cap - off);
        }
      case Span(s, n) =>
        ok, written := EncodeSpan(v.vs, s, n, out, at + off, cap - off);
    }
    off' := if ok then off + written else off;
  }

  /** `decode_one`: read one value at `off`, advancing it. */
  method DecodeOne(t: FieldType, input: seq<byte>, off: nat) returns (ok: bool, v: Value, off': nat)
    requires off <= |input|
    ensures off <= off' <= |input| && (!ok ==> off' == off)
    ensures DecodeField(t, input[off..]) == if ok then Parsed(v, input[off'..]) else Rejected
  {
    hide DecodeScalars, DecodeScalar;
    ghost var view := input[off..];
    v, off' := Default(t), off;
    match t
    case One(s) =>
      var x, c;
      ok, x, c := DecodeScalarFrom(s, input[off..]);
      if ok {
        assert view[c..] == input[off + c..];
        v, off' := Single(x), off + c;
      }
    case Span(s, n) =>
      var a := new InlineArray(n);
      var c;
      ok, c := DecodeSpan(s, input[off..], a);
      if ok {
        assert view[c..] == input[off + c..];
        v, off' := Many(a.Contents()), off + c;
      }
  }

  // -------------------------------------------------------------------------- tuples

  lemma TypedSlices(vs: seq<Value>, ts: seq<FieldType>, i: nat)
    requires Typed(vs, ts) && i <= |ts|
    ensures Typed(vs[..i], ts[..i]) && Typed(vs[i..], ts[i..])
  {
  }

  lemma {:induction false} EncodeSplit(vs: seq<Value>, ts: seq<FieldType>, i: nat)
    requires Typed(vs, ts) && i <= |ts|
    ensures Typed(vs[..i], ts[..i]) && Typed(vs[i..], ts[i..])
    ensures Encode(vs, ts) == Encode(vs[..i], ts[..i]) + Encode(vs[i..], ts[i..])
    decreases i
  {
    hide FieldTyped, EncodeField;
    TypedSlices(vs, ts, i);
    if i == 0 {
      assert vs[0..] == vs && ts[0..] == ts;
      assert [] + Encode(vs, ts) == Encode(vs, ts);
    } else {
      TypedSlices(vs, ts, 1);
      SliceOfTail(vs, i);
      SliceOfTail(ts, i);
      hide Encode;
      EncodeSplit(vs[1..], ts[1..], i - 1);
      EncodeCons(vs, ts);
      EncodeCons(vs[..i], ts[..i]);
      Regroup(EncodeField(vs[0], ts[0]), Encode(vs[..i][1..], ts[..i][1..]), Encode(vs[i..], ts[i..]));
    }
  }

  lemma EncodeNext(vs: seq<Value>, ts: seq<FieldType>, i: nat)
    requires Typed(vs, ts) && i < |ts|
    ensures Typed(vs[..i], ts[..i]) && Typed(vs[..i + 1], ts[..i + 1])
    ensures Encode(vs[..i + 1], ts[..i + 1]) == Encode(vs[..i], ts[..i]) + EncodeField(vs[i], ts[i])
    ensures |Encode(vs[..i + 1], ts[..i + 1])| <= |Encode(vs, ts)|
  {
    hide FieldTyped, EncodeField;
    var fs, gs := vs[..i + 1], ts[..i + 1];
    TypedSlices(vs, ts, i + 1);
    EncodeSplit(fs, gs, i);
    EncodeSplit(vs, ts, i + 1);
    assert fs[..i] == vs[..i] && gs[..i] == ts[..i] && fs[i..] == [vs[i]] && gs[i..] == [ts[i]];
    EncodeCons([vs[i]], [ts[i]]);
    assert [vs[i]][1..] == [] && [ts[i]][1..] == [];
    assert EncodeField(vs[i], ts[i]) + [] == EncodeField(vs[i], ts[i]);
  }

  lemma EncodeNothing()
    ensures Encode([], []) == []
  {
  }

  /** The size of the fields before the first that does not fit. */
  function Fitting(vs: seq<Value>, ts: seq<FieldType>, cap: nat): (n: nat)
    requires Typed(vs, ts)
    ensures n <= cap
    decreases |ts|
  {
    if ts == [] then 0
    else
      var n := |EncodeField(vs[0], ts[0])|;
      if n > cap then 0 else n + Fitting(vs[1..], ts[1..], cap - n)
  }

  lemma FittingNext(vs: seq<Value>, ts: seq<FieldType>, i: nat, cap: nat)
    requires Typed(vs, ts) && i < |ts|
    ensures Typed(vs[i..], ts[i..]) && Typed(vs[i + 1..], ts[i + 1..])
    ensures var n := |EncodeField(vs[i], ts[i])|;
            Fitting(vs[i..], ts[i..], cap) == if n > cap then 0 else n + Fitting(vs[i + 1..], ts[i + 1..], cap - n)
  {
    hide EncodeField, FieldTyped;
    TypedSlices(vs, ts, i);
    TypedSlices(vs, ts, i + 1);
    assert vs[i..][1..] == vs[i + 1..] && ts[i..][1..] == ts[i + 1..];
  }

  /** What a failed encoder reports: the size of the longest run of fields from the
      front that fits, field `k` being the first that does not. */
  lemma {:induction false} FittingIsPrefix(vs: seq<Value>, ts: seq<FieldType>, cap: nat) returns (k: nat)
    requires Typed(vs, ts)
    ensures k <= |ts| && Typed(vs[..k], ts[..k]) && Fitting(vs, ts, cap) == |Encode(vs[..k], ts[..k])|
    ensures k < |ts| ==> Fitting(vs, ts, cap) + |EncodeField(vs[k], ts[k])| > cap
    decreases |ts|
  {
    hide EncodeField, FieldTyped;
    k := 0;
    if ts != [] {
      var n := |EncodeField(vs[0], ts[0])|;
      if n <= cap {
        var more := FittingIsPrefix(vs[1..], ts[1..], cap - n);
        k := more + 1;
        SliceOfTail(vs, k);
        SliceOfTail(ts, k);
        EncodeCons(vs[..k], ts[..k]);
      }
    }
  }

  lemma FittingNothing(cap: nat)
    ensures Fitting([], [], cap) == 0
  {
  }

  /** `encode_tuple`: the fold over the fields stops writing at the first that
      does not fit. */
  method EncodeTuple(vs: seq<Value>, ts: seq<FieldType>, out: array<byte>, at: nat, cap: nat)
    returns (ok: bool, written: nat)
    requires at + cap <= out.Length && Typed(vs, ts)
    modifies out
    ensures ok == (|Encode(vs, ts)| <= cap) && written == Fitting(vs, ts, cap)
    ensures ok ==> written == |Encode(vs, ts)| && out[..] == Written(old(out[..]), at, Encode(vs, ts))
    ensures SameOutside(out[..], old(out[..]), at, cap)
  {
    hide Written, SameOutside, Encode, EncodeField, FieldTyped, Fitting;
    ghost var was := out[..];
    var off: nat := 0;
    ok := true;
    EncodeNothing();
    WrittenNothing(was, at);
    WrittenInside(was, at, [], cap);
    assert vs[0..] == vs && ts[0..] == ts;
    for i := 0 to |ts|
      invariant off <= cap && SameOutside(out[..], was, at, cap)
      invariant Typed(vs[..i], ts[..i]) && Typed(vs[i..], ts[i..])
      invariant ok ==> off == |Encode(vs[..i], ts[..i])|
      invariant ok ==> out[..] == Written(was, at, Encode(vs[..i], ts[..i]))
      invariant !ok ==> |Encode(vs, ts)| > cap
      invariant Fitting(vs, ts, cap) == off + if ok then Fitting(vs[i..], ts[i..], cap - off) else 0
    {
      EncodeNext(vs, ts, i);
      FittingNext(vs, ts, i, cap - off);
      if ok {
        ghost var before, done, skipped := out[..], Encode(vs[..i], ts[..i]), off;
        ok, off := EncodeOne(vs[i], ts[i], out, at, cap, off);
        InsideInside(out[..], before, was, at, skipped, cap);
        if ok {
          WrittenTwice(was, at, done, EncodeField(vs[i], ts[i]));
        }
      }
    }
    assert vs[..|ts|] == vs && ts[..|ts|] == ts && vs[|ts|..] == [] && ts[|ts|..] == [];
    FittingNothing(cap - off);
    written := off;
  }

  lemma DecodeFieldsNext(front: seq<Value>, ts: seq<FieldType>, input: seq<byte>)
    requires ts != []
    ensures DecodeField(ts[0], input).Rejected? ==> DecodeFields(ts, input).Rejected?
    ensures var p := DecodeField(ts[0], input);
            p.Parsed? ==> After(front, DecodeFields(ts, input)) ==
                          After(front + [p.value], DecodeFields(ts[1..], p.rest))
  {
    hide DecodeField;
    var p := DecodeField(ts[0], input);
    if p.Parsed? {
      var q := DecodeFields(ts[1..], p.rest);
      if q.Parsed? {
        assert front + ([p.value] + q.value) == front + [p.value] + q.value;
      }
    }
  }

  lemma DecodeNoFields(input: seq<byte>)
    ensures DecodeFields([], input) == Parsed([], input)
  {
  }

  /** `decode_tuple`. */
  method DecodeTuple(ts: seq<FieldType>, input: seq<byte>) returns (r: Option<seq<Value>>)
    ensures r == Decode(ts, input)
  {
    hide DecodeFields, DecodeField;
    var off: nat, ok := 0, true;
    var values: seq<Value> := [];
    ghost var whole := DecodeFields(ts, input);
    AfterNothing(whole);
    assert ts[0..] == ts && input[0..] == input;
    for i := 0 to |ts|
      invariant off <= |input|
      invariant whole == if ok then After(values, DecodeFields(ts[i..], input[off..])) else Rejected
    {
      if ok {
        DecodeFieldsNext(values, ts[i..], input[off..]);
        assert ts[i..][1..] == ts[i + 1..];
        var v;
        ok, v, off := DecodeOne(ts[i], input, off);
        if ok {
          values := values + [v];
        }
      }
    }
    assert ts[|ts|..] == [];
    DecodeNoFields(input[off..]);
    assert values + [] == values;
    return if ok && off == |input| then Some(values) else None;
  }
}
