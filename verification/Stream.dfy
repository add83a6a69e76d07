/** One-way stream packets: opcode, a 32-bit counter, then typed fields. */
module Stream {
  import opened Bytes
  import opened Codec
  import opened CodecBuffers
  import opened Framing
  import opened Tables

  const COUNTER_SIZE := 4
  const HEADER := 1 + COUNTER_SIZE

  /** `std::uint32_t`. */
  type counter = n: nat | n < 0x1_0000_0000

  datatype StreamDef = StreamDef(opcode: byte, fields: seq<FieldType>) {
    predicate WithinBudget() { HEADER + TupleMaxSize(fields) <= MAX_PAYLOAD }
  }

  /** A handler; calling it turns the consumer's state into another. */
  datatype Handler<!D> = Handler(fields: seq<FieldType>, run: (D, counter, seq<Value>) -> D)

  type Entry<!D> = Row<Handler<D>>

  const COUNTER_TYPE := FieldType.One(Unsigned(4))

  // -------------------------------------------------------------- specification

  /** What follows the opcode: the counter is just a first field. */
  function Body(n: counter, fields: seq<FieldType>, vs: seq<Value>): seq<byte>
    requires Typed(vs, fields)
  {
    CounterTyped(n);
    EncodeField(Single(Number(n)), COUNTER_TYPE) + Encode(vs, fields)
  }

  lemma CounterTyped(n: counter)
    ensures FieldTyped(Single(Number(n)), COUNTER_TYPE)
  {
    assert Radix(4) == 256 * (256 * (256 * (256 * Radix(0))));
  }

  function StreamFrame(def: StreamDef, n: counter, vs: seq<Value>): (f: Frame)
    requires def.WithinBudget() && Typed(vs, def.fields)
    ensures Sendable(f)
  {
    SizeBudget(vs, def.fields);
    CounterTyped(n);
    Frame(STREAM, [def.opcode] + Body(n, def.fields, vs))
  }

  datatype Message = Message(n: counter, vs: seq<Value>)

  /** Counter, then fields to the last byte. */
  function ReadBody(fields: seq<FieldType>, body: seq<byte>): Option<Message> {
    match DecodeField(COUNTER_TYPE, body)
    case Rejected => None
    case Parsed(v, rest) =>
      CounterRange();
      match Decode(fields, rest)
      case None => None
      case Some(vs) => Some(Message(v.v.n, vs))
  }

  lemma CounterRange()
    ensures Radix(4) == 0x1_0000_0000
  {
    assert Radix(4) == 256 * (256 * (256 * (256 * Radix(0))));
  }

  datatype Delivery<D> = Delivery(ok: bool, state: D)

  /** Type and opcode aside, a frame reaches at most one handler, at most once. */
  function Deliver<D>(table: seq<Entry<D>>, d: D, f: Frame): Delivery<D> {
    if f.payload == [] then Delivery(false, d)
    else match Find(table, f.payload[0])
         case None => Delivery(false, d)
         case Some(e) =>
           match ReadBody(e.handler.fields, f.payload[1..])
           case None => Delivery(false, d)
           case Some(m) => Delivery(true, e.handler.run(d, m.n, m.vs))
  }

  // ------------------------------------------------------------------ properties

  lemma BodyRoundTrip(n: counter, fields: seq<FieldType>, vs: seq<Value>)
    requires Typed(vs, fields)
    ensures ReadBody(fields, Body(n, fields, vs)) == Some(Message(n, vs))
  {
    hide Encode, Decode, EncodeField, DecodeField, Typed;
    CounterTyped(n);
    FieldRoundTrip(Single(Number(n)), COUNTER_TYPE, Encode(vs, fields));
    TupleRoundTrip(vs, fields);
  }

  /** A packet written under a contract and received is delivered to the first
      handler registered for its opcode, once, with the same counter and fields. */
  lemma StreamDelivered<D>(table: seq<Entry<D>>, d: D, def: StreamDef, e: Entry<D>, n: counter, vs: seq<Value>)
    requires def.WithinBudget() && Typed(vs, def.fields)
    requires Find(table, def.opcode) == Some(e) && e.handler.fields == def.fields
    ensures var v := DecodeRegion(Region(StreamFrame(def, n, vs)));
            && v.Accepted? && v.frame.kind == STREAM
            && Deliver(table, d, v.frame) == Delivery(true, e.handler.run(d, n, vs))
  {
    hide Body, ReadBody, Region, DecodeRegion, Typed;
    var f := StreamFrame(def, n, vs);
    FrameRoundTrip(f);
    BodyRoundTrip(n, def.fields, vs);
    assert f.payload[1..] == Body(n, def.fields, vs);
  }

  /** What a body may be for its handler to run: exactly the encodings, up to the
      spelling of booleans. */
  lemma ReadBodyExactly(fields: seq<FieldType>, body: seq<byte>, n: counter, vs: seq<Value>)
    requires forall i :: 0 <= i < |fields| ==> !HasBool(fields[i])
    ensures ReadBody(fields, body) == Some(Message(n, vs)) <==> Typed(vs, fields) && Body(n, fields, vs) == body
  {
    hide Encode, Decode, EncodeField, DecodeField, Typed, Clean;
    if Typed(vs, fields) && Body(n, fields, vs) == body {
      BodyRoundTrip(n, fields, vs);
    }
    if ReadBody(fields, body) == Some(Message(n, vs)) {
      var rest := DecodeField(COUNTER_TYPE, body).rest;
      FieldCanonical(COUNTER_TYPE, body);
      NoBoolIsClean(fields, rest);
      CanonicalExactly(fields, rest);
      CounterIs(DecodeField(COUNTER_TYPE, body).value);
    }
  }

  lemma CounterIs(v: Value)
    requires FieldTyped(v, COUNTER_TYPE)
    ensures v == Single(Number(v.v.n))
  {
  }

  // ----------------------------------------------------------- the format, in numbers

  /** The counter in four bytes, the low one first. */
  lemma CounterBytes(n: counter)
    ensures FieldTyped(Single(Number(n)), COUNTER_TYPE) && |EncodeField(Single(Number(n)), COUNTER_TYPE)| == 4
    ensures var e := EncodeField(Single(Number(n)), COUNTER_TYPE);
            e[0] as int + 0x100 * e[1] as int + 0x1_0000 * e[2] as int + 0x100_0000 * e[3] as int == n
  {
    hide EncodeField;
    CounterSize(n);
    CounterDigit(n, 0, 1);
    CounterDigit(n, 1, 0x100);
    CounterDigit(n, 2, 0x1_0000);
    CounterDigit(n, 3, 0x100_0000);
    FourDigits(n);
  }

  lemma CounterSize(n: counter)
    ensures FieldTyped(Single(Number(n)), COUNTER_TYPE) && |EncodeField(Single(Number(n)), COUNTER_TYPE)| == 4
  {
    CounterTyped(n);
  }

  lemma CounterDigit(n: counter, i: nat, weight: nat)
    requires (i, weight) in {(0, 1), (1, 0x100), (2, 0x1_0000), (3, 0x100_0000)}
    ensures FieldTyped(Single(Number(n)), COUNTER_TYPE) && |EncodeField(Single(Number(n)), COUNTER_TYPE)| == 4
    ensures EncodeField(Single(Number(n)), COUNTER_TYPE)[i] == n / weight % 256
  {
    hide EncodeScalar, Radix;
    CounterTyped(n);
    ScalarDigit(Number(n), Unsigned(4), i);
    Radices();
    ThirdRadix();
  }

  lemma FourDigits(n: counter)
    ensures n / 1 % 256 + 0x100 * (n / 0x100 % 256)
            + 0x1_0000 * (n / 0x1_0000 % 256) + 0x100_0000 * (n / 0x100_0000 % 256) == n
  {
    var a, b := n / 0x100, n / 0x1_0000;
    assert a / 0x100 == b && b / 0x100 == n / 0x100_0000;
  }

  /** A stream frame: type 3, opcode, the counter in four bytes with its low byte first,
      and the fields. */
  lemma FrameLayout(def: StreamDef, n: counter, vs: seq<Value>)
    requires 5 + TupleMaxSize(def.fields) <= 250 && Typed(vs, def.fields)
    ensures def.WithinBudget()
    ensures var f := StreamFrame(def, n, vs);
            var p := f.payload;
            && f.kind == 3 && |p| == 5 + |Encode(vs, def.fields)| && p[0] == def.opcode
            && p[1] as int + 0x100 * p[2] as int + 0x1_0000 * p[3] as int + 0x100_0000 * p[4] as int == n
            && p[5..] == Encode(vs, def.fields)
  {
    hide Encode, EncodeField, Typed, TupleMaxSize;
    CounterBytes(n);
  }

  lemma ThirdRadix()
    ensures Radix(3) == 0x100_0000
  {
    assert Radix(3) == 256 * (256 * (256 * Radix(0)));
  }

  /** What reaches no handler, and leaves the consumer as it was: no opcode, one nobody
      registered, or a body that is not read; everything else reaches the first. */
  lemma DeliveredExactly<D>(table: seq<Entry<D>>, d: D, f: Frame)
    ensures (f.payload == [] || forall e :: e in table ==> e.opcode != f.payload[0]) ==>
              Deliver(table, d, f) == Delivery(false, d)
    ensures f.payload != [] && Find(table, f.payload[0]).Some? ==>
              var e := Find(table, f.payload[0]).value;
              match ReadBody(e.handler.fields, f.payload[1..])
              case None => Deliver(table, d, f) == Delivery(false, d)
              case Some(m) => Deliver(table, d, f) == Delivery(true, e.handler.run(d, m.n, m.vs))
  {
    hide ReadBody;
  }

  /** With fixed-size fields a body is read exactly if it has four bytes more than
      they take. */
  lemma FixedBodyExactly(fields: seq<FieldType>, body: seq<byte>)
    requires FixedSize(fields)
    ensures ReadBody(fields, body).Some? <==> |body| == 4 + TupleMaxSize(fields)
  {
    hide Decode, TupleMaxSize;
    if |body| >= 4 {
      FixedReadExactly(fields, body[4..]);
    }
  }

  // --------------------------------------------------------------------- methods

  /** `StreamWriter`: the output buffer is fixed at construction. */
  class StreamWriter {
    const out: array<byte>
    const cap: nat

    ghost predicate Valid() { cap <= out.Length }

    constructor (o: array<byte>, c: nat)
      requires c <= o.Length
      ensures Valid() && out == o && cap == c
    {
      out, cap := o, c;
    }

    /** `write`. A 256-byte buffer always suffices, and the payload length always
        fits its byte. */
    method Write(def: StreamDef, n: counter, vs: seq<Value>) returns (status: FrameStatus, len: nat)
      requires Valid() && def.WithinBudget() && Typed(vs, def.fields)
      modifies out
      ensures var f := StreamFrame(def, n, vs);
              status == (if cap < |f.payload| + 6 then BufferTooSmall else FrameStatus.Ok)
              && (status == FrameStatus.Ok ==> len == |f.payload| + 6 && out[..len] == Packet(f))
      ensures cap >= MAX_PACKET ==> status == FrameStatus.Ok
      ensures status != FrameStatus.Ok ==> len == 0
      ensures forall i :: (if status == FrameStatus.Ok then len else cap) <= i < out.Length ==> out[i] == old(out[i])
    {
      hide Encode, EncodeField, Typed, Packet, Written;
      var payload := new byte[MAX_PAYLOAD];
      payload[0] := def.opcode;
      CounterTyped(n);
      SizeBudget(vs, def.fields);
      ghost var counterBytes, fieldBytes := EncodeField(Single(Number(n)), COUNTER_TYPE), Encode(vs, def.fields);
      FieldSize(Single(Number(n)), COUNTER_TYPE);
      ghost var blank := payload[..];
      assert blank[..1] == [def.opcode];
      var fits, off := EncodeOne(Single(Number(n)), COUNTER_TYPE, payload, 0, MAX_PAYLOAD, 1);
      if !fits {
        assert false;  // the budget leaves room for every counter
      }
      WrittenPrefix(blank, 1, counterBytes);
      ghost var before := payload[..];
      var fieldsFit, fieldsWritten := EncodeTuple(vs, def.fields, payload, off, MAX_PAYLOAD - off);
      if !fieldsFit {
        assert false;  // and for every tuple of fields
      }
      WrittenPrefix(before, off, fieldBytes);
      Regroup([def.opcode], counterBytes, fieldBytes);
      assert payload[..off + fieldsWritten] == payload[..][..off + fieldsWritten];
      off := off + fieldsWritten;
      status, len := EncodeFrame(STREAM, payload[..off], out, cap);
    }
  }

  /** `stream_thunk`. */
  method StreamThunk<D>(e: Entry<D>, d: D, body: seq<byte>) returns (ok: bool, d': D)
    ensures match ReadBody(e.handler.fields, body)
            case None => !ok && d' == d
            case Some(m) => ok && d' == e.handler.run(d, m.n, m.vs)
  {
    hide Decode, DecodeField;
    CounterRange();
    assert body[0..] == body;
    var good, v, off := DecodeOne(COUNTER_TYPE, body, 0);
    if !good {
      return false, d;
    }
    var fields := DecodeTuple(e.handler.fields, body[off..]);
    if fields.None? {
      return false, d;
    }
    return true, e.handler.run(d, v.v.n, fields.value);
  }

  /** `dispatch_stream` of stream.hpp. */
  method DispatchStream<D>(table: seq<Entry<D>>, d: D, f: Frame) returns (ok: bool, d': D)
    ensures Deliver(table, d, f) == Delivery(ok, d')
  {
    hide ReadBody;
    if |f.payload| < 1 {
      return false, d;
    }
    var opcode := f.payload[0];
    assert table[0..] == table;
    for i := 0 to |table|
      invariant Find(table, opcode) == Find(table[i..], opcode)
    {
      FindFrom(table, opcode, i);
      if table[i].opcode == opcode {
        ok, d' := StreamThunk(table[i], d, f.payload[1..]);
        return;
      }
    }
    return false, d;
  }
}
