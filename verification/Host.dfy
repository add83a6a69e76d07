/** Calling a command from the host, and what it amounts to on the device. */
module Host {
  import opened Bytes
  import opened Codec
  import opened CodecBuffers
  import opened Framing
  import opened Command
  import opened Firmware
  import opened Tables

  /** The shared contract: opcode, argument types, result types. */
  datatype Contract = Contract(opcode: byte, args: seq<FieldType>, rets: seq<FieldType>) {
    /** What the compiler enforces on the host. */
    predicate WithinBudget() { TupleMaxSize(args) <= BUDGET }
  }

  /** What `call` returns: the mirror of the handler's return. */
  datatype CallResult = CallResult(status: StatusCode, results: seq<Value>)

  function Request(c: Contract, args: seq<Value>): (f: Frame)
    requires c.WithinBudget() && Typed(args, c.args)
    ensures Sendable(f)
  {
    SizeBudget(args, c.args);
    Frame(COMMAND, [c.opcode] + Encode(args, c.args))
  }

  /** How a reply, or the lack of one, is read. */
  function ReadReply(c: Contract, reply: Option<Frame>): (r: CallResult)
    ensures Typed(r.results, c.rets)
  {
    if reply.None? || reply.value.kind != REPLY || reply.value.payload == [] then
      CallResult(TRANSPORT_ERROR, Defaults(c.rets))
    else
      var status := reply.value.payload[0];
      if status != OK then CallResult(status, Defaults(c.rets))
      else match Decode(c.rets, reply.value.payload[1..])
           case None => CallResult(BAD_ARGUMENTS, Defaults(c.rets))
           case Some(rets) => CallResult(OK, rets)
  }

  // ---------------------------------------------------------------- transparency

  /** What the host reads back from the reply a device framed. */
  function Received(reply: Option<Frame>): Option<Frame> {
    if reply.None? || !Sendable(reply.value) then None
    else match DecodeRegion(Region(reply.value))
         case Accepted(f, _) => Some(f)
         case Refused(_, _) => None
  }

  /** A call over the wire: request packet, device, reply packet, result. */
  ghost function Remote<D(!new)>(table: seq<Entry<D>>, d: D, c: Contract, args: seq<Value>): (D, CallResult)
    requires WellFormedTable(table) && c.WithinBudget() && Typed(args, c.args)
  {
    var h := Handle(table, d, Packet(Request(c, args)));
    (h.state, ReadReply(c, Received(h.reply)))
  }

  lemma ReceivedIsSent(f: Frame)
    requires Sendable(f)
    ensures Received(Some(f)) == Some(f)
  {
    hide Region, DecodeRegion;
    FrameRoundTrip(f);
  }

  /** Everything between the two ends drops out of a call. */
  lemma RemoteIsAnswer<D(!new)>(table: seq<Entry<D>>, d: D, c: Contract, args: seq<Value>)
    requires WellFormedTable(table) && c.WithinBudget() && Typed(args, c.args)
    ensures var r := Answer(table, d, [c.opcode] + Encode(args, c.args), BUDGET);
            Remote(table, d, c, args) == (r.state, ReadReply(c, Some(Frame(REPLY, r.Payload()))))
  {
    hide Answer, Handle, Received, ReadReply, Packet, Encode, Typed;
    var payload := Request(c, args).payload;
    HandlePacket(table, d, payload);
    var r := Answer(table, d, payload, BUDGET);
    ReceivedIsSent(Frame(REPLY, r.Payload()));
  }

  /** Calling over the wire is calling the handler: the device ends in the state
      the handler left, and the host gets the handler's status with its results
      (with default results when the status is not Ok). */
  lemma RpcTransparency<D(!new)>(table: seq<Entry<D>>, d: D, c: Contract, e: Entry<D>, args: seq<Value>)
    requires WellFormedTable(table) && c.WithinBudget() && Typed(args, c.args)
    requires Find(table, c.opcode) == Some(e) && e.handler.args == c.args && e.handler.rets == c.rets
    ensures var o := e.handler.run(d, args);
            Remote(table, d, c, args) ==
            (o.state, CallResult(o.status, if o.status == OK then o.results else Defaults(c.rets)))
  {
    hide Remote, Answer, Encode, Decode, Typed;
    RemoteIsAnswer(table, d, c, args);
    AnswerIsHandler(table, d, e, args, BUDGET);
    var o := e.handler.run(d, args);
    assert WellFormed(e);
    TupleRoundTrip(o.results, c.rets);
    var reply := Reply(o.state, o.status, Encode(o.results, e.handler.rets));
    assert reply.Payload()[1..] == reply.results;
  }

  /** An opcode nobody registered: the device is untouched, the host is told. */
  lemma UnregisteredOpcode<D(!new)>(table: seq<Entry<D>>, d: D, c: Contract, args: seq<Value>)
    requires WellFormedTable(table) && c.WithinBudget() && Typed(args, c.args)
    requires forall e :: e in table ==> e.opcode != c.opcode
    ensures Remote(table, d, c, args) == (d, CallResult(UNKNOWN_COMMAND, Defaults(c.rets)))
  {
    hide Remote, Encode, Decode, Typed;
    RemoteIsAnswer(table, d, c, args);
  }

  // ------------------------------------------------------- reading a reply, in numbers

  /** How a reply is read: 5 when there is none to read, the device's status when that
      is not 0, 2 when the results cannot be read, and 0 with the results otherwise;
      in all but the last case with default results. */
  lemma ReadsExactly(c: Contract, reply: Option<Frame>)
    ensures reply.None? || reply.value.kind != 2 || reply.value.payload == [] ==>
              ReadReply(c, reply) == CallResult(5, Defaults(c.rets))
    ensures reply.Some? && reply.value.kind == 2 && reply.value.payload != [] ==>
              var status, rets := reply.value.payload[0], Decode(c.rets, reply.value.payload[1..]);
              ReadReply(c, reply) ==
              if status != 0 then CallResult(status, Defaults(c.rets))
              else if rets.None? then CallResult(2, Defaults(c.rets))
              else CallResult(0, rets.value)
  {
    hide Decode, Defaults;
  }

  /** Without booleans the host is told Ok exactly if the device said 0 and what
      follows is the encoding of some results; fixed-size results of any other size
      are told apart as 2. */
  lemma OkExactly(c: Contract, status: byte, body: seq<byte>)
    ensures (forall i :: 0 <= i < |c.rets| ==> !HasBool(c.rets[i])) ==>
              (ReadReply(c, Some(Frame(2, [status] + body))).status == 0
               <==> status == 0 && exists vs: seq<Value> :: Typed(vs, c.rets) && Encode(vs, c.rets) == body)
    ensures FixedSize(c.rets) && status == 0 ==>
              ReadReply(c, Some(Frame(2, [status] + body))).status ==
              if |body| == TupleMaxSize(c.rets) then 0 else 2
  {
    hide Encode, Decode, Typed, Defaults, ReadReply, TupleMaxSize;
    ReadsExactly(c, Some(Frame(2, [status] + body)));
    TailOf(status, body);
    if forall i :: 0 <= i < |c.rets| ==> !HasBool(c.rets[i]) {
      AcceptedExactly(c.rets, body);
    }
    if FixedSize(c.rets) {
      FixedReadExactly(c.rets, body);
    }
  }

  /** A request on the wire: type 1, opcode, arguments. */
  lemma RequestLayout(c: Contract, args: seq<Value>)
    requires 1 + TupleMaxSize(c.args) <= 250 && Typed(args, c.args)
    ensures c.WithinBudget() && Request(c, args) == Frame(1, [c.opcode] + Encode(args, c.args))
  {
  }

  // ------------------------------------------------------------ another call's reply

  /** The reply to a call: status, then results. */
  datatype Answered = Answered(c: Contract, status: StatusCode, results: seq<Value>) {
    predicate Valid() { Typed(results, c.rets) }

    function Reply(): Frame
      requires Valid()
    {
      Frame(REPLY, [status] + Encode(results, c.rets))
    }
  }

  /** What a caller makes of the reply to another call: its own, if the status is not
      Ok or the result types agree; and otherwise whatever its bytes happen to say. */
  lemma ReadsAnothers(c: Contract, a: Answered)
    requires a.Valid()
    ensures var r := ReadReply(c, Some(a.Reply()));
            && (a.status != OK ==> r == CallResult(a.status, Defaults(c.rets)))
            && (a.status == OK && c.rets == a.c.rets ==> r == CallResult(OK, a.results))
            && (a.status == OK && |Encode(a.results, a.c.rets)| == TupleMaxSize(c.rets) && FixedSize(c.rets) ==>
                  r.status == OK)
  {
    hide Encode, Decode, Typed, TupleMaxSize;
    var bytes := Encode(a.results, a.c.rets);
    assert a.Reply().payload[1..] == bytes;
    TupleRoundTrip(a.results, a.c.rets);
    if |bytes| == TupleMaxSize(c.rets) && FixedSize(c.rets) {
      FixedDecodes(c.rets, bytes);
    }
  }

  // ------------------------------------------------------------------ the transport

  /** A serial link to a device in the same process. A link that is down loses
      what is sent. */
  class SerialLink<D(!new)> {
    const table: seq<Entry<D>>
    const replyWire: array<byte>
    var device: D
    var replyLen: nat
    var up: bool

    ghost predicate Valid()
      reads this
    {
      WellFormedTable(table) && replyWire.Length == MAX_PACKET && replyLen <= MAX_PACKET
    }

    constructor (t: seq<Entry<D>>, d: D, u: bool)
      requires WellFormedTable(t)
      ensures Valid() && fresh(replyWire) && table == t && device == d && up == u
    {
      table, device, replyLen, up := t, d, 0, u;
      replyWire := new byte[MAX_PACKET](_ => 0);
    }

    /** The reply packet waiting to be collected is `r`'s, or there is none. */
    ghost predicate Holds(r: Option<Frame>)
      reads this, replyWire
      requires Valid()
    {
      if r.None? then replyLen == 0
      else Sendable(r.value) && replyLen > 0 && replyWire[..replyLen] == Packet(r.value)
    }

    method SendCommand(wire: seq<byte>) returns (sent: bool)
      requires Valid()
      modifies this`device, this`replyLen, replyWire
      ensures Valid()
      ensures device == if up then Handle(table, old(device), wire).state else old(device)
      ensures var r := Handle(table, old(device), wire).reply;
              && sent == (up && r.Some? && Sendable(r.value))
              && (sent ==> Holds(r))
      ensures if up then !sent ==> Holds(None) else unchanged(this, replyWire)
    {
      hide Handle, Packet;
      if !up {
        return false;
      }
      var len, state := DeviceHandlePacket(table, device, wire, replyWire, MAX_PACKET);
      replyLen, device := len, state;
      return replyLen > 0;
    }

    /** Collect the reply; `out` is what `decode_region` makes of it. */
    method AwaitReply(out: FrameBuffer, ghost r: Option<Frame>) returns (ok: bool)
      requires Valid() && Holds(r) && out.Valid() && out.payload != replyWire
      modifies this`replyLen, out`kind, out`length, out.payload
      ensures Valid() && out.Valid() && ok == Received(r).Some? && Holds(None)
      ensures if ok then out.View() == Received(r).value else unchanged(out, out.payload)
    {
      hide DecodeRegion, Region;
      if replyLen == 0 {
        return false;
      }
      PacketIsRegion(r.value);
      assert replyWire[..replyLen - 1] == Packet(r.value)[..replyLen - 1];
      var status, crc := DecodeRegionInto(replyWire[..replyLen - 1], out);
      replyLen := 0;
      return status == FrameStatus.Ok;
    }
  }

  lemma PacketIsRegion(f: Frame)
    requires Sendable(f)
    ensures Packet(f)[..|Packet(f)| - 1] == Region(f)
  {
    hide Region;
  }

  /** The first step of `call`: opcode and arguments, framed for the wire. */
  method FrameRequest(c: Contract, args: seq<Value>) returns (enc: FrameStatus, wire: array<byte>, wlen: nat)
    requires c.WithinBudget() && Typed(args, c.args)
    ensures enc == FrameStatus.Ok && fresh(wire) && wlen <= wire.Length && wire[..wlen] == Packet(Request(c, args))
  {
    hide Encode, Typed, Packet, Written;
    SizeBudget(args, c.args);
    var payload := new byte[MAX_PAYLOAD];
    payload[0] := c.opcode;
    ghost var before, data := payload[..], Encode(args, c.args);
    assert before[..1] == [c.opcode];
    var fits, argLen := EncodeTuple(args, c.args, payload, 1, MAX_PAYLOAD - 1);
    WrittenPrefix(before, 1, data);
    assert payload[..1 + argLen] == payload[..][..1 + argLen] == [c.opcode] + data;
    wire := new byte[MAX_PACKET];
    enc, wlen := EncodeFrame(COMMAND, payload[..1 + argLen], wire, MAX_PACKET);
  }

  /** `call`. */
  method Call<D(!new)>(link: SerialLink<D>, c: Contract, args: seq<Value>) returns (r: CallResult)
    requires link.Valid() && c.WithinBudget() && Typed(args, c.args)
    modifies link`device, link`replyLen, link.replyWire
    ensures link.Valid()
    ensures link.up ==> (link.device, r) == Remote(link.table, old(link.device), c, args)
    ensures !link.up ==> link.device == old(link.device) && r == CallResult(TRANSPORT_ERROR, Defaults(c.rets))
  {
    hide Encode, Typed, Handle, Packet, Answer, DecodeRegion, ReadReply, Defaults;
    var enc, wire, wlen := FrameRequest(c, args);
    ghost var request := Request(c, args);
    HandlePacket(link.table, link.device, request.payload);
    ghost var h := Handle(link.table, link.device, Packet(request));
    var sent := false;
    if enc == FrameStatus.Ok {
      sent := link.SendCommand(wire[..wlen]);
    }
    if !sent {
      return CallResult(TRANSPORT_ERROR, Defaults(c.rets));
    }
    var reply := new FrameBuffer();
    var got := link.AwaitReply(reply, h.reply);
    r := ParseReply(c, got, reply);
  }

  /** The last step of `call`: the reply frame, if one came, read into a result. */
  method ParseReply(c: Contract, got: bool, reply: FrameBuffer) returns (r: CallResult)
    requires reply.Valid()
    ensures r == ReadReply(c, if got then Some(reply.View()) else None)
  {
    hide Decode, Typed, Defaults;
    if !got || reply.kind != REPLY || reply.length < 1 {
      return CallResult(TRANSPORT_ERROR, Defaults(c.rets));
    }
    var status := reply.payload[0];
    if status == OK {
      assert reply.payload[1..reply.length] == reply.View().payload[1..];
      var rets := DecodeTuple(c.rets, reply.payload[1..reply.length]);
      if rets.None? {
        return CallResult(BAD_ARGUMENTS, Defaults(c.rets));
      }
      return CallResult(OK, rets.value);
    }
    return CallResult(status, Defaults(c.rets));
  }
}
