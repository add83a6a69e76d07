/** Device-side command dispatch: a table of handlers, each behind a thunk that
    decodes its arguments and encodes its results. */
module Command {
  import opened Bytes
  import opened Codec
  import opened CodecBuffers
  import opened Framing
  import opened Tables

  type StatusCode = byte

  const OK: StatusCode := 0
  const UNKNOWN_COMMAND: StatusCode := 1
  const BAD_ARGUMENTS: StatusCode := 2
  const REPLY_TOO_LARGE: StatusCode := 3
  const TRANSPORT_ERROR: StatusCode := 5

  /** Arguments and results share their payload with a one-byte prefix. */
  const BUDGET := MAX_PAYLOAD - 1

  /** What a handler leaves behind: the device's state, a status, the results. */
  datatype Outcome<D> = Outcome(state: D, status: StatusCode, results: seq<Value>)

  /** A handler, which may use and change the device's state `D`. */
  datatype Handler<!D> = Handler(args: seq<FieldType>, rets: seq<FieldType>, run: (D, seq<Value>) -> Outcome<D>)

  type Entry<!D> = Row<Handler<D>>

  /** What the compiler enforces when a handler is registered. */
  ghost predicate WellFormed<D(!new)>(e: Entry<D>) {
    && TupleMaxSize(e.handler.args) <= BUDGET && TupleMaxSize(e.handler.rets) <= BUDGET
    && forall d: D, vs: seq<Value> :: Typed(vs, e.handler.args) ==> Typed(e.handler.run(d, vs).results, e.handler.rets)
  }

  ghost predicate WellFormedTable<D(!new)>(table: seq<Entry<D>>) {
    forall i :: 0 <= i < |table| ==> WellFormed(table[i])
  }

  // -------------------------------------------------------------- specification

  /** A reply: the new device state, and the payload sent back. */
  datatype Reply<D> = Reply(state: D, status: StatusCode, results: seq<byte>) {
    function Payload(): seq<byte> { [status] + results }
  }

  /** Running one registered command on argument bytes, `cap` bytes being
      available for its results. */
  ghost function RunThunk<D(!new)>(e: Entry<D>, d: D, args: seq<byte>, cap: nat): Reply<D>
    requires WellFormed(e)
  {
    match Decode(e.handler.args, args)
    case None => Reply(d, BAD_ARGUMENTS, [])
    case Some(vs) =>
      var o := e.handler.run(d, vs);
      var bytes := Encode(o.results, e.handler.rets);
      if |bytes| > cap then Reply(o.state, REPLY_TOO_LARGE, []) else Reply(o.state, o.status, bytes)
  }

  /** The answer to a command payload: opcode first, arguments behind it. */
  ghost function Answer<D(!new)>(table: seq<Entry<D>>, d: D, payload: seq<byte>, cap: nat): Reply<D>
    requires WellFormedTable(table)
  {
    if payload == [] || Find(table, payload[0]).None? then Reply(d, UNKNOWN_COMMAND, [])
    else RunThunk(Find(table, payload[0]).value, d, payload[1..], cap)
  }

  // ------------------------------------------------------------------ properties

  /** With the compile-time budget met, results always fit a reply. */
  lemma ResultsFit<D(!new)>(e: Entry<D>, d: D, vs: seq<Value>)
    requires WellFormed(e) && Typed(vs, e.handler.args)
    ensures |Encode(e.handler.run(d, vs).results, e.handler.rets)| <= BUDGET
  {
    SizeBudget(e.handler.run(d, vs).results, e.handler.rets);
  }

  /** A registered command on its own arguments: the handler's outcome, unaltered. */
  lemma AnswerIsHandler<D(!new)>(table: seq<Entry<D>>, d: D, e: Entry<D>, vs: seq<Value>, cap: nat)
    requires WellFormedTable(table) && Find(table, e.opcode) == Some(e) && Typed(vs, e.handler.args) && cap >= BUDGET
    ensures WellFormed(e)
    ensures var o := e.handler.run(d, vs);
            Answer(table, d, [e.opcode] + Encode(vs, e.handler.args), cap) ==
            Reply(o.state, o.status, Encode(o.results, e.handler.rets))
  {
    hide Encode, Decode, Typed;
    var payload := [e.opcode] + Encode(vs, e.handler.args);
    assert payload[1..] == Encode(vs, e.handler.args);
    assert WellFormed(e);
    TupleRoundTrip(vs, e.handler.args);
    ResultsFit(e, d, vs);
  }

  /** Every answer fits one payload, whatever was asked. */
  lemma AnswerFits<D(!new)>(table: seq<Entry<D>>, d: D, payload: seq<byte>, cap: nat)
    requires WellFormedTable(table)
    ensures |Answer(table, d, payload, cap).results| <= BUDGET
    ensures |Answer(table, d, payload, cap).results| <= cap
  {
    hide Encode, Decode;
    if payload != [] && Find(table, payload[0]).Some? {
      var e := Find(table, payload[0]).value;
      assert WellFormed(e);
      if Decode(e.handler.args, payload[1..]).Some? {
        ResultsFit(e, d, Decode(e.handler.args, payload[1..]).value);
      }
    }
  }

  // ------------------------------------------------------------ refusals, in numbers

  /** What may be registered: arguments and results of at most 249 bytes each, and a
      handler whose results are of the types it declares. */
  lemma RegistrableExactly<D(!new)>(e: Entry<D>)
    ensures WellFormed(e) <==>
            && TupleMaxSize(e.handler.args) <= 249 && TupleMaxSize(e.handler.rets) <= 249
            && forall d: D, vs: seq<Value> ::
                 Typed(vs, e.handler.args) ==> Typed(e.handler.run(d, vs).results, e.handler.rets)
  {
  }

  /** What a payload is answered when no handler's results are: 1 for an opcode nobody
      registered or none at all, 2 for arguments the first handler registered under it
      cannot be given, and then the device is left alone; 3, and the state the handler
      left, for results that do not fit. */
  lemma Refusals<D(!new)>(table: seq<Entry<D>>, d: D, payload: seq<byte>, cap: nat)
    requires WellFormedTable(table)
    ensures var r := Answer(table, d, payload, cap);
            (payload == [] || forall e :: e in table ==> e.opcode != payload[0]) ==> r.Payload() == [1] && r.state == d
    ensures var r := Answer(table, d, payload, cap);
            payload != [] && Find(table, payload[0]).Some? ==>
              var e := Find(table, payload[0]).value;
              && (Decode(e.handler.args, payload[1..]).None? ==> r.Payload() == [2] && r.state == d)
              && (Decode(e.handler.args, payload[1..]).Some? ==>
                    var o := e.handler.run(d, Decode(e.handler.args, payload[1..]).value);
                    && r.state == o.state && Typed(o.results, e.handler.rets)
                    && r.Payload() == if |Encode(o.results, e.handler.rets)| > cap then [3]
                                      else [o.status] + Encode(o.results, e.handler.rets))
  {
    hide Encode, Decode, Typed;
    NothingBehind<byte>([1]);
    NothingBehind<byte>([2]);
    NothingBehind<byte>([3]);
    if payload != [] && Find(table, payload[0]).Some? {
      assert WellFormed(Find(table, payload[0]).value);
    }
  }

  /** Arguments are refused if there are too few or too many bytes of them, where
      their sizes are fixed; and, unless booleans are among them, exactly if they are
      nobody's encoding. */
  lemma BadArguments<D(!new)>(table: seq<Entry<D>>, d: D, e: Entry<D>, args: seq<byte>, cap: nat)
    requires WellFormedTable(table) && Find(table, e.opcode) == Some(e)
    requires || (FixedSize(e.handler.args) && |args| != TupleMaxSize(e.handler.args))
             || ((forall i :: 0 <= i < |e.handler.args| ==> !HasBool(e.handler.args[i]))
                 && forall vs: seq<Value> :: Typed(vs, e.handler.args) ==> Encode(vs, e.handler.args) != args)
    ensures Answer(table, d, [e.opcode] + args, cap).Payload() == [2]
    ensures Answer(table, d, [e.opcode] + args, cap).state == d
  {
    hide Encode, Decode, Typed, Answer, TupleMaxSize;
    Refusals(table, d, [e.opcode] + args, cap);
    TailOf(e.opcode, args);
    if FixedSize(e.handler.args) && |args| != TupleMaxSize(e.handler.args) {
      FixedReadExactly(e.handler.args, args);
    } else {
      AcceptedExactly(e.handler.args, args);
    }
  }

  // --------------------------------------------------------------------- methods

  /** `find_entry`. */
  method FindEntry<D>(table: seq<Entry<D>>, opcode: byte) returns (r: Option<Entry<D>>)
    ensures r == Find(table, opcode)
  {
    assert table[0..] == table;
    for i := 0 to |table|
      invariant Find(table, opcode) == Find(table[i..], opcode)
    {
      FindFrom(table, opcode, i);
      if table[i].opcode == opcode {
        return Some(table[i]);
      }
    }
    return None;
  }

  /** `write_status_only`. */
  method WriteStatusOnly(status: StatusCode, reply: array<byte>, replyCap: nat) returns (ok: bool, replyLen: byte)
    requires replyCap <= reply.Length
    modifies reply
    ensures ok == (replyCap >= 1)
    ensures ok ==> replyLen == 1 && reply[..] == old(reply[..])[0 := status]
    ensures !ok ==> replyLen == 0 && reply[..] == old(reply[..])
  {
    if replyCap < 1 {
      return false, 0;
    }
    reply[0] := status;
    return true, 1;
  }

  /** `dispatch_thunk`: decode, call once, encode the results after `reply[at]`. */
  method DispatchThunk<D(!new)>(e: Entry<D>, d: D, args: seq<byte>, reply: array<byte>, at: nat, replyCap: nat)
    returns (status: StatusCode, replyLen: nat, d': D)
    requires WellFormed(e) && at + replyCap <= reply.Length
    modifies reply
    ensures var r := RunThunk(e, d, args, replyCap);
            d' == r.state && status == r.status && replyLen == |r.results| <= replyCap
            && reply[at..at + replyLen] == r.results
    ensures SameOutside(reply[..], old(reply[..]), at, replyCap)
  {
    hide Decode, Encode, Typed, Written;
    d' := d;
    var a := DecodeTuple(e.handler.args, args);
    if a.None? {
      return BAD_ARGUMENTS, 0, d;
    }
    var result := e.handler.run(d, a.value);
    var fits, written := EncodeTuple(result.results, e.handler.rets, reply, at, replyCap);
    if !fits {
      return REPLY_TOO_LARGE, 0, result.state;
    }
    WrittenView(old(reply[..]), at, Encode(result.results, e.handler.rets));
    assert reply[at..at + written] == reply[..][at..at + written];
    return result.status, written, result.state;
  }

  /** `dispatch`. The length cast to a byte loses nothing, because registered
      results are within budget however large the caller's buffer is. */
  method Dispatch<D(!new)>(table: seq<Entry<D>>, d: D, cmd: Frame, reply: array<byte>, replyCap: nat)
    returns (ok: bool, replyLen: byte, d': D)
    requires WellFormedTable(table) && replyCap <= reply.Length
    modifies reply
    ensures ok == (replyCap >= 1)
    ensures ok ==> var r := Answer(table, d, cmd.payload, replyCap - 1);
                   d' == r.state && replyLen == |r.Payload()| <= replyCap && reply[..replyLen] == r.Payload()
    ensures ok ==> reply[replyCap..] == old(reply[replyCap..])
    ensures !ok ==> d' == d && replyLen == 0 && reply[..] == old(reply[..])
  {
    hide Decode, Encode, Typed;
    if replyCap < 1 {
      return false, 0, d;
    }
    if |cmd.payload| < 1 {
      ok, replyLen := WriteStatusOnly(UNKNOWN_COMMAND, reply, replyCap);
      return ok, replyLen, d;
    }
    var opcode := cmd.payload[0];
    var entry := FindEntry(table, opcode);
    if entry.None? {
      ok, replyLen := WriteStatusOnly(UNKNOWN_COMMAND, reply, replyCap);
      return ok, replyLen, d;
    }
    AnswerFits(table, d, cmd.payload, replyCap - 1);
    assert WellFormed(entry.value);
    ghost var was := reply[..];
    var status, resultLen, state := DispatchThunk(entry.value, d, cmd.payload[1..], reply, 1, replyCap - 1);
    assert reply[replyCap..] == reply[..][replyCap..] == was[replyCap..];
    reply[0] := status;
    assert reply[..1 + resultLen] == [status] + reply[1..1 + resultLen];
    return true, 1 + resultLen, state;
  }
}
