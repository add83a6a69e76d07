/** The device's receive path: bytes in, at most one reply packet out. */
module Firmware {
  import opened Bytes
  import opened Framing
  import opened Receiver
  import opened Command
  import Crc16

  datatype Handled<D> = Handled(state: D, reply: Option<Frame>)

  /** Only the last frame counts, and only if it is a command. */
  ghost function Handle<D(!new)>(table: seq<Entry<D>>, d: D, wire: seq<byte>): Handled<D>
    requires WellFormedTable(table)
  {
    match LastFrame(Reports(FRESH, wire))
    case None => Handled(d, None)
    case Some(cmd) =>
      if cmd.kind != COMMAND then Handled(d, None)
      else var r := Answer(table, d, cmd.payload, BUDGET);
           Handled(r.state, Some(Frame(REPLY, r.Payload())))
  }

  /** Whatever packets came before it in the same buffer, the last one alone
      decides: earlier commands are neither run nor answered. */
  lemma LastPacketDecides<D(!new)>(table: seq<Entry<D>>, d: D, items: seq<Item>, f: Frame)
    requires WellFormedTable(table) && AllSendable(items) && Sendable(f)
    ensures Handle(table, d, Wire(items) + Packet(f)) ==
            if f.kind != COMMAND then Handled(d, None)
            else var r := Answer(table, d, f.payload, BUDGET); Handled(r.state, Some(Frame(REPLY, r.Payload())))
  {
    hide Answer, Reports, PushAll, Packet, Wire, Receiver.Delivered, Crc16.Checksum, Covered;
    var s := PushAll(FRESH, Wire(items));
    Delivery(FRESH, items);
    PushAllConcat(FRESH, Wire(items), Packet(f));
    PushPacket(s, f);
    LastFrameNext(Reports(FRESH, Wire(items)), Accepted(f, Crc16.Checksum(Covered(f))));
  }

  /** One command packet: the answer to its payload, ready to send. */
  lemma HandlePacket<D(!new)>(table: seq<Entry<D>>, d: D, payload: seq<byte>)
    requires WellFormedTable(table) && |payload| <= MAX_PAYLOAD
    ensures var r := Answer(table, d, payload, BUDGET);
            |r.Payload()| <= MAX_PAYLOAD
            && Handle(table, d, Packet(Frame(COMMAND, payload))) == Handled(r.state, Some(Frame(REPLY, r.Payload())))
  {
    hide Answer, Handle, Packet;
    var f := Frame(COMMAND, payload);
    LastPacketDecides(table, d, [], f);
    AnswerFits(table, d, payload, BUDGET);
    assert Wire([]) + Packet(f) == Packet(f);
  }

  lemma LastFrameAfter(front: seq<byte>, b: byte)
    ensures var s := PushAll(FRESH, front);
            && PushAll(FRESH, front + [b]) == Push(s, b)
            && LastFrame(Reports(FRESH, front + [b])) ==
               if EventOf(s, b) == FrameReady then Some(Push(s, b).frame) else LastFrame(Reports(FRESH, front))
  {
    hide Push, PushAll, EventOf, VerdictOn, Reports, LastFrame;
    var s := PushAll(FRESH, front);
    ReportsNext(FRESH, front, b);
    EventDecides(s, b);
    LastFrameNext(Reports(FRESH, front), VerdictOn(s.piece));
  }

  /** In numbers: a frame of type 1 is answered by one of type 2, any other by none. */
  lemma TypesAnswered<D(!new)>(table: seq<Entry<D>>, d: D, f: Frame)
    requires WellFormedTable(table) && Sendable(f)
    ensures var h := Handle(table, d, Packet(f));
            if f.kind == 1 then h.reply.Some? && h.reply.value.kind == 2 else h == Handled(d, None)
  {
    hide Answer, Handle, Packet;
    LastPacketDecides(table, d, [], f);
    NothingBefore(Packet(f));
  }

  /** Bytes in which no region is a frame: no answer, and the device is left alone. */
  lemma NoFrameNoAnswer<D(!new)>(table: seq<Entry<D>>, d: D, wire: seq<byte>)
    requires WellFormedTable(table)
    requires forall i :: 0 <= i < |Split(wire).closed| && Split(wire).closed[i] != [] ==>
                           VerdictOn(Split(wire).closed[i]).Refused?
    ensures Handle(table, d, wire) == Handled(d, None)
  {
    hide Reports, PushAll, VerdictOn, Split, Answer;
    ReaderIsSplitter(FRESH, wire);
    NothingBefore(wire);
    NoneAccepted(Split(wire).closed);
    NoLastFrame(Verdicts(Split(wire).closed));
  }

  lemma {:induction false} NoneAccepted(pieces: seq<seq<byte>>)
    requires forall i :: 0 <= i < |pieces| && pieces[i] != [] ==> VerdictOn(pieces[i]).Refused?
    ensures forall i :: 0 <= i < |Verdicts(pieces)| ==> Verdicts(pieces)[i].Refused?
    decreases |pieces|
  {
    hide VerdictOn;
    if pieces != [] {
      NoneAccepted(pieces[1..]);
    }
  }

  lemma {:induction false} NoLastFrame(verdicts: seq<Verdict>)
    requires forall i :: 0 <= i < |verdicts| ==> verdicts[i].Refused?
    ensures LastFrame(verdicts).None?
    decreases |verdicts|
  {
    if verdicts != [] {
      NoLastFrame(verdicts[..|verdicts| - 1]);
    }
  }

  /** The receive loop: the last frame a fresh reader delivers. */
  method ReceiveLast(cmdWire: seq<byte>) returns (got: bool, cmd: FrameBuffer)
    ensures fresh(cmd) && cmd.Valid()
    ensures LastFrame(Reports(FRESH, cmdWire)) == if got then Some(cmd.View()) else None
  {
    hide Run, Push, PushAll, EventOf, VerdictOn, Reports, LastFrame;
    var reader := new FrameReader();
    cmd := new FrameBuffer();
    got := false;
    NothingReported();
    for i := 0 to |cmdWire|
      invariant reader.Valid() && fresh(reader.Repr) && cmd.Valid() && fresh(cmd) && fresh(cmd.payload)
      invariant cmd !in reader.Repr && cmd.payload !in reader.Repr
      invariant reader.View() == PushAll(FRESH, cmdWire[..i])
      invariant LastFrame(Reports(FRESH, cmdWire[..i])) == if got then Some(cmd.View()) else None
    {
      assert cmdWire[..i + 1] == cmdWire[..i] + [cmdWire[i]];
      LastFrameAfter(cmdWire[..i], cmdWire[i]);
      var event := reader.PushByte(cmdWire[i]);
      if event == FrameReady {
        cmd.Assign(reader.frame);
        got := true;
      }
    }
    assert cmdWire[..|cmdWire|] == cmdWire;
  }

  /** `device_handle_packet`. */
  method DeviceHandlePacket<D(!new)>(table: seq<Entry<D>>, d: D, cmdWire: seq<byte>,
                                     replyWire: array<byte>, replyCap: nat)
    returns (len: nat, d': D)
    requires WellFormedTable(table) && replyCap <= replyWire.Length
    modifies replyWire
    ensures var h := Handle(table, d, cmdWire);
            d' == h.state
            && len == (if h.reply.None? || |h.reply.value.payload| + 6 > replyCap then 0
                       else |h.reply.value.payload| + 6)
            && (len > 0 ==> len <= replyCap && Sendable(h.reply.value) && replyWire[..len] == Packet(h.reply.value))
  {
    hide Reports, LastFrame, Answer, Packet;
    var got, cmd := ReceiveLast(cmdWire);
    if !got || cmd.kind != COMMAND {
      return 0, d;
    }
    AnswerFits(table, d, cmd.View().payload, BUDGET);
    var payload := new byte[MAX_PAYLOAD];
    var ok, payloadLen, state := Dispatch(table, d, cmd.View(), payload, MAX_PAYLOAD);
    var status, wireLen := EncodeFrame(REPLY, payload[..payloadLen], replyWire, replyCap);
    return if status == FrameStatus.Ok then wireLen else 0, state;
  }

  lemma NothingReported()
    ensures PushAll(FRESH, []) == FRESH && Reports(FRESH, []) == [] && LastFrame([]) == None
  {
  }

  lemma EventDecides(s: State, b: byte)
    ensures EventOf(s, b) == FrameReady ==> VerdictOn(s.piece).Accepted? && Push(s, b).frame == VerdictOn(s.piece).frame
    ensures EventOf(s, b) == Error ==> VerdictOn(s.piece).Refused?
  {
    hide VerdictOn;
  }
}
