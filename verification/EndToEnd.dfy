/** Calls over the host's device object, whose replies arrive among other traffic. */
module EndToEnd {
  import opened Bytes
  import opened Codec
  import opened Framing
  import opened Command
  import opened Tables
  import Receiver
  import Firmware
  import Host
  import Demux

  /** `call` over `Device`. A raise inside the wait cannot leave a function that
      promises not to throw: None stands for the end of the process. */
  method DeviceCall(dev: Demux.Device, c: Host.Contract, args: seq<Value>) returns (r: Option<Host.CallResult>)
    requires dev.Valid() && c.WithinBudget() && Typed(args, c.args)
    modifies dev`outgoing, dev`incoming, dev`received, dev`pending, dev`pendingPos, dev`pushed, dev`fired
    modifies dev.reader.Repr
    ensures dev.Valid() && dev.outgoing == old(dev.outgoing) + [Packet(Host.Request(c, args))]
    ensures var p := Demux.Pump(dev.TheEnv(), true, old(dev.fired), old(dev.reader.View()), old(dev.Available()));
            && r == (if p.raised then None else Some(Host.ReadReply(c, p.reply)))
            && p.used <= |old(dev.Available())| && dev.pushed == old(dev.pushed) + old(dev.Available())[..p.used]
            && dev.fired == old(dev.fired) + p.calls
    ensures dev.Inbound() == old(dev.Inbound()) && (old(dev.Conserved()) ==> dev.Conserved())
  {
    hide Encode, Typed, Packet, Host.ReadReply, Defaults;
    hide Demux.Pump, Demux.Accounts, Demux.Flatten, Demux.UntilEmpty, Receiver.Run;
    var enc, wire, wlen := Host.FrameRequest(c, args);
    var sent := false;
    if enc == FrameStatus.Ok {
      sent := dev.SendCommand(wire[..wlen]);
    }
    if !sent {
      return Some(Host.CallResult(TRANSPORT_ERROR, Defaults(c.rets)));
    }
    var reply := new FrameBuffer();
    var got, raised := dev.AwaitReply(reply);
    if raised {
      return None;
    }
    var result := Host.ParseReply(c, got, reply);
    return Some(result);
  }

  /** The device's answer to a call reaches the host behind any bytes `early`, with
      anything at all behind it. The call gives the caller the handler's outcome,
      fires exactly the callbacks of the stream packets in between and keeps the
      bytes behind the reply, provided `early` ends at a boundary and nothing in it
      ends the wait; and the wait ends with this reply in no other case. */
  lemma RpcAmongStreams<D(!new)>(table: seq<Entry<D>>, d: D, c: Host.Contract, e: Entry<D>, args: seq<Value>,
                                 env: Demux.Env, past: seq<Demux.Fired>, s: Receiver.State,
                                 early: seq<byte>, more: seq<byte>)
    requires WellFormedTable(table) && c.WithinBudget() && Typed(args, c.args) && ZeroFree(s.piece)
    requires Find(table, c.opcode) == Some(e) && e.handler.args == c.args && e.handler.rets == c.rets
    ensures var h := Firmware.Handle(table, d, Packet(Host.Request(c, args)));
            var o := e.handler.run(d, args);
            && h.state == o.state && h.reply.Some? && Sendable(h.reply.value)
            && var p := Demux.Pump(env, true, past, s, early + (Packet(h.reply.value) + more));
               var clear := Receiver.PushAll(s, early).piece == []
                            && !Demux.EndsIn(env, true, past, Receiver.Reports(s, early));
               && (p.reply == h.reply && p.used == |early| + |Packet(h.reply.value)| <==> clear)
               && (clear ==> && !p.raised && p.calls == Demux.Calls(env, Receiver.Reports(s, early))
                             && Host.ReadReply(c, p.reply) ==
                                Host.CallResult(o.status, if o.status == OK then o.results else Defaults(c.rets)))
  {
    hide Answer, Encode, Typed, Packet, Host.ReadReply, Demux.Pump, Firmware.Handle;
    hide Demux.Calls, Demux.EndsIn, Receiver.PushAll, Receiver.Reports;
    Host.RpcTransparency(table, d, c, e, args);
    var request := Host.Request(c, args);
    Firmware.HandlePacket(table, d, request.payload);
    var reply := Firmware.Handle(table, d, Packet(request)).reply.value;
    Host.ReceivedIsSent(reply);
    Demux.ReplyFoundExactly(env, past, s, early, reply, more);
    if Receiver.PushAll(s, early).piece == [] {
      Demux.ReplyFound(env, past, s, early, reply, more);
    }
  }

  /** So a call over `Device` whose answer has come in behind `early` is the call of
      the handler. */
  method TransparentCall<D(!new)>(dev: Demux.Device, c: Host.Contract, args: seq<Value>, ghost table: seq<Entry<D>>,
                                  ghost d: D, ghost e: Entry<D>, ghost early: seq<byte>, ghost more: seq<byte>)
    returns (r: Option<Host.CallResult>)
    requires dev.Valid() && WellFormedTable(table) && c.WithinBudget() && Typed(args, c.args)
    requires Find(table, c.opcode) == Some(e) && e.handler.args == c.args && e.handler.rets == c.rets
    requires Receiver.PushAll(dev.reader.View(), early).piece == []
    requires !Demux.EndsIn(dev.TheEnv(), true, dev.fired, Receiver.Reports(dev.reader.View(), early))
    requires var reply := Firmware.Handle(table, d, Packet(Host.Request(c, args))).reply;
             reply.Some? && Sendable(reply.value) && dev.Available() == early + (Packet(reply.value) + more)
    modifies dev`outgoing, dev`incoming, dev`received, dev`pending, dev`pendingPos, dev`pushed, dev`fired
    modifies dev.reader.Repr
    ensures dev.Valid() && dev.outgoing == old(dev.outgoing) + [Packet(Host.Request(c, args))]
    ensures var o := e.handler.run(d, args);
            && Firmware.Handle(table, d, Packet(Host.Request(c, args))).state == o.state
            && r == Some(Host.CallResult(o.status, if o.status == OK then o.results else Defaults(c.rets)))
    ensures dev.fired == old(dev.fired) + Demux.Calls(dev.TheEnv(), Receiver.Reports(old(dev.reader.View()), early))
    ensures dev.Inbound() == old(dev.Inbound()) && (old(dev.Conserved()) ==> dev.Conserved())
  {
    hide Answer, Encode, Typed, Packet, Defaults, Host.ReadReply, Firmware.Handle;
    hide Demux.Pump, Demux.Calls, Demux.EndsIn, Demux.Accounts, Demux.Flatten, Demux.UntilEmpty;
    hide Receiver.PushAll, Receiver.Reports, Receiver.Run;
    ghost var env, past, s := dev.TheEnv(), dev.fired, dev.reader.View();
    RpcAmongStreams(table, d, c, e, args, env, past, s, early, more);
    r := DeviceCall(dev, c, args);
  }

  /** And with one reply late, every later call is told the outcome of the call
      before it: `calls[k]` is the k-th call and its answer, `arrivals[k]` what comes
      in before that call gives up. */
  lemma OneCallBehind(env: Demux.Env, past: seq<Demux.Fired>, s: Receiver.State, calls: seq<Host.Answered>,
                      list: seq<Demux.Arrival>, arrivals: seq<seq<byte>>, future: seq<byte>)
    requires |calls| == |list| >= |arrivals| > 0 && Demux.AllSent(list) && Demux.Quiet(env, past, s, list)
    requires forall k :: 0 <= k < |list| ==> calls[k].Valid() && list[k].reply == calls[k].Reply()
    requires Demux.Flatten(arrivals) + future == Demux.Arriving(list)
    requires |arrivals[0]| < |list[0].Bytes()| && Demux.InTime(list, |arrivals[0]|, arrivals[1..])
    ensures var w := Demux.Waits(env, past, s, [], arrivals);
            && |w| == |arrivals| && Host.ReadReply(calls[0].c, w[0]).status == TRANSPORT_ERROR
            && forall k :: 1 <= k < |arrivals| ==>
                 var mine, before := calls[k].c, calls[k - 1];
                 && Host.ReadReply(mine, w[k]) == Host.ReadReply(mine, Some(before.Reply()))
                 && (before.status != OK ==>
                       Host.ReadReply(mine, w[k]) == Host.CallResult(before.status, Defaults(mine.rets)))
                 && (before.status == OK && mine.rets == before.c.rets ==>
                       Host.ReadReply(mine, w[k]) == Host.CallResult(OK, before.results))
  {
    hide Demux.Quiet, Demux.Arriving, Demux.Waits, Demux.InTime, Demux.Flatten, Defaults;
    Demux.OneBehind(env, past, s, list, arrivals, future);
    var w := Demux.Waits(env, past, s, [], arrivals);
    forall k | 1 <= k < |arrivals|
      ensures w[k] == Some(calls[k - 1].Reply())
    {
    }
    hide Host.ReadReply;
    forall k | 1 <= k < |arrivals|
      ensures var mine, before := calls[k].c, calls[k - 1];
              && (before.status != OK ==>
                    Host.ReadReply(mine, w[k]) == Host.CallResult(before.status, Defaults(mine.rets)))
              && (before.status == OK && mine.rets == before.c.rets ==>
                    Host.ReadReply(mine, w[k]) == Host.CallResult(OK, before.results))
    {
      Host.ReadsAnothers(calls[k].c, calls[k - 1]);
    }
  }
}
