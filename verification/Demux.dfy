/** The host's receive side: one inbound byte stream shared by `poll`, which
    drains it, and `await_reply`, which stops at a reply. */
module Demux {
  import opened Bytes
  import opened Codec
  import opened Framing
  import opened Receiver
  import CodecBuffers
  import Stream
  import Crc16

  /** A registered stream: its name and how its fields are read. */
  datatype Decoder = Decoder(name: string, fields: seq<FieldType>)

  /** One invocation of a callback. */
  datatype Fired = Fired(name: string, n: Stream.counter, vs: seq<Value>)

  /** A callback either returns (true) or raises (false), which may depend on every
      invocation before this one. */
  type Callback = (seq<Fired>, Stream.counter, seq<Value>) -> bool

  datatype Env = Env(registry: map<byte, Decoder>, callbacks: map<string, Callback>)

  // -------------------------------------------------------------- specification

  /** What a stream frame calls for. Unknown opcodes and streams nobody listens to
      are ignored. */
  datatype Due = Ignored | Malformed | Invoke(call: Fired)

  function DueFor(env: Env, f: Frame): (d: Due)
    ensures d.Invoke? ==> d.call.name in env.callbacks
  {
    if f.payload == [] || f.payload[0] !in env.registry then Ignored
    else
      var dec := env.registry[f.payload[0]];
      if dec.name !in env.callbacks then Ignored
      else match Stream.ReadBody(dec.fields, f.payload[1..])
           case None => Malformed
           case Some(m) => Invoke(Fired(dec.name, m.n, m.vs))
  }

  /** What it leads to, after the invocations `past`: a malformed body, like a
      raising callback, raises. */
  datatype Reaction = Skipped | Delivered(call: Fired) | Raised(calls: seq<Fired>)

  function React(env: Env, past: seq<Fired>, f: Frame): Reaction {
    match DueFor(env, f)
    case Ignored => Skipped
    case Malformed => Raised([])
    case Invoke(call) =>
      if env.callbacks[call.name](past, call.n, call.vs) then Delivered(call) else Raised([call])
  }

  function CallsFor(env: Env, v: Verdict): seq<Fired> {
    if v.Accepted? && v.frame.kind == STREAM && DueFor(env, v.frame).Invoke? then [DueFor(env, v.frame).call] else []
  }

  /** The callbacks a list of verdicts accounts for, in order. */
  function Calls(env: Env, verdicts: seq<Verdict>): seq<Fired>
    decreases |verdicts|
  {
    if verdicts == [] then [] else CallsFor(env, verdicts[0]) + Calls(env, verdicts[1..])
  }

  /** What taking a byte came to. */
  datatype Took = Nothing | GotReply(frame: Frame) | Gave(call: Fired) | Threw(calls: seq<Fired>)

  function CallsOf(t: Took): seq<Fired> {
    match t
    case Gave(call) => [call]
    case Threw(calls) => calls
    case _ => []
  }

  function Taking(env: Env, stop: bool, past: seq<Fired>, s: State, b: byte): Took {
    var f := Push(s, b).frame;
    if EventOf(s, b) != FrameReady then Nothing
    else if stop && f.kind == REPLY then GotReply(f)
    else if f.kind != STREAM then Nothing
    else match React(env, past, f)
         case Skipped => Nothing
         case Delivered(call) => Gave(call)
         case Raised(calls) => Threw(calls)
  }

  /** How far a run over some bytes got, and why it ended. */
  datatype Progress = Progress(reader: State, calls: seq<Fired>, used: nat, delivered: nat,
                               raised: bool, reply: Option<Frame>)
  {
    /** Whether something cut the run short, if only after its last byte. */
    predicate Ended() { raised || reply.Some? }
  }

  /** The run begun by `calls` and `delivered` over `used` bytes, continued by `p`. */
  function Ahead(calls: seq<Fired>, used: nat, delivered: nat, p: Progress): Progress {
    p.(calls := calls + p.calls, used := used + p.used, delivered := delivered + p.delivered)
  }

  /** Push bytes until they run out, a reaction raises, or (if `stop`) a reply
      arrives. Replies are dropped when nobody waits for one. */
  function Pump(env: Env, stop: bool, past: seq<Fired>, s: State, bytes: seq<byte>): Progress
    decreases |bytes|
  {
    if bytes == [] then Progress(s, [], 0, 0, false, None)
    else
      var t, took := Push(s, bytes[0]), Taking(env, stop, past, s, bytes[0]);
      match took
      case Nothing => Ahead([], 1, 0, Pump(env, stop, past, t, bytes[1..]))
      case GotReply(f) => Progress(t, [], 1, 0, false, Some(f))
      case Gave(call) => Ahead([call], 1, 1, Pump(env, stop, past + [call], t, bytes[1..]))
      case Threw(calls) => Progress(t, calls, 1, 0, true, None)
  }

  /** A verdict that cuts a run short: a reply somebody waits for, or a stream
      frame whose reaction raises. */
  predicate Ends(env: Env, stop: bool, past: seq<Fired>, v: Verdict) {
    v.Accepted? && ((stop && v.frame.kind == REPLY) || (v.frame.kind == STREAM && React(env, past, v.frame).Raised?))
  }

  /** Whether one of `verdicts` does. */
  predicate EndsIn(env: Env, stop: bool, past: seq<Fired>, verdicts: seq<Verdict>)
    decreases |verdicts|
  {
    verdicts != [] &&
    (Ends(env, stop, past, verdicts[0]) || EndsIn(env, stop, past + CallsFor(env, verdicts[0]), verdicts[1..]))
  }

  // ------------------------------------------------------------------ properties

  lemma {:induction false} CallsConcat(env: Env, a: seq<Verdict>, b: seq<Verdict>)
    ensures Calls(env, a + b) == Calls(env, a) + Calls(env, b)
    decreases |a|
  {
    hide CallsFor;
    if a == [] {
      NothingBefore(b);
      NothingBefore(Calls(env, b));
    } else {
      CallsConcat(env, a[1..], b);
      assert (a + b)[1..] == a[1..] + b;
      Regroup(CallsFor(env, a[0]), Calls(env, a[1..]), Calls(env, b));
    }
  }

  lemma AheadAhead(a: seq<Fired>, m: nat, i: nat, b: seq<Fired>, n: nat, j: nat, p: Progress)
    ensures Ahead(a, m, i, Ahead(b, n, j, p)) == Ahead(a + b, m + n, i + j, p)
  {
    Regroup(a, b, p.calls);
  }

  lemma AheadNothing(p: Progress)
    ensures Ahead([], 0, 0, p) == p
  {
    NothingBefore(p.calls);
  }

  lemma AheadOf(calls: seq<Fired>, n: nat, i: nat, q: Progress)
    ensures var p := Ahead(calls, n, i, q);
            && p.calls == calls + q.calls && p.delivered == i + q.delivered
            && p.reader == q.reader && p.Ended() == q.Ended()
  {
  }

  lemma EndedExactly(p: Progress)
    ensures p.Ended() <==> p.raised || p.reply.Some?
  {
  }

  lemma PumpNothing(env: Env, stop: bool, past: seq<Fired>, s: State)
    ensures Pump(env, stop, past, s, []) == Progress(s, [], 0, 0, false, None)
  {
  }

  /** One byte of a run: the run ends here, or goes on. */
  lemma PumpStep(env: Env, stop: bool, past: seq<Fired>, s: State, b: byte, tail: seq<byte>)
    ensures var t, took := Push(s, b), Taking(env, stop, past, s, b);
            Pump(env, stop, past, s, [b] + tail) ==
            match took
            case GotReply(f) => Progress(t, [], 1, 0, false, Some(f))
            case Threw(calls) => Progress(t, calls, 1, 0, true, None)
            case _ => Ahead(CallsOf(took), 1, if took.Gave? then 1 else 0,
                            Pump(env, stop, past + CallsOf(took), t, tail))
  {
    hide Push, Taking, Ahead;
    TailOf(b, tail);
    NothingBehind(past);
  }

  /** A run over two stretches of bytes: the first decides, unless it goes through. */
  lemma {:induction false} PumpConcat(env: Env, stop: bool, past: seq<Fired>, s: State, a: seq<byte>, b: seq<byte>)
    ensures var p := Pump(env, stop, past, s, a);
            Pump(env, stop, past, s, a + b) ==
            if p.Ended() then p
            else Ahead(p.calls, |a|, p.delivered, Pump(env, stop, past + p.calls, p.reader, b))
    decreases |a|
  {
    hide Push, Taking, Pump, CallsOf, Ahead, Progress.Ended;
    if a == [] {
      NothingBefore(b);
      NothingBehind(past);
      PumpNothing(env, stop, past, s);
      EndedExactly(Pump(env, stop, past, s, []));
      AheadNothing(Pump(env, stop, past, s, b));
    } else {
      var t, took, more := Push(s, a[0]), Taking(env, stop, past, s, a[0]), a[1..];
      var calls, given := CallsOf(took), if took.Gave? then 1 else 0;
      HeadAndTail(a);
      Regroup([a[0]], more, b);
      PumpStep(env, stop, past, s, a[0], more);
      PumpStep(env, stop, past, s, a[0], more + b);
      if took.GotReply? || took.Threw? {
        assert Pump(env, stop, past, s, a).Ended() by { EndedExactly(Pump(env, stop, past, s, a)); }
      } else {
        PumpConcat(env, stop, past + calls, t, more, b);
        var q := Pump(env, stop, past + calls, t, more);
        AheadOf(calls, 1, given, q);
        Regroup(past, calls, q.calls);
        AheadAhead(calls, 1, given, q.calls, |more|, q.delivered,
                   Pump(env, stop, past + calls + q.calls, q.reader, b));
      }
    }
  }

  lemma ReportsHead(s: State, b: byte, more: seq<byte>)
    ensures PushAll(s, [b] + more) == PushAll(Push(s, b), more)
    ensures Reports(s, [b] + more) ==
            (if EventOf(s, b).NeedMore? then [] else [VerdictOn(s.piece)]) + Reports(Push(s, b), more)
  {
    TailOf(b, more);
  }

  /** A byte is taken as the verdict it completes says. */
  lemma TakingIsVerdict(env: Env, stop: bool, past: seq<Fired>, s: State, b: byte)
    ensures var took, v := Taking(env, stop, past, s, b), VerdictOn(s.piece);
            if EventOf(s, b).NeedMore? then took == Nothing
            else (took.GotReply? || took.Threw? <==> Ends(env, stop, past, v)) && CallsOf(took) == CallsFor(env, v)
  {
    hide VerdictOn, DueFor;
  }

  /** One byte's contribution to the callbacks. */
  lemma CallsHead(env: Env, stop: bool, past: seq<Fired>, s: State, b: byte, more: seq<byte>)
    ensures Calls(env, Reports(s, [b] + more)) ==
            CallsOf(Taking(env, stop, past, s, b)) + Calls(env, Reports(Push(s, b), more))
  {
    hide VerdictOn, CallsFor, Reports, Push, EventOf, Taking;
    ReportsHead(s, b, more);
    TakingIsVerdict(env, stop, past, s, b);
    var rest := Reports(Push(s, b), more);
    if EventOf(s, b).NeedMore? {
      NothingBefore(rest);
      NothingBefore(Calls(env, rest));
    } else {
      TailOf(VerdictOn(s.piece), rest);
    }
  }

  /** Whatever ends a run, the callbacks fired are those of the stream frames in
      the bytes it used, in order; and it uses them all unless something raised
      or a reply was waited for and came. */
  lemma {:induction false} PumpAccounts(env: Env, stop: bool, past: seq<Fired>, s: State, bytes: seq<byte>)
    ensures var p := Pump(env, stop, past, s, bytes);
            && p.used <= |bytes| && p.delivered <= |p.calls| && (!p.raised ==> p.delivered == |p.calls|)
            && p.reader == PushAll(s, bytes[..p.used])
            && p.calls == Calls(env, Reports(s, bytes[..p.used]))
            && (!p.Ended() ==> p.used == |bytes|)
            && (p.reply.Some? ==> stop && !p.raised && p.reader.frame == p.reply.value && p.reply.value.kind == REPLY)
    decreases |bytes|
  {
    hide Reports, PushAll, Push, Pump, Taking, Calls;
    if bytes == [] {
      PumpNothing(env, stop, past, s);
      NothingPushed(env, s);
    } else {
      var b, more := bytes[0], bytes[1..];
      var took := Taking(env, stop, past, s, b);
      TakingReply(env, stop, past, s, b);
      HeadAndTail(bytes);
      PumpStep(env, stop, past, s, b, more);
      PumpAccounts(env, stop, past + CallsOf(took), Push(s, b), more);
      var n := Pump(env, stop, past, s, bytes).used - 1;
      FrontOfTail(bytes, n);
      ReportsHead(s, b, more[..n]);
      CallsHead(env, stop, past, s, b, more[..n]);
      NothingPushed(env, Push(s, b));
      NothingBehind(CallsOf(took));
    }
  }

  lemma FrontOfTail(bytes: seq<byte>, n: nat)
    requires n < |bytes|
    ensures bytes[..n + 1] == [bytes[0]] + bytes[1..][..n]
  {
  }

  lemma TakingReply(env: Env, stop: bool, past: seq<Fired>, s: State, b: byte)
    ensures var took := Taking(env, stop, past, s, b);
            took.GotReply? ==> stop && took.frame == Push(s, b).frame && took.frame.kind == REPLY
  {
    hide Push, React;
  }

  lemma NothingPushed(env: Env, s: State)
    ensures PushAll(s, []) == s && Calls(env, Reports(s, [])) == []
  {
  }

  /** What cuts a run short is one of the verdicts reported on the way. */
  lemma {:induction false} PumpEnds(env: Env, stop: bool, past: seq<Fired>, s: State, bytes: seq<byte>)
    ensures Pump(env, stop, past, s, bytes).Ended() <==> EndsIn(env, stop, past, Reports(s, bytes))
    decreases |bytes|
  {
    if bytes != [] {
      hide Reports, Push, EventOf, VerdictOn, Taking, CallsOf, CallsFor, Pump, Ends;
      var b, more := bytes[0], bytes[1..];
      var took, t := Taking(env, stop, past, s, b), Push(s, b);
      HeadAndTail(bytes);
      PumpStep(env, stop, past, s, b, more);
      PumpEnds(env, stop, past + CallsOf(took), t, more);
      TakingIsVerdict(env, stop, past, s, b);
      ReportsHead(s, b, more);
      if EventOf(s, b).NeedMore? {
        NothingBefore(Reports(t, more));
        CallsOfNothing();
        NothingBehind(past);
      } else {
        TailOf(VerdictOn(s.piece), Reports(t, more));
      }
    }
  }

  lemma CallsOfNothing()
    ensures CallsOf(Nothing) == []
  {
  }

  /** Two pushes' worth of callbacks add up. */
  lemma CallsOfConcat(env: Env, s: State, a: seq<byte>, b: seq<byte>)
    ensures Calls(env, Reports(s, a + b)) == Calls(env, Reports(s, a)) + Calls(env, Reports(PushAll(s, a), b))
    ensures PushAll(s, a + b) == PushAll(PushAll(s, a), b)
  {
    hide Reports, PushAll, Calls;
    PushAllConcat(s, a, b);
    CallsConcat(env, Reports(s, a), Reports(PushAll(s, a), b));
  }

  // -------------------------------------------------------- replies among streams

  /** Bytes between two delimiters only add to the piece. */
  lemma PumpQuiet(env: Env, stop: bool, past: seq<Fired>, s: State, quiet: seq<byte>)
    requires ZeroFree(quiet)
    ensures Pump(env, stop, past, s, quiet) == Progress(s.(piece := s.piece + quiet), [], |quiet|, 0, false, None)
  {
    hide Pump, PushAll, Reports, Calls, EndsIn;
    PushZeroFree(s, quiet);
    PumpAccounts(env, stop, past, s, quiet);
    PumpEnds(env, stop, past, s, quiet);
    assert quiet[..|quiet|] == quiet;
    NothingEnds(env, stop, past);
  }

  /** A whole packet at a boundary: its frame is ready exactly at its delimiter. */
  lemma PumpPacket(env: Env, stop: bool, past: seq<Fired>, s: State, f: Frame)
    requires s.piece == [] && Sendable(f)
    ensures var t, n := State([], f, FrameStatus.Ok), |Packet(f)|;
            Pump(env, stop, past, s, Packet(f)) ==
            if stop && f.kind == REPLY then Progress(t, [], n, 0, false, Some(f))
            else if f.kind != STREAM then Progress(t, [], n, 0, false, None)
            else match React(env, past, f)
                 case Skipped => Progress(t, [], n, 0, false, None)
                 case Delivered(call) => Progress(t, [call], n, 1, false, None)
                 case Raised(calls) => Progress(t, calls, n, 0, true, None)
  {
    hide React, Region, Pump;
    var region, closing := Region(f), [DELIMITER];
    PumpQuiet(env, stop, past, s, region);
    NothingBefore(region);
    PumpConcat(env, stop, past, s, region, closing);
    NothingBehind(past);
    ClosingByte(env, stop, past, s.(piece := region), f);
    var q := Pump(env, stop, past, s.(piece := region), closing);
    NothingBefore(q.calls);
  }

  lemma ClosingByte(env: Env, stop: bool, past: seq<Fired>, full: State, f: Frame)
    requires Sendable(f) && full.piece == Region(f)
    ensures var t := State([], f, FrameStatus.Ok);
            Pump(env, stop, past, full, [DELIMITER]) ==
            if stop && f.kind == REPLY then Progress(t, [], 1, 0, false, Some(f))
            else if f.kind != STREAM then Progress(t, [], 1, 0, false, None)
            else match React(env, past, f)
                 case Skipped => Progress(t, [], 1, 0, false, None)
                 case Delivered(call) => Progress(t, [call], 1, 1, false, None)
                 case Raised(calls) => Progress(t, calls, 1, 0, true, None)
  {
    hide React, Region, DecodeRegion, Pump, Crc16.Checksum, Covered;
    FrameRoundTrip(f);
    PacketSize(f);
    var took := Taking(env, stop, past, full, DELIMITER);
    assert Push(full, DELIMITER) == State([], f, FrameStatus.Ok) && EventOf(full, DELIMITER) == FrameReady;
    PumpStep(env, stop, past, full, DELIMITER, []);
    PumpNothing(env, stop, past + CallsOf(took), Push(full, DELIMITER));
    NothingBehind([DELIMITER]);
    NothingBehind(CallsOf(took));
  }

  /** A stream packet somebody listens to: the callback is called once, with the name's
      counter and fields and knowing what was called before; what it does decides
      whether the packet counts as delivered. */
  lemma StreamHandled(env: Env, stop: bool, past: seq<Fired>, s: State,
                      def: Stream.StreamDef, name: string, n: Stream.counter, vs: seq<Value>)
    requires s.piece == [] && def.WithinBudget() && Typed(vs, def.fields)
    requires def.opcode in env.registry && env.registry[def.opcode] == Decoder(name, def.fields)
    requires name in env.callbacks
    ensures var p := Pump(env, stop, past, s, Packet(Stream.StreamFrame(def, n, vs)));
            && p.calls == [Fired(name, n, vs)] && p.reply.None? && p.used == |Packet(Stream.StreamFrame(def, n, vs))|
            && p.raised == !env.callbacks[name](past, n, vs)
            && p.delivered == if env.callbacks[name](past, n, vs) then 1 else 0
  {
    hide Pump, Packet, Typed, Stream.Body, Stream.ReadBody;
    var f := Stream.StreamFrame(def, n, vs);
    Stream.BodyRoundTrip(n, def.fields, vs);
    TailOf(def.opcode, Stream.Body(n, def.fields, vs));
    assert DueFor(env, f) == Invoke(Fired(name, n, vs));
    PumpPacket(env, stop, past, s, f);
  }

  /** A packet that changes nothing but what the reader shows: one that is neither a
      reply (type 2) nor a stream (type 3), a reply nobody waits for, or a stream
      without an opcode, of an unknown one or that nobody listens to. */
  lemma PacketIgnored(env: Env, stop: bool, past: seq<Fired>, s: State, f: Frame)
    requires s.piece == [] && Sendable(f)
    requires || (f.kind != 2 && f.kind != 3) || (f.kind == 2 && !stop)
             || (f.kind == 3 && (f.payload == [] || f.payload[0] !in env.registry
                                 || env.registry[f.payload[0]].name !in env.callbacks))
    ensures Pump(env, stop, past, s, Packet(f)) ==
            Progress(State([], f, FrameStatus.Ok), [], |Packet(f)|, 0, false, None)
  {
    hide Pump, Packet, Stream.ReadBody;
    PumpPacket(env, stop, past, s, f);
  }

  /** A stream packet somebody listens to whose body is not read: that raises, and
      nobody is called. A reply that is waited for (type 2) ends the wait. */
  lemma PacketEnds(env: Env, stop: bool, past: seq<Fired>, s: State, f: Frame)
    requires s.piece == [] && Sendable(f)
    ensures f.kind == 3 && f.payload != [] && f.payload[0] in env.registry
            && env.registry[f.payload[0]].name in env.callbacks
            && Stream.ReadBody(env.registry[f.payload[0]].fields, f.payload[1..]).None? ==>
              Pump(env, stop, past, s, Packet(f)) ==
              Progress(State([], f, FrameStatus.Ok), [], |Packet(f)|, 0, true, None)
    ensures f.kind == 2 && stop ==>
              Pump(env, stop, past, s, Packet(f)) ==
              Progress(State([], f, FrameStatus.Ok), [], |Packet(f)|, 0, false, Some(f))
  {
    hide Pump, Packet, Stream.ReadBody;
    PumpPacket(env, stop, past, s, f);
  }

  lemma NothingEnds(env: Env, stop: bool, past: seq<Fired>)
    ensures !EndsIn(env, stop, past, []) && Calls(env, []) == []
  {
  }

  /** A reply packet at a boundary, behind any bytes whatsoever: the wait hands it
      back, leaving what is behind it, exactly if nothing in those bytes ended the
      wait before. If something did, that is what the wait comes to. */
  lemma ReplyFound(env: Env, past: seq<Fired>, s: State, early: seq<byte>, reply: Frame, more: seq<byte>)
    requires PushAll(s, early).piece == [] && Sendable(reply) && reply.kind == REPLY
    ensures var p := Pump(env, true, past, s, early + (Packet(reply) + more));
            if EndsIn(env, true, past, Reports(s, early)) then p == Pump(env, true, past, s, early) && p.used <= |early|
            else p.reply == Some(reply) && p.used == |early| + |Packet(reply)| && !p.raised
                 && p.calls == Calls(env, Reports(s, early)) && p.reader == State([], reply, FrameStatus.Ok)
  {
    hide Pump, Packet, PushAll, Reports, Calls, EndsIn;
    var p := Pump(env, true, past, s, early);
    PumpConcat(env, true, past, s, early, Packet(reply) + more);
    PumpEnds(env, true, past, s, early);
    PumpAccounts(env, true, past, s, early);
    if !p.Ended() {
      assert early[..|early|] == early;
      PumpPacket(env, true, past + p.calls, p.reader, reply);
      PumpConcat(env, true, past + p.calls, p.reader, Packet(reply), more);
      NothingBehind(p.calls);
    }
  }

  /** Behind an unfinished piece a reply packet is read as part of that piece, and
      no accepted piece but its own region stands for a frame. */
  lemma ReplyMerged(env: Env, past: seq<Fired>, s: State, reply: Frame)
    requires s.piece != [] && ZeroFree(s.piece) && Sendable(reply)
    ensures Pump(env, true, past, s, Packet(reply)).reply != Some(reply)
  {
    hide Pump, Region, DecodeRegion, React, EndsIn;
    var region, full := Region(reply), s.(piece := s.piece + Region(reply));
    PumpQuiet(env, true, past, s, region);
    PumpConcat(env, true, past, s, region, [DELIMITER]);
    NothingBehind(past);
    NothingBehind([DELIMITER]);
    PumpStep(env, true, past, full, DELIMITER, []);
    PumpNothing(env, true, past + CallsOf(Taking(env, true, past, full, DELIMITER)), Push(full, DELIMITER));
    if |full.piece| <= REGION_CAP {
      UniqueWireForm(full.piece, reply);
      PacketSize(reply);
    }
  }

  /** So a wait that meets `early` before the reply hands that reply back exactly if
      `early` leaves no unfinished piece and nothing in it ends the wait. */
  lemma ReplyFoundExactly(env: Env, past: seq<Fired>, s: State, early: seq<byte>, reply: Frame, more: seq<byte>)
    requires ZeroFree(s.piece) && Sendable(reply) && reply.kind == REPLY
    ensures var p := Pump(env, true, past, s, early + (Packet(reply) + more));
            p.reply == Some(reply) && p.used == |early| + |Packet(reply)|
            <==> PushAll(s, early).piece == [] && !EndsIn(env, true, past, Reports(s, early))
  {
    hide Pump, Packet, PushAll, Reports, Calls, EndsIn, ZeroFree, Split;
    if PushAll(s, early).piece == [] {
      ReplyFound(env, past, s, early, reply, more);
      PacketSize(reply);
    } else {
      var p := Pump(env, true, past, s, early);
      PumpConcat(env, true, past, s, early, Packet(reply) + more);
      PumpAccounts(env, true, past, s, early);
      assert early[..|early|] == early;
      if !p.Ended() {
        ReaderIsSplitter(s, early);
        ReplyMerged(env, past + p.calls, p.reader, reply);
        ReplyLater(env, past + p.calls, p.reader, reply, more);
      } else {
        PacketSize(reply);
      }
    }
  }

  lemma ReplyLater(env: Env, past: seq<Fired>, s: State, reply: Frame, more: seq<byte>)
    requires Sendable(reply) && Pump(env, true, past, s, Packet(reply)).reply != Some(reply)
    ensures var p := Pump(env, true, past, s, Packet(reply) + more);
            !(p.reply == Some(reply) && p.used == |Packet(reply)|)
  {
    hide Pump, Packet, PushAll, Reports, Calls;
    var p := Pump(env, true, past, s, Packet(reply));
    PumpConcat(env, true, past, s, Packet(reply), more);
    PumpNothing(env, true, past + p.calls, p.reader);
    if more != [] && !p.Ended() {
      PumpSome(env, true, past + p.calls, p.reader, more);
    }
  }

  lemma PumpSome(env: Env, stop: bool, past: seq<Fired>, s: State, bytes: seq<byte>)
    requires bytes != []
    ensures Pump(env, stop, past, s, bytes).used > 0
  {
    hide Taking;
    HeadAndTail(bytes);
    PumpStep(env, stop, past, s, bytes[0], bytes[1..]);
  }

  /** A wait hands back the first reply, not the matching one: with a stale reply
      still on its way, the call gets that, and the next wait gets this call's. */
  lemma StaleReplyWins(env: Env, past: seq<Fired>, s: State, early: seq<byte>, stale: Frame,
                       between: seq<byte>, reply: Frame, more: seq<byte>)
    requires PushAll(s, early).piece == [] && !EndsIn(env, true, past, Reports(s, early))
    requires Sendable(stale) && stale.kind == REPLY && Sendable(reply) && reply.kind == REPLY
    ensures var rest := between + (Packet(reply) + more);
            var p := Pump(env, true, past, s, early + (Packet(stale) + rest));
            && p.reply == Some(stale) && p.used == |early| + |Packet(stale)|
            && (PushAll(p.reader, between).piece == []
                && !EndsIn(env, true, past + p.calls, Reports(p.reader, between)) ==>
                  Pump(env, true, past + p.calls, p.reader, rest).reply == Some(reply))
  {
    hide Pump, Packet, PushAll, Reports, EndsIn;
    var rest := between + (Packet(reply) + more);
    ReplyFound(env, past, s, early, stale, rest);
    var p := Pump(env, true, past, s, early + (Packet(stale) + rest));
    if PushAll(p.reader, between).piece == [] {
      ReplyFound(env, past + p.calls, p.reader, between, reply, more);
    }
  }

  // ------------------------------------------------------- one wait after another

  /** A reply on its way, and the bytes in front of it. */
  datatype Arrival = Arrival(gap: seq<byte>, reply: Frame) {
    predicate Sent() { Sendable(reply) && reply.kind == REPLY }

    function Bytes(): seq<byte>
      requires Sent()
    {
      gap + Packet(reply)
    }
  }

  predicate AllSent(list: seq<Arrival>) { forall i :: 0 <= i < |list| ==> list[i].Sent() }

  function Arriving(list: seq<Arrival>): seq<byte>
    requires AllSent(list)
    decreases |list|
  {
    if list == [] then [] else list[0].Bytes() + Arriving(list[1..])
  }

  /** Nothing between the replies ends a wait or runs into one. */
  ghost predicate Quiet(env: Env, past: seq<Fired>, s: State, list: seq<Arrival>)
    decreases |list|
  {
    list != [] ==>
      && PushAll(s, list[0].gap).piece == [] && !EndsIn(env, true, past, Reports(s, list[0].gap))
      && Quiet(env, past + Calls(env, Reports(s, list[0].gap)), State([], list[0].reply, FrameStatus.Ok), list[1..])
  }

  /** What successive waits hand back, when `arrivals[k]` comes in before wait `k`
      gives up. */
  ghost function Waits(env: Env, past: seq<Fired>, s: State, unread: seq<byte>, arrivals: seq<seq<byte>>)
    : seq<Option<Frame>>
    decreases |arrivals|
  {
    if arrivals == [] then []
    else
      var bytes := unread + arrivals[0];
      var p := Pump(env, true, past, s, bytes);
      PumpAccounts(env, true, past, s, bytes);
      [p.reply] + Waits(env, past + p.calls, p.reader, bytes[p.used..], arrivals[1..])
  }

  /** Replies handed out first come, first served: each wait gets the next one if all
      of it is there, `seen` bytes having come in since the last one handed out. */
  function Served(list: seq<Arrival>, seen: nat, arrivals: seq<seq<byte>>): (r: seq<Option<Frame>>)
    requires AllSent(list)
    ensures |r| == |arrivals|
    decreases |arrivals|
  {
    if arrivals == [] then []
    else
      var n := seen + |arrivals[0]|;
      if list != [] && n >= |list[0].Bytes()|
      then [Some(list[0].reply)] + Served(list[1..], n - |list[0].Bytes()|, arrivals[1..])
      else [None] + Served(list, n, arrivals[1..])
  }

  /** A wait over the next reply and anything behind it. */
  lemma WaitServed(env: Env, past: seq<Fired>, s: State, list: seq<Arrival>, more: seq<byte>)
    requires AllSent(list) && list != [] && Quiet(env, past, s, list)
    ensures var p := Pump(env, true, past, s, list[0].Bytes() + more);
            && p.reply == Some(list[0].reply) && p.used == |list[0].Bytes()| && !p.raised
            && Quiet(env, past + p.calls, p.reader, list[1..])
  {
    hide Pump, Packet, PushAll, Reports, Calls, EndsIn;
    Regroup(list[0].gap, Packet(list[0].reply), more);
    ReplyFound(env, past, s, list[0].gap, list[0].reply, more);
  }

  /** A wait that gives up before the next reply is complete. */
  lemma WaitTooShort(env: Env, past: seq<Fired>, s: State, list: seq<Arrival>, front: seq<byte>, back: seq<byte>)
    requires AllSent(list) && list != [] && Quiet(env, past, s, list)
    requires front + back == list[0].Bytes() && back != []
    ensures !Pump(env, true, past, s, front).Ended()
  {
    hide Pump, PushAll, Reports, Calls, Quiet;
    WaitServed(env, past, s, list, []);
    NothingBehind(front + back);
    PumpConcat(env, true, past, s, front, back);
    PumpAccounts(env, true, past, s, front);
  }

  /** The stream up to the next reply, cut where the bytes at hand end. */
  lemma CutStream(list: seq<Arrival>, hand: seq<byte>, future: seq<byte>)
    requires AllSent(list) && hand + future == Arriving(list)
    ensures list == [] ==> hand == [] && future == []
    ensures list != [] && |hand| >= |list[0].Bytes()| ==>
              var n := |list[0].Bytes()|;
              hand == list[0].Bytes() + hand[n..] && hand[n..] + future == Arriving(list[1..])
    ensures list != [] && |hand| < |list[0].Bytes()| ==>
              var b := list[0].Bytes();
              hand + b[|hand|..] == b
  {
    hide Arrival.Bytes;
    if list != [] {
      CutAgainst(hand, future, list[0].Bytes(), Arriving(list[1..]));
    }
  }

  lemma CutAgainst(hand: seq<byte>, future: seq<byte>, b: seq<byte>, rest: seq<byte>)
    requires hand + future == b + rest
    ensures |hand| >= |b| ==> hand == b + hand[|b|..] && hand[|b|..] + future == rest
    ensures |hand| < |b| ==> hand + b[|hand|..] == b
  {
    var whole := hand + future;
    assert whole[..|b|] == b && whole[|b|..] == rest;
    if |hand| >= |b| {
      assert hand[..|b|] == whole[..|b|];
      assert hand[|b|..] + future == whole[|b|..];
    } else {
      assert hand == whole[..|hand|] == b[..|hand|];
    }
  }

  /** The waits of a device are served first come, first served, whatever arrives in
      which wait: `taken` is what earlier waits took without reaching a reply. */
  lemma {:induction false} WaitsAreServed(env: Env, past: seq<Fired>, s: State, list: seq<Arrival>, taken: seq<byte>,
                                          unread: seq<byte>, arrivals: seq<seq<byte>>, future: seq<byte>)
    requires AllSent(list) && Quiet(env, past, s, list)
    requires taken + unread + (Flatten(arrivals) + future) == Arriving(list)
    requires !Pump(env, true, past, s, taken).Ended()
    ensures var p := Pump(env, true, past, s, taken);
            Waits(env, past + p.calls, p.reader, unread, arrivals) == Served(list, |taken| + |unread|, arrivals)
    decreases |arrivals|
  {
    hide Pump, Quiet, Arriving, Packet, Arrival.Bytes, Progress.Ended, Waits, Served, Flatten;
    if arrivals == [] {
      NoWaits(env, past + Pump(env, true, past, s, taken).calls, Pump(env, true, past, s, taken).reader, unread);
    } else {
      var p := Pump(env, true, past, s, taken);
      var first, rest, bytes := arrivals[0], arrivals[1..], unread + arrivals[0];
      var hand, later := taken + bytes, Flatten(rest) + future;
      FlattenHead(arrivals);
      RegroupArrivals(taken, unread, first, Flatten(rest), future);
      CutStream(list, hand, later);
      WaitsNext(env, past + p.calls, p.reader, unread, arrivals);
      Continued(env, past, s, taken, bytes);
      var w := Pump(env, true, past, s, hand);
      if list != [] && |hand| >= |list[0].Bytes()| {
        var n := |list[0].Bytes()|;
        ServedNext(list, |taken| + |unread|, arrivals);
        WaitServed(env, past, s, list, hand[n..]);
        StartAfresh(env, past + w.calls, w.reader);
        NothingBefore(hand[n..]);
        WaitsAreServed(env, past + w.calls, w.reader, list[1..], [], hand[n..], rest, future);
      } else {
        ServedLater(list, |taken| + |unread|, arrivals);
        if list != [] {
          WaitTooShort(env, past, s, list, hand, list[0].Bytes()[|hand|..]);
        } else {
          assert bytes == [];
          NothingBehind(taken);
        }
        EndedExactly(w);
        NothingBehind(hand);
        WaitsAreServed(env, past, s, list, hand, [], rest, future);
      }
    }
  }

  lemma NoWaits(env: Env, past: seq<Fired>, s: State, unread: seq<byte>)
    ensures Waits(env, past, s, unread, []) == []
    ensures forall list: seq<Arrival>, seen: nat :: AllSent(list) ==> Served(list, seen, []) == []
  {
  }

  lemma FlattenHead(arrivals: seq<seq<byte>>)
    requires arrivals != []
    ensures Flatten(arrivals) == arrivals[0] + Flatten(arrivals[1..])
  {
  }

  lemma WaitsNext(env: Env, past: seq<Fired>, s: State, unread: seq<byte>, arrivals: seq<seq<byte>>)
    requires arrivals != []
    ensures var bytes := unread + arrivals[0];
            var p := Pump(env, true, past, s, bytes);
            p.used <= |bytes| &&
            Waits(env, past, s, unread, arrivals) ==
            [p.reply] + Waits(env, past + p.calls, p.reader, bytes[p.used..], arrivals[1..])
  {
    hide Pump;
    PumpAccounts(env, true, past, s, unread + arrivals[0]);
  }

  lemma ServedNext(list: seq<Arrival>, seen: nat, arrivals: seq<seq<byte>>)
    requires AllSent(list) && arrivals != [] && list != [] && seen + |arrivals[0]| >= |list[0].Bytes()|
    ensures AllSent(list[1..])
    ensures Served(list, seen, arrivals) ==
            [Some(list[0].reply)] + Served(list[1..], seen + |arrivals[0]| - |list[0].Bytes()|, arrivals[1..])
  {
    hide Arrival.Bytes;
  }

  lemma ServedLater(list: seq<Arrival>, seen: nat, arrivals: seq<seq<byte>>)
    requires AllSent(list) && arrivals != [] && (list != [] ==> seen + |arrivals[0]| < |list[0].Bytes()|)
    ensures Served(list, seen, arrivals) == [None] + Served(list, seen + |arrivals[0]|, arrivals[1..])
  {
    hide Arrival.Bytes;
  }

  /** A run taken up again after bytes that did not end it. */
  lemma Continued(env: Env, past: seq<Fired>, s: State, taken: seq<byte>, bytes: seq<byte>)
    requires !Pump(env, true, past, s, taken).Ended()
    ensures var p, w := Pump(env, true, past, s, taken), Pump(env, true, past, s, taken + bytes);
            var q := Pump(env, true, past + p.calls, p.reader, bytes);
            && q.reply == w.reply && past + p.calls + q.calls == past + w.calls && q.reader == w.reader
            && q.used <= |bytes| && bytes[q.used..] == (taken + bytes)[|taken| + q.used..] && w.used == |taken| + q.used
            && (!w.Ended() ==> bytes[q.used..] == [])
  {
    hide Pump, PushAll, Calls, Reports;
    var p := Pump(env, true, past, s, taken);
    var q := Pump(env, true, past + p.calls, p.reader, bytes);
    PumpConcat(env, true, past, s, taken, bytes);
    PumpAccounts(env, true, past + p.calls, p.reader, bytes);
    Regroup(past, p.calls, q.calls);
    LeftBehind(taken, bytes, q.used);
  }

  lemma RegroupArrivals(a: seq<byte>, b: seq<byte>, c: seq<byte>, d: seq<byte>, e: seq<byte>)
    ensures a + b + (c + d + e) == a + (b + c) + (d + e)
  {
  }

  lemma LeftBehind(a: seq<byte>, b: seq<byte>, n: nat)
    requires n <= |b|
    ensures (a + b)[|a| + n..] == b[n..]
  {
  }

  lemma StartAfresh(env: Env, past: seq<Fired>, s: State)
    ensures var p := Pump(env, true, past, s, []);
            !p.Ended() && past + p.calls == past && p.reader == s
  {
    NothingBehind(past);
  }

  /** Each wait finds the next reply complete. */
  predicate InTime(list: seq<Arrival>, seen: nat, arrivals: seq<seq<byte>>)
    requires AllSent(list)
    decreases |arrivals|
  {
    arrivals != [] ==>
      && list != [] && seen + |arrivals[0]| >= |list[0].Bytes()|
      && InTime(list[1..], seen + |arrivals[0]| - |list[0].Bytes()|, arrivals[1..])
  }

  lemma {:induction false} ServedInTime(list: seq<Arrival>, seen: nat, arrivals: seq<seq<byte>>)
    requires AllSent(list) && InTime(list, seen, arrivals)
    ensures |arrivals| <= |list|
    ensures forall i :: 0 <= i < |arrivals| ==> Served(list, seen, arrivals)[i] == Some(list[i].reply)
    decreases |arrivals|
  {
    hide Arrival.Bytes;
    if arrivals != [] {
      ServedInTime(list[1..], seen + |arrivals[0]| - |list[0].Bytes()|, arrivals[1..]);
    }
  }

  /** One reply late, and every wait from then on is one reply behind: where
      `list[k]` answers the k-th call and the first call gives up before its answer
      is complete, the call after the k-th is handed the answer to the k-th. */
  lemma OneBehind(env: Env, past: seq<Fired>, s: State, list: seq<Arrival>, arrivals: seq<seq<byte>>, future: seq<byte>)
    requires AllSent(list) && Quiet(env, past, s, list) && Flatten(arrivals) + future == Arriving(list)
    requires arrivals != [] && list != [] && |arrivals[0]| < |list[0].Bytes()|
    requires InTime(list, |arrivals[0]|, arrivals[1..])
    ensures |Waits(env, past, s, [], arrivals)| == |arrivals| <= |list| + 1
    ensures Waits(env, past, s, [], arrivals)[0] == None
    ensures forall i :: 1 <= i < |arrivals| ==> Waits(env, past, s, [], arrivals)[i] == Some(list[i - 1].reply)
  {
    hide Pump, Quiet, Arriving, Arrival.Bytes, Waits, Served, InTime;
    StartAfresh(env, past, s);
    NothingBefore<byte>([]);
    NothingBefore(Flatten(arrivals) + future);
    WaitsAreServed(env, past, s, list, [], [], arrivals, future);
    ServedLater(list, 0, arrivals);
    ServedInTime(list, |arrivals[0]|, arrivals[1..]);
  }

  /** What puts host and device in step again: a poll drops every reply it meets, so
      behind a poll that went through a wait gets the next reply, whatever the poll
      dropped. */
  lemma PollResynchronises(env: Env, past: seq<Fired>, s: State, chunk: seq<byte>,
                           gap: seq<byte>, reply: Frame, more: seq<byte>)
    requires ZeroFree(s.piece) && Sendable(reply) && reply.kind == REPLY
    ensures var p := Pump(env, false, past, s, chunk);
            !p.raised ==>
              var w := Pump(env, true, past + p.calls, p.reader, gap + (Packet(reply) + more));
              && p.used == |chunk| && p.reply.None? && p.reader == PushAll(s, chunk)
              && (w.reply == Some(reply) && w.used == |gap| + |Packet(reply)|
                  <==> PushAll(p.reader, gap).piece == []
                       && !EndsIn(env, true, past + p.calls, Reports(p.reader, gap)))
  {
    hide Pump, Packet, PushAll, Reports, Calls, EndsIn, ZeroFree, Split;
    var p := Pump(env, false, past, s, chunk);
    PumpAccounts(env, false, past, s, chunk);
    if !p.raised {
      assert chunk[..|chunk|] == chunk;
      ReaderIsSplitter(s, chunk);
      ReplyFoundExactly(env, past + p.calls, p.reader, gap, reply, more);
    }
  }

  // ------------------------------------------------------------------- the device

  /** All the bytes of some reads. */
  function Flatten(chunks: seq<seq<byte>>): seq<byte>
    decreases |chunks|
  {
    if chunks == [] then [] else chunks[0] + Flatten(chunks[1..])
  }

  /** The bytes a wait can still get: reading stops at the first empty read. */
  function UntilEmpty(chunks: seq<seq<byte>>): seq<byte>
    decreases |chunks|
  {
    if chunks == [] || chunks[0] == [] then [] else chunks[0] + UntilEmpty(chunks[1..])
  }

  /** A wait reads on through all reads that bring something and not past the first
      that does not. */
  lemma {:induction false} WaitEndsAtEmptyRead(chunks: seq<seq<byte>>, later: seq<seq<byte>>)
    requires forall i :: 0 <= i < |chunks| ==> chunks[i] != []
    ensures UntilEmpty(chunks) == UntilEmpty(chunks + [[]] + later) == Flatten(chunks)
    decreases |chunks|
  {
    if chunks != [] {
      WaitEndsAtEmptyRead(chunks[1..], later);
      assert (chunks + [[]] + later)[1..] == chunks[1..] + [[]] + later;
    }
  }

  /** What one more byte does to a run begun by `calls`: it ends here, or goes on. */
  lemma PumpNext(env: Env, stop: bool, past: seq<Fired>, s: State, b: byte, tail: seq<byte>,
                 calls: seq<Fired>, used: nat, delivered: nat)
    ensures var t, took := Push(s, b), Taking(env, stop, past, s, b);
            var whole := Ahead(calls, used, delivered, Pump(env, stop, past, s, [b] + tail));
            var now := calls + CallsOf(took);
            var rest := Pump(env, stop, past + CallsOf(took), t, tail);
            match took
            case Nothing => whole == Ahead(now, used + 1, delivered, rest)
            case GotReply(f) => whole == Progress(t, now, used + 1, delivered, false, Some(f))
            case Gave(_) => whole == Ahead(now, used + 1, delivered + 1, rest)
            case Threw(_) => whole == Progress(t, now, used + 1, delivered, true, None)
  {
    hide Taking, Push, Pump;
    var took := Taking(env, stop, past, s, b);
    PumpStep(env, stop, past, s, b, tail);
    AheadAhead(calls, used, delivered, CallsOf(took), 1, if took.Gave? then 1 else 0,
               Pump(env, stop, past + CallsOf(took), Push(s, b), tail));
  }

  /** A run that reaches the end of its bytes. */
  lemma PumpStops(env: Env, stop: bool, past: seq<Fired>, s: State, calls: seq<Fired>, used: nat, delivered: nat)
    ensures Ahead(calls, used, delivered, Pump(env, stop, past, s, [])) ==
            Progress(s, calls, used, delivered, false, None)
  {
    NothingBehind(calls);
  }

  /** The byte after `done`. */
  lemma NextOf(done: seq<byte>, rest: seq<byte>, whole: seq<byte>)
    requires done + rest == whole && |done| < |whole|
    ensures rest == [whole[|done|]] + rest[1..]
  {
    assert whole[|done|] == rest[0];
  }

  lemma WaitMore(chunks: seq<seq<byte>>)
    ensures UntilEmpty(chunks) ==
            if chunks == [] || chunks[0] == [] then [] else chunks[0] + UntilEmpty(chunks[1..])
  {
  }

  lemma OffTheBuffer(buffer: seq<byte>, pos: nat)
    requires 0 < pos <= |buffer|
    ensures buffer[pos - 1..] == [buffer[pos - 1]] + buffer[pos..]
    ensures pos == 1 ==> buffer[pos - 1..] == buffer
  {
  }

  /** Bytes move from the buffer to the reader without a gap. */
  lemma StillConserved(reading: seq<byte>, pushed: seq<byte>, had: seq<byte>, arrived: seq<byte>,
                       taken: seq<byte>, left: seq<byte>)
    requires had + arrived == taken + left
    ensures reading == pushed + had ==> reading + arrived == pushed + taken + left
  {
    assert pushed + (had + arrived) == pushed + had + arrived;
    assert pushed + (taken + left) == pushed + taken + left;
  }

  /** With the buffer dropped, what was read is what was pushed exactly if every
      byte of the chunk was. */
  lemma LostExactly(reading: seq<byte>, pushed: seq<byte>, had: seq<byte>, arrived: seq<byte>, done: seq<byte>)
    requires done <= had + arrived
    ensures reading == pushed + had ==>
            (reading + arrived == pushed + done + [] <==> |done| == |had + arrived|)
  {
    assert pushed + (had + arrived) == pushed + had + arrived;
  }

  /** The books of a device: the reader is where the bytes pushed so far put it,
      and since the present callbacks were put in place (at byte `since` and
      invocation `firedThen`) exactly the callbacks those bytes call for have been fired. */
  ghost predicate Accounts(env: Env, view: State, pushed: seq<byte>, fired: seq<Fired>, since: nat, firedThen: nat) {
    && view == PushAll(FRESH, pushed)
    && since <= |pushed| && firedThen <= |fired|
    && fired[firedThen..] == Calls(env, Reports(PushAll(FRESH, pushed[..since]), pushed[since..]))
  }

  /** A run over bytes keeps the books. */
  lemma AccountsKept(env: Env, stop: bool, past: seq<Fired>, s: State, bytes: seq<byte>, done: seq<byte>,
                     pushed: seq<byte>, fired: seq<Fired>, since: nat, firedThen: nat,
                     view': State, pushed': seq<byte>, fired': seq<Fired>)
    requires Accounts(env, s, pushed, fired, since, firedThen) && done <= bytes
    requires var p := Pump(env, stop, past, s, bytes);
             p.used == |done| && view' == p.reader && fired' == fired + p.calls && pushed' == pushed + done
    ensures Accounts(env, view', pushed', fired', since, firedThen)
    ensures bytes[..|done|] == done
  {
    hide Pump, PushAll, Reports, Calls;
    PumpAccounts(env, stop, past, s, bytes);
    assert bytes[..|done|] == done;
    var calls := Pump(env, stop, past, s, bytes).calls;
    var front, back := pushed[..since], pushed[since..];
    var more := pushed + done;
    assert more[..since] == front && more[since..] == back + done && pushed == front + back;
    assert (fired + calls)[firedThen..] == fired[firedThen..] + calls;
    PushAllConcat(FRESH, front, back);
    PushAllConcat(FRESH, pushed, done);
    CallsOfConcat(env, PushAll(FRESH, front), back, done);
  }

  lemma AccountsRestart(env: Env, view: State, pushed: seq<byte>, fired: seq<Fired>)
    requires view == PushAll(FRESH, pushed)
    ensures Accounts(env, view, pushed, fired, |pushed|, |fired|)
  {
    hide Reports, PushAll, Calls;
    assert pushed[..|pushed|] == pushed && pushed[|pushed|..] == [] && fired[|fired|..] == [];
    NothingPushed(env, PushAll(FRESH, pushed));
  }

  /** With the callbacks in place from the start: the invocations are those the
      stream frames among the pushed bytes call for, cut at delimiters, in order. */
  lemma FiredExactly(env: Env, view: State, pushed: seq<byte>, fired: seq<Fired>)
    requires Accounts(env, view, pushed, fired, 0, 0)
    ensures fired == Calls(env, Verdicts(Split(pushed).closed))
    ensures view.piece == Split(pushed).rest
  {
    hide Reports, PushAll, Calls, Split, Verdicts;
    assert pushed[..0] == [] && pushed[0..] == pushed && fired[0..] == fired;
    NothingPushed(env, FRESH);
    ReaderIsSplitter(FRESH, pushed);
    assert SplitAfter([], pushed) == Split(pushed) by {
      assert [] + pushed == pushed;
    }
  }

  /** A poll loses bytes exactly when a frame completed before the last byte of
      its chunk raises. */
  lemma PollLosesExactly(env: Env, past: seq<Fired>, s: State, chunk: seq<byte>)
    ensures Pump(env, false, past, s, chunk).used < |chunk| <==>
            chunk != [] && EndsIn(env, false, past, Reports(s, chunk[..|chunk| - 1]))
  {
    hide Pump, PushAll, Reports, Calls, EndsIn;
    if chunk == [] {
      PumpNothing(env, false, past, s);
    } else {
      var front, last := chunk[..|chunk| - 1], [chunk[|chunk| - 1]];
      FrontAndLast(chunk);
      var p := Pump(env, false, past, s, front);
      PumpConcat(env, false, past, s, front, last);
      PumpEnds(env, false, past, s, front);
      PumpAccounts(env, false, past, s, front);
      OneByteUsed(env, false, past + p.calls, p.reader, last[0]);
    }
  }

  lemma OneByteUsed(env: Env, stop: bool, past: seq<Fired>, s: State, b: byte)
    ensures Pump(env, stop, past, s, [b]).used == 1
  {
    hide Taking;
    var t, now := Push(s, b), past + CallsOf(Taking(env, stop, past, s, b));
    NothingBehind([b]);
    PumpStep(env, stop, past, s, b, []);
    PumpNothing(env, stop, now, t);
  }

  /** A malformed packet of a stream somebody listens to, with anything behind it
      in the same chunk: what is behind it is lost. */
  lemma MalformedStreamLosesBytes(env: Env, past: seq<Fired>, s: State, f: Frame, more: seq<byte>)
    requires s.piece == [] && Sendable(f) && f.kind == STREAM && DueFor(env, f) == Malformed && more != []
    ensures var p := Pump(env, false, past, s, Packet(f) + more);
            p.raised && p.used == |Packet(f)| < |Packet(f) + more|
  {
    hide DueFor, Packet, Pump;
    PumpPacket(env, false, past, s, f);
    PumpConcat(env, false, past, s, Packet(f), more);
  }

  /** For one: a stream packet too short for its counter, and one byte after it. */
  lemma LossExample(env: Env)
    requires env.registry == map[7 := Decoder("telemetry", [])] && "telemetry" in env.callbacks
    ensures var f := Frame(STREAM, [7]); var p := Pump(env, false, [], FRESH, Packet(f) + [1]);
            p.raised && p.calls == [] && p.used == 7 && |Packet(f) + [1]| == 8
  {
    hide Packet, Pump, DueFor;
    var f := Frame(STREAM, [7]);
    PacketSize(f);
    ShortIsMalformed(env);
    PumpPacket(env, false, [], FRESH, f);
    PumpConcat(env, false, [], FRESH, Packet(f), [1]);
  }

  lemma ShortIsMalformed(env: Env)
    requires env.registry == map[7 := Decoder("telemetry", [])] && "telemetry" in env.callbacks
    ensures DueFor(env, Frame(STREAM, [7])) == Malformed
  {
    hide Stream.ReadBody;
    assert [7][1..] == [] && Frame(STREAM, [7]).payload[0] in env.registry;
    NoCounter();
  }

  lemma NoCounter()
    ensures Stream.ReadBody([], []) == None
  {
  }

  /** `Device`. The transport is the list of what future reads will return. */
  class Device {
    var incoming: seq<seq<byte>>
    var outgoing: seq<seq<byte>>
    const reader: FrameReader
    const registry: map<byte, Decoder>
    var callbacks: map<string, Callback>
    var pending: seq<byte>
    var pendingPos: nat
    /** Every callback invocation so far. */
    var fired: seq<Fired>

    /** Every byte read, and every byte handed to the reader. */
    ghost var received: seq<byte>
    ghost var pushed: seq<byte>
    /** Where the present callbacks were put in place. */
    ghost var pushedThen: nat
    ghost var firedThen: nat

    ghost predicate Valid()
      reads this, reader, reader.Repr
    {
      && this !in reader.Repr && reader.Valid()
      && pendingPos <= |pending|
      && Accounts(TheEnv(), reader.View(), pushed, fired, pushedThen, firedThen)
    }

    ghost function TheEnv(): Env
      reads this
    {
      Env(registry, callbacks)
    }

    /** Read but not yet handed on. */
    ghost function Unread(): seq<byte>
      reads this
      requires pendingPos <= |pending|
    {
      pending[pendingPos..]
    }

    /** What a wait can still get: the buffer, and reads up to the first empty one. */
    ghost function Available(): seq<byte>
      reads this
      requires pendingPos <= |pending|
    {
      Unread() + UntilEmpty(incoming)
    }

    /** No byte lost, duplicated or reordered. */
    ghost predicate Conserved()
      reads this
      requires pendingPos <= |pending|
    {
      received == pushed + Unread()
    }

    /** The whole inbound stream, past reads and future ones. */
    ghost function Inbound(): seq<byte>
      reads this
    {
      received + Flatten(incoming)
    }

    constructor (reg: map<byte, Decoder>, chunks: seq<seq<byte>>)
      ensures Valid() && fresh(reader) && fresh(reader.Repr) && Conserved()
      ensures registry == reg && incoming == chunks && callbacks == map[] && fired == [] && pushed == []
      ensures pushedThen == 0 && firedThen == 0
    {
      reader := new FrameReader();
      registry, callbacks, incoming, outgoing := reg, map[], chunks, [];
      pending, pendingPos, fired := [], 0, [];
      received, pushed, pushedThen, firedThen := [], [], 0, 0;
      new;
      AccountsRestart(TheEnv(), reader.View(), [], []);
    }

    /** `on`: register or replace a callback. */
    method On(name: string, cb: Callback)
      requires Valid()
      modifies this`callbacks, this`pushedThen, this`firedThen
      ensures Valid() && callbacks == old(callbacks)[name := cb]
      ensures pushedThen == |pushed| && firedThen == |fired|
    {
      hide PushAll;
      callbacks := callbacks[name := cb];
      pushedThen, firedThen := |pushed|, |fired|;
      AccountsRestart(TheEnv(), reader.View(), pushed, fired);
    }

    method SendCommand(wire: seq<byte>) returns (sent: bool)
      requires Valid()
      modifies this`outgoing
      ensures Valid() && sent && outgoing == old(outgoing) + [wire]
    {
      outgoing := outgoing + [wire];
      return true;
    }

    /** `read_chunk`: one read from the transport. */
    method ReadChunk() returns (chunk: seq<byte>)
      modifies this`incoming, this`received
      ensures chunk == if old(incoming) == [] then [] else old(incoming)[0]
      ensures incoming == if old(incoming) == [] then [] else old(incoming)[1..]
      ensures received == old(received) + chunk && Inbound() == old(Inbound())
    {
      ghost var reading, all := received, Flatten(incoming);
      if incoming == [] {
        chunk := [];
      } else {
        chunk, incoming := incoming[0], incoming[1..];
      }
      received := received + chunk;
      assert reading + (chunk + Flatten(incoming)) == reading + chunk + Flatten(incoming);
    }

    /** `next_byte`: -1 when a read comes back empty. */
    method NextByte() returns (b: int)
      requires pendingPos <= |pending|
      modifies this`incoming, this`received, this`pending, this`pendingPos
      ensures pendingPos <= |pending| && -1 <= b < 256
      ensures Inbound() == old(Inbound())
      ensures old(Conserved()) ==> received == pushed + (if b >= 0 then [b] else []) + Unread()
      ensures old(Available()) == if b >= 0 then [b] + Available() else []
    {
      hide Flatten, UntilEmpty;
      ghost var had, reading, arrived: seq<byte> := Unread(), received, [];
      NothingBehind(had);
      if pendingPos >= |pending| {
        WaitMore(incoming);
        NothingBefore(UntilEmpty(incoming));
        pending := ReadChunk();
        arrived := pending;
        pendingPos := 0;
        NothingBefore(arrived);
        if |pending| == 0 {
          StillConserved(reading, pushed, had, arrived, [], []);
          return -1;
        }
      }
      b := pending[pendingPos];
      pendingPos := pendingPos + 1;
      OffTheBuffer(pending, pendingPos);
      Regroup([b], Unread(), UntilEmpty(incoming));
      StillConserved(reading, pushed, had, arrived, [b], Unread());
    }

    /** `dispatch_stream`. */
    method DispatchStream(f: Frame) returns (delivered: bool, raised: bool, made: seq<Fired>)
      modifies this`fired
      ensures fired == old(fired) + made
      ensures match React(TheEnv(), old(fired), f)
              case Skipped => !delivered && !raised && made == []
              case Delivered(call) => delivered && !raised && made == [call]
              case Raised(calls) => !delivered && raised && made == calls
    {
      hide Decode, DecodeField;
      NothingBehind(fired);
      if |f.payload| < 1 || f.payload[0] !in registry {
        return false, false, [];
      }
      var entry := registry[f.payload[0]];
      if entry.name !in callbacks {
        return false, false, [];
      }
      var body := f.payload[1..];
      var m := DecodeStream(entry.fields, body);
      if m.None? {
        return false, true, [];
      }
      var returned := callbacks[entry.name](fired, m.value.n, m.value.vs);
      made := [Fired(entry.name, m.value.n, m.value.vs)];
      fired := fired + made;
      return returned, !returned, made;
    }

    /** What `poll` and `await_reply` both do with a byte: push it, and react to
        a frame it completes. */
    method TakeByte(b: byte, stop: bool) returns (took: Took)
      requires reader.Valid() && this !in reader.Repr
      modifies this`pushed, this`fired, reader.Repr
      ensures reader.Valid() && reader.View() == Push(old(reader.View()), b)
      ensures pushed == old(pushed) + [b] && took == Taking(TheEnv(), stop, old(fired), old(reader.View()), b)
      ensures fired == old(fired) + CallsOf(took)
      ensures took.GotReply? ==> stop && reader.frame.View() == took.frame && took.frame.kind == REPLY
    {
      hide Push, EventOf, VerdictOn, React, Run;
      ghost var before := reader.View();
      NothingBehind(fired);
      var event := reader.PushByte(b);
      pushed := pushed + [b];
      if event != FrameReady {
        return Nothing;
      }
      assert reader.frame.View() == Push(before, b).frame;
      if stop && reader.frame.kind == REPLY {
        return GotReply(reader.frame.View());
      }
      if reader.frame.kind == STREAM {
        var ok, raised, made := DispatchStream(reader.frame.View());
        return if raised then Threw(made) else if ok then Gave(made[0]) else Nothing;
      }
      return Nothing;
    }

    /** The loop of `poll`. */
    method PushChunk(chunk: seq<byte>) returns (delivered: nat, raised: bool, ghost done: seq<byte>)
      requires reader.Valid() && this !in reader.Repr
      modifies this`pushed, this`fired, reader.Repr
      ensures reader.Valid() && done <= chunk && pushed == old(pushed) + done
      ensures var p := Pump(TheEnv(), false, old(fired), old(reader.View()), chunk);
              && p.used == |done| && p.reader == reader.View() && fired == old(fired) + p.calls
              && raised == p.raised && delivered == p.delivered
    {
      hide Pump, Push, Taking, CallsOf, Run, Flatten, Ahead;
      ghost var s, env, was, firedWas := reader.View(), TheEnv(), pushed, fired;
      ghost var whole := Pump(env, false, fired, s, chunk);
      ghost var calls: seq<Fired>, rest: seq<byte> := [], chunk;
      AheadNothing(whole);
      NothingBefore(chunk);
      NothingBehind(fired);
      NothingBehind(pushed);
      delivered, raised, done := 0, false, [];
      for i := 0 to |chunk|
        invariant reader.Valid() && |done| == i && done + rest == chunk
        invariant whole == Ahead(calls, i, delivered, Pump(env, false, fired, reader.View(), rest))
        invariant fired == firedWas + calls && pushed == was + done
      {
        ghost var tail := rest[1..];
        NextOf(done, rest, chunk);
        PumpNext(env, false, fired, reader.View(), chunk[i], tail, calls, i, delivered);
        Regroup(done, [chunk[i]], tail);
        var took := TakeByte(chunk[i], false);
        Regroup(firedWas, calls, CallsOf(took));
        Regroup(was, done, [chunk[i]]);
        done, rest := done + [chunk[i]], tail;
        calls := calls + CallsOf(took);
        if took.Threw? {
          return delivered, true, done;
        }
        if took.Gave? {
          delivered := delivered + 1;
        }
      }
      PumpStops(env, false, fired, reader.View(), calls, |chunk|, delivered);
      NothingBehind(done);
    }

    /** `poll`: what was buffered, plus one read. When something raises, the rest
        of the chunk has already left the buffer and is never pushed: that is
        exactly when a byte is lost. */
    method Poll() returns (delivered: nat, raised: bool, ghost chunk: seq<byte>)
      requires Valid()
      modifies this`incoming, this`received, this`pending, this`pendingPos, this`pushed, this`fired, reader.Repr
      ensures Valid()
      ensures Unread() == []
      ensures chunk == old(Unread()) + (if old(incoming) == [] then [] else old(incoming)[0])
      ensures incoming == if old(incoming) == [] then [] else old(incoming)[1..]
      ensures var p := Pump(TheEnv(), false, old(fired), old(reader.View()), chunk);
              && p.used <= |chunk| && pushed == old(pushed) + chunk[..p.used]
              && fired == old(fired) + p.calls && raised == p.raised && delivered == p.delivered
      ensures Inbound() == old(Inbound())
      ensures old(Conserved()) ==>
                (Conserved() <==> Pump(TheEnv(), false, old(fired), old(reader.View()), chunk).used == |chunk|)
    {
      hide Accounts, Pump, Run, Flatten;
      ghost var s, was, firedWas := reader.View(), pushed, fired;
      var arrived := ReadChunk();
      var taken := pending[pendingPos..] + arrived;
      chunk := taken;
      pending := [];
      pendingPos := 0;
      ghost var done;
      delivered, raised, done := PushChunk(taken);
      AccountsKept(TheEnv(), false, firedWas, s, chunk, done, was, firedWas, pushedThen, firedThen,
                   reader.View(), pushed, fired);
      LostExactly(old(received), was, old(Unread()), arrived, done);
    }

    /** One turn of the loop of `await_reply`: fetch a byte if there is one, and
        take it. */
    method Advance() returns (more: bool, took: Took, ghost b: byte)
      requires reader.Valid() && this !in reader.Repr && pendingPos <= |pending|
      modifies this`incoming, this`received, this`pending, this`pendingPos, this`pushed, this`fired, reader.Repr
      ensures reader.Valid() && pendingPos <= |pending|
      ensures old(Available()) == if more then [b] + Available() else []
      ensures TheEnv() == old(TheEnv())
      ensures !more ==> reader.View() == old(reader.View()) && fired == old(fired) && pushed == old(pushed)
      ensures more ==> reader.View() == Push(old(reader.View()), b)
                       && took == Taking(TheEnv(), true, old(fired), old(reader.View()), b)
      ensures more ==> fired == old(fired) + CallsOf(took) && pushed == old(pushed) + [b]
      ensures more && took.GotReply? ==> reader.frame.View() == took.frame
      ensures Inbound() == old(Inbound()) && (old(Conserved()) ==> Conserved())
    {
      hide Push, Taking, CallsOf, Run, Flatten, UntilEmpty;
      var next := NextByte();
      if next < 0 {
        return false, Nothing, 0;
      }
      took := TakeByte(next, true);
      return true, took, next;
    }

    /** The loop of `await_reply`. */
    method WaitForReply() returns (ok: bool, raised: bool, ghost done: seq<byte>)
      requires reader.Valid() && this !in reader.Repr && pendingPos <= |pending|
      modifies this`incoming, this`received, this`pending, this`pendingPos, this`pushed, this`fired, reader.Repr
      ensures reader.Valid() && pendingPos <= |pending|
      ensures done <= old(Available()) && pushed == old(pushed) + done
      ensures var p := Pump(TheEnv(), true, old(fired), old(reader.View()), old(Available()));
              && p.used == |done| && p.reader == reader.View() && fired == old(fired) + p.calls
              && raised == p.raised && ok == p.reply.Some? && (ok ==> reader.frame.View() == p.reply.value)
      ensures Inbound() == old(Inbound()) && (old(Conserved()) ==> Conserved())
    {
      hide *;
      ghost var available, s, env, was, firedWas := Available(), reader.View(), TheEnv(), pushed, fired;
      ghost var whole := Pump(env, true, fired, s, available);
      ghost var calls: seq<Fired>, rest: seq<byte>, delivered: nat := [], available, 0;
      AheadNothing(whole);
      NothingBefore(available);
      NothingBehind(fired);
      NothingBehind(pushed);
      ok, raised, done := false, false, [];
      while true
        invariant reader.Valid() && pendingPos <= |pending| && TheEnv() == env
        invariant done + rest == available && rest == Available()
        invariant whole == Ahead(calls, |done|, delivered, Pump(env, true, fired, reader.View(), rest))
        invariant fired == firedWas + calls && pushed == was + done
        invariant Inbound() == old(Inbound()) && (old(Conserved()) ==> Conserved())
        decreases |rest|
      {
        ghost var view, past := reader.View(), fired;
        var more, took, b := Advance();
        if !more {
          PumpStops(env, true, past, view, calls, |done|, delivered);
          NothingBehind(done);
          return false, false, done;
        }
        ghost var tail := Available();
        PumpNext(env, true, past, view, b, tail, calls, |done|, delivered);
        Regroup(done, [b], tail);
        Regroup(firedWas, calls, CallsOf(took));
        Regroup(was, done, [b]);
        done, rest := done + [b], tail;
        calls := calls + CallsOf(took);
        if took.GotReply? {
          return true, false, done;
        }
        if took.Threw? {
          return false, true, done;
        }
        if took.Gave? {
          delivered := delivered + 1;
        }
      }
    }

    /** `await_reply`: byte by byte, so nothing behind the reply is touched; bytes
        survive even a raise. */
    method AwaitReply(out: FrameBuffer) returns (ok: bool, raised: bool)
      requires Valid() && out.Valid() && out !in reader.Repr && out.payload !in reader.Repr
      modifies this`incoming, this`received, this`pending, this`pendingPos, this`pushed, this`fired, reader.Repr
      modifies out`kind, out`length, out.payload
      ensures Valid() && out.Valid()
      ensures var p := Pump(TheEnv(), true, old(fired), old(reader.View()), old(Available()));
              && p.used <= |old(Available())| && pushed == old(pushed) + old(Available())[..p.used]
              && fired == old(fired) + p.calls && raised == p.raised && ok == p.reply.Some?
              && out.View() == if ok then p.reply.value else old(out.View())
      ensures Inbound() == old(Inbound()) && (old(Conserved()) ==> Conserved())
    {
      hide Accounts, Pump, Run, Flatten, UntilEmpty;
      ghost var s, was, firedWas, available := reader.View(), pushed, fired, Available();
      ghost var done;
      ok, raised, done := WaitForReply();
      AccountsKept(TheEnv(), true, firedWas, s, available, done, was, firedWas, pushedThen, firedThen,
                   reader.View(), pushed, fired);
      if ok {
        out.Assign(reader.frame);
      }
    }
  }

  /** What a host may do with its device besides calling it. */
  datatype Move = Poll | Wait | Listen(name: string, cb: Callback)

  /** The callbacks in place at the start, and after each registration. */
  function Stages(env: Env, plan: seq<Move>): (envs: seq<Env>)
    ensures |envs| >= 1
    decreases |plan|
  {
    if plan == [] then [env]
    else if plan[0].Listen? then [env] + Stages(env.(callbacks := env.callbacks[plan[0].name := plan[0].cb]), plan[1..])
    else Stages(env, plan[1..])
  }

  lemma {:induction false} StagesNext(env: Env, plan: seq<Move>, m: Move)
    ensures var envs := Stages(env, plan);
            var last := envs[|envs| - 1];
            Stages(env, plan + [m]) ==
            if m.Listen? then envs + [last.(callbacks := last.callbacks[m.name := m.cb])] else envs
    decreases |plan|
  {
    if plan == [] {
      assert plan + [m] == [m] && [m][1..] == [];
    } else {
      var next := if plan[0].Listen? then env.(callbacks := env.callbacks[plan[0].name := plan[0].cb]) else env;
      StagesNext(next, plan[1..], m);
      assert (plan + [m])[1..] == plan[1..] + [m];
    }
  }

  lemma StageAfter(start: Env, plan: seq<Move>, ran: nat, envs: seq<Env>, env: Env)
    requires ran < |plan| && Stages(start, plan[..ran]) == envs + [env]
    ensures var m := plan[ran];
            Stages(start, plan[..ran + 1]) ==
            if m.Listen? then envs + [env] + [env.(callbacks := env.callbacks[m.name := m.cb])] else envs + [env]
  {
    hide Stages;
    TakeNext(plan, ran);
    StagesNext(start, plan[..ran], plan[ran]);
  }

  /** What the bytes pushed under each set of callbacks in turn call for. */
  function CallsByStage(s: State, envs: seq<Env>, pieces: seq<seq<byte>>): seq<Fired>
    requires |envs| == |pieces|
    decreases |pieces|
  {
    if pieces == [] then []
    else Calls(envs[0], Reports(s, pieces[0])) + CallsByStage(PushAll(s, pieces[0]), envs[1..], pieces[1..])
  }

  lemma {:induction false} CallsByStageNext(s: State, envs: seq<Env>, pieces: seq<seq<byte>>,
                                            env: Env, piece: seq<byte>)
    requires |envs| == |pieces|
    ensures CallsByStage(s, envs + [env], pieces + [piece]) ==
            CallsByStage(s, envs, pieces) + Calls(env, Reports(PushAll(s, Flatten(pieces)), piece))
    ensures Flatten(pieces + [piece]) == Flatten(pieces) + piece
    decreases |pieces|
  {
    hide Calls, Reports, PushAll;
    var last := Calls(env, Reports(PushAll(s, Flatten(pieces)), piece));
    if pieces == [] {
      assert pieces + [piece] == [piece] && envs + [env] == [env];
      assert [piece][1..] == [] && [env][1..] == [];
      NothingBehind(piece);
      NothingBefore(piece);
      PushedNothing(s);
      NothingBehind(last);
      NothingBefore(last);
    } else {
      var t := PushAll(s, pieces[0]);
      CallsByStageNext(t, envs[1..], pieces[1..], env, piece);
      assert (pieces + [piece])[1..] == pieces[1..] + [piece] && (envs + [env])[1..] == envs[1..] + [env];
      PushAllConcat(s, pieces[0], Flatten(pieces[1..]));
      Regroup(pieces[0], Flatten(pieces[1..]), piece);
      Regroup(Calls(envs[0], Reports(s, pieces[0])), CallsByStage(t, envs[1..], pieces[1..]), last);
    }
  }

  lemma PushedNothing(s: State)
    ensures PushAll(s, []) == s
  {
  }

  /** The stages closed so far, and what was pushed and fired under them. */
  ghost predicate Closed(envs: seq<Env>, pieces: seq<seq<byte>>, pushed: seq<byte>, since: nat,
                         fired: seq<Fired>, firedThen: nat) {
    && |envs| == |pieces|
    && since <= |pushed| && Flatten(pieces) == pushed[..since]
    && firedThen <= |fired| && CallsByStage(FRESH, envs, pieces) == fired[..firedThen]
  }

  lemma ClosedStays(envs: seq<Env>, pieces: seq<seq<byte>>, pushed: seq<byte>, since: nat,
                    fired: seq<Fired>, firedThen: nat, more: seq<byte>, calls: seq<Fired>)
    requires Closed(envs, pieces, pushed, since, fired, firedThen)
    ensures Closed(envs, pieces, pushed + more, since, fired + calls, firedThen)
  {
    assert (pushed + more)[..since] == pushed[..since] && (fired + calls)[..firedThen] == fired[..firedThen];
  }

  /** The books since the last registration, after those kept before it. */
  lemma CloseStage(env: Env, view: State, pushed: seq<byte>, fired: seq<Fired>, since: nat, firedThen: nat,
                   envs: seq<Env>, pieces: seq<seq<byte>>)
    requires Accounts(env, view, pushed, fired, since, firedThen)
    requires Closed(envs, pieces, pushed, since, fired, firedThen)
    ensures Closed(envs + [env], pieces + [pushed[since..]], pushed, |pushed|, fired, |fired|)
    ensures Flatten(pieces + [pushed[since..]]) == pushed
    ensures CallsByStage(FRESH, envs + [env], pieces + [pushed[since..]]) == fired
  {
    hide Calls, Reports, PushAll, Flatten, CallsByStage;
    CallsByStageNext(FRESH, envs, pieces, env, pushed[since..]);
    CutAt(pushed, since);
    CutAt(fired, firedThen);
    assert pushed[..|pushed|] == pushed && fired[..|fired|] == fired;
  }

  /** One move. */
  method Make(dev: Device, m: Move) returns (raised: bool, ghost more: seq<byte>, ghost calls: seq<Fired>)
    requires dev.Valid() && dev.Conserved()
    modifies dev`incoming, dev`received, dev`pending, dev`pendingPos, dev`pushed, dev`fired, dev.reader.Repr
    modifies dev`callbacks, dev`pushedThen, dev`firedThen
    ensures dev.Valid() && (!raised ==> dev.Conserved()) && dev.Inbound() == old(dev.Inbound())
    ensures dev.pushed == old(dev.pushed) + more && dev.fired == old(dev.fired) + calls
    ensures dev.callbacks == if m.Listen? then old(dev.callbacks)[m.name := m.cb] else old(dev.callbacks)
    ensures if m.Listen?
            then more == [] && calls == [] && dev.pushedThen == |dev.pushed| && dev.firedThen == |dev.fired|
            else dev.pushedThen == old(dev.pushedThen) && dev.firedThen == old(dev.firedThen)
  {
    hide Accounts, Pump, Flatten, UntilEmpty, Run;
    ghost var env, s, fired, available := dev.TheEnv(), dev.reader.View(), dev.fired, dev.Available();
    match m
    case Poll =>
      var delivered;
      ghost var chunk;
      delivered, raised, chunk := dev.Poll();
      ghost var p := Pump(env, false, fired, s, chunk);
      PumpAccounts(env, false, fired, s, chunk);
      more, calls := chunk[..p.used], p.calls;
    case Wait =>
      var reply := new FrameBuffer();
      var ok;
      ok, raised := dev.AwaitReply(reply);
      ghost var p := Pump(env, true, fired, s, available);
      more, calls := available[..p.used], p.calls;
    case Listen(name, cb) =>
      NothingBehind(dev.pushed);
      NothingBehind(dev.fired);
      raised, more, calls := false, [], [];
      dev.On(name, cb);
  }

  /** Any interleaving of polls, waits and registrations over any reads: every
      callback fired is one that the bytes pushed under its set of callbacks call
      for, in order; and as long as nothing raises, every byte that arrived is
      pushed, waits in the buffer or is yet to be read, in that order. A raise ends
      the plan after `ran` moves. */
  method Interleave(dev: Device, plan: seq<Move>) returns (raised: bool, ran: nat, ghost pieces: seq<seq<byte>>)
    requires dev.Valid() && dev.Conserved() && dev.pushedThen == 0 && dev.firedThen == 0
    modifies dev`incoming, dev`received, dev`pending, dev`pendingPos, dev`pushed, dev`fired, dev.reader.Repr
    modifies dev`callbacks, dev`pushedThen, dev`firedThen
    ensures dev.Valid() && dev.Inbound() == old(dev.Inbound())
    ensures ran <= |plan| && (!raised ==> ran == |plan|)
    ensures var envs := Stages(old(dev.TheEnv()), plan[..ran]);
            && |envs| == |pieces| && dev.TheEnv() == envs[|envs| - 1]
            && dev.pushed == Flatten(pieces) && dev.fired == CallsByStage(FRESH, envs, pieces)
    ensures (forall i :: 0 <= i < ran ==> !plan[i].Listen?) ==>
              dev.fired == Calls(dev.TheEnv(), Verdicts(Split(dev.pushed).closed))
    ensures !raised ==> dev.Inbound() == dev.pushed + dev.Unread() + Flatten(dev.incoming)
  {
    hide Accounts, Flatten, Stages, Calls, CallsByStage, Closed, Split, Verdicts, Run;
    raised, ran, pieces := false, 0, [];
    ghost var start, envs: seq<Env> := dev.TheEnv(), [];
    StagesNothing(start, dev.pushed, dev.fired);
    assert plan[..0] == [];
    while ran < |plan| && !raised
      invariant dev.Valid() && (!raised ==> dev.Conserved()) && dev.Inbound() == old(dev.Inbound())
      invariant ran <= |plan| && |envs| == |pieces| && Stages(start, plan[..ran]) == envs + [dev.TheEnv()]
      invariant dev.pushedThen <= |dev.pushed|
      invariant (forall i :: 0 <= i < ran ==> !plan[i].Listen?) ==> dev.pushedThen == dev.firedThen == 0
      invariant Closed(envs, pieces, dev.pushed, dev.pushedThen, dev.fired, dev.firedThen)
    {
      StageAfter(start, plan, ran, envs, dev.TheEnv());
      ghost var was, since, firedWas, firedThen := dev.pushed, dev.pushedThen, dev.fired, dev.firedThen;
      if plan[ran].Listen? {
        CloseStage(dev.TheEnv(), dev.reader.View(), was, firedWas, since, firedThen, envs, pieces);
        envs, pieces := envs + [dev.TheEnv()], pieces + [was[since..]];
        since, firedThen := |was|, |firedWas|;
      }
      ghost var more, calls;
      raised, more, calls := Make(dev, plan[ran]);
      ClosedStays(envs, pieces, was, since, firedWas, firedThen, more, calls);
      ran := ran + 1;
    }
    CloseStage(dev.TheEnv(), dev.reader.View(), dev.pushed, dev.fired, dev.pushedThen, dev.firedThen, envs, pieces);
    pieces := pieces + [dev.pushed[dev.pushedThen..]];
    if dev.pushedThen == dev.firedThen == 0 {
      FiredExactly(dev.TheEnv(), dev.reader.View(), dev.pushed, dev.fired);
    }
  }

  lemma StagesNothing(env: Env, pushed: seq<byte>, fired: seq<Fired>)
    ensures Stages(env, []) == [env] == [] + [env]
    ensures Closed([], [], pushed, 0, fired, 0)
  {
  }

  /** `decode_stream<Def>`; None stands for the ValueError. */
  method DecodeStream(fields: seq<FieldType>, body: seq<byte>) returns (m: Option<Stream.Message>)
    ensures m == Stream.ReadBody(fields, body)
  {
    hide Decode, DecodeField;
    Stream.CounterRange();
    assert body[0..] == body;
    var good, v, off := CodecBuffers.DecodeOne(Stream.COUNTER_TYPE, body, 0);
    if !good {
      return None;
    }
    var vs := CodecBuffers.DecodeTuple(fields, body[off..]);
    return if vs.None? then None else Some(Stream.Message(v.v.n, vs.value));
  }
}
