/** The byte-at-a-time receiver, and the stream splitter it refines. */
module Receiver {
  import opened Bytes
  import opened Framing
  import Crc16

  const REGION_CAP := MAX_PACKET - 1

  datatype Event = NeedMore | FrameReady | Error

  // ------------------------------------------------------- the abstract machine

  /** What a receiver remembers: every byte since the last boundary, the last
      frame it delivered, and the status of the last region it closed. */
  datatype State = State(piece: seq<byte>, frame: Frame, status: FrameStatus)

  const FRESH := State([], Frame(INVALID, []), FrameStatus.Ok)

  /** The verdict on one non-empty piece between delimiters. */
  function VerdictOn(piece: seq<byte>): (v: Verdict)
    ensures v.Refused? ==> v.status != FrameStatus.Ok
  {
    if |piece| > REGION_CAP then Refused(BufferTooSmall, 0) else DecodeRegion(piece)
  }

  function Push(s: State, b: byte): State {
    if b != DELIMITER then s.(piece := s.piece + [b])
    else if s.piece == [] then s
    else match VerdictOn(s.piece)
         case Accepted(f, _) => State([], f, FrameStatus.Ok)
         case Refused(st, _) => State([], s.frame, st)
  }

  function EventOf(s: State, b: byte): Event {
    if b != DELIMITER || s.piece == [] then NeedMore
    else if VerdictOn(s.piece).Accepted? then FrameReady else Error
  }

  function PushAll(s: State, bytes: seq<byte>): State
    decreases |bytes|
  {
    if bytes == [] then s else PushAll(Push(s, bytes[0]), bytes[1..])
  }

  /** The verdicts reported while `bytes` are pushed, in order. */
  function Reports(s: State, bytes: seq<byte>): seq<Verdict>
    decreases |bytes|
  {
    if bytes == [] then []
    else (if EventOf(s, bytes[0]).NeedMore? then [] else [VerdictOn(s.piece)])
         + Reports(Push(s, bytes[0]), bytes[1..])
  }

  lemma {:induction false} PushAllConcat(s: State, a: seq<byte>, b: seq<byte>)
    ensures PushAll(s, a + b) == PushAll(PushAll(s, a), b)
    ensures Reports(s, a + b) == Reports(s, a) + Reports(PushAll(s, a), b)
    decreases |a|
  {
    hide Push, EventOf, VerdictOn;
    if a == [] {
      assert a + b == b;
    } else {
      assert (a + b)[1..] == a[1..] + b;
      PushAllConcat(Push(s, a[0]), a[1..], b);
    }
  }

  // ------------------------------------------------------ splitting at delimiters

  /** The pieces closed by a delimiter, and the unclosed rest. */
  datatype Pieces = Pieces(closed: seq<seq<byte>>, rest: seq<byte>)

  function Split(bytes: seq<byte>): (p: Pieces)
    ensures ZeroFree(p.rest) && forall i :: 0 <= i < |p.closed| ==> ZeroFree(p.closed[i])
    decreases |bytes|
  {
    if bytes == [] then Pieces([], [])
    else
      var tail := Split(bytes[1..]);
      if bytes[0] == DELIMITER then Pieces([[]] + tail.closed, tail.rest)
      else if tail.closed == [] then Pieces([], [bytes[0]] + tail.rest)
      else Pieces([[bytes[0]] + tail.closed[0]] + tail.closed[1..], tail.rest)
  }

  function Join(p: Pieces): seq<byte>
    decreases |p.closed|
  {
    if p.closed == [] then p.rest
    else p.closed[0] + [DELIMITER] + Join(Pieces(p.closed[1..], p.rest))
  }

  /** Splitting loses nothing: with zero-free pieces, there is no other split. */
  lemma {:induction false} SplitIsJoinInverse(p: Pieces)
    requires ZeroFree(p.rest) && forall i :: 0 <= i < |p.closed| ==> ZeroFree(p.closed[i])
    ensures Split(Join(p)) == p
    decreases |p.closed|
  {
    if p.closed == [] {
      SplitRest(p.rest);
    } else {
      var tail := Pieces(p.closed[1..], p.rest);
      SplitIsJoinInverse(tail);
      SplitPiece(p.closed[0], Join(tail));
      assert p.closed == [p.closed[0]] + p.closed[1..];
    }
  }

  lemma {:induction false} JoinSplit(bytes: seq<byte>)
    ensures Join(Split(bytes)) == bytes
    decreases |bytes|
  {
    if bytes != [] {
      JoinSplit(bytes[1..]);
      var p, tail := Split(bytes), Split(bytes[1..]);
      if bytes[0] == DELIMITER {
        assert p.closed[1..] == tail.closed;
        assert [] + [DELIMITER] + Join(tail) == [DELIMITER] + Join(tail);
      } else if tail.closed != [] {
        assert p.closed[1..] == tail.closed[1..];
        var more := Join(Pieces(tail.closed[1..], tail.rest));
        assert [bytes[0]] + tail.closed[0] + [DELIMITER] + more == [bytes[0]] + (tail.closed[0] + [DELIMITER] + more);
      }
    }
  }

  lemma {:induction false} SplitRest(rest: seq<byte>)
    requires ZeroFree(rest)
    ensures Split(rest) == Pieces([], rest)
    decreases |rest|
  {
    if rest != [] {
      SplitRest(rest[1..]);
    }
  }

  lemma {:induction false} SplitPiece(piece: seq<byte>, more: seq<byte>)
    requires ZeroFree(piece)
    ensures Split(piece + [DELIMITER] + more) == Pieces([piece] + Split(more).closed, Split(more).rest)
    decreases |piece|
  {
    var whole := piece + [DELIMITER] + more;
    if piece == [] {
      assert whole[1..] == more;
    } else {
      SplitPiece(piece[1..], more);
      assert whole[1..] == piece[1..] + [DELIMITER] + more;
      assert piece == [piece[0]] + piece[1..];
    }
  }

  /** Empty pieces are boundaries only; every other one gets its verdict. */
  function Verdicts(pieces: seq<seq<byte>>): seq<Verdict>
    decreases |pieces|
  {
    if pieces == [] then []
    else (if pieces[0] == [] then [] else [VerdictOn(pieces[0])]) + Verdicts(pieces[1..])
  }

  /** The pieces of `bytes` when `pending` bytes were already waiting. */
  function SplitAfter(pending: seq<byte>, bytes: seq<byte>): Pieces {
    Split(pending + bytes)
  }

  /** The receiver is the splitter: it reports exactly the verdicts on the
      non-empty pieces, in order, and keeps the unclosed rest. */
  lemma {:induction false} ReaderIsSplitter(s: State, bytes: seq<byte>)
    requires ZeroFree(s.piece)
    ensures Reports(s, bytes) == Verdicts(SplitAfter(s.piece, bytes).closed)
    ensures PushAll(s, bytes).piece == SplitAfter(s.piece, bytes).rest
    decreases |bytes|
  {
    hide VerdictOn, Split;
    if bytes == [] {
      assert s.piece + bytes == s.piece;
      SplitRest(s.piece);
    } else {
      var next, more := Push(s, bytes[0]), bytes[1..];
      ReaderIsSplitter(next, more);
      assert bytes == [bytes[0]] + more;
      if bytes[0] != DELIMITER {
        assert s.piece + bytes == s.piece + [bytes[0]] + more;
        assert Reports(s, bytes) == [] + Reports(next, more);
      } else {
        assert s.piece + bytes == s.piece + [DELIMITER] + more;
        SplitPiece(s.piece, more);
        assert next.piece == [] && [] + more == more;
        var closed := Split(more).closed;
        assert ([s.piece] + closed)[1..] == closed;
      }
    }
  }

  /** The last frame accepted among `verdicts`. */
  function LastFrame(verdicts: seq<Verdict>): Option<Frame>
    decreases |verdicts|
  {
    if verdicts == [] then None
    else var v := verdicts[|verdicts| - 1];
         if v.Accepted? then Some(v.frame) else LastFrame(verdicts[..|verdicts| - 1])
  }

  lemma LastFrameNext(verdicts: seq<Verdict>, v: Verdict)
    ensures LastFrame(verdicts + [v]) == if v.Accepted? then Some(v.frame) else LastFrame(verdicts)
  {
    assert (verdicts + [v])[..|verdicts|] == verdicts;
  }

  /** One more byte pushed: one more report, or none. */
  lemma ReportsNext(s: State, bytes: seq<byte>, b: byte)
    ensures var t := PushAll(s, bytes);
            PushAll(s, bytes + [b]) == Push(t, b)
            && Reports(s, bytes + [b]) ==
               if EventOf(t, b).NeedMore? then Reports(s, bytes) else Reports(s, bytes) + [VerdictOn(t.piece)]
  {
    hide Push, EventOf, VerdictOn;
    PushAllConcat(s, bytes, [b]);
    assert [b][1..] == [] && Reports(s, bytes) + [] == Reports(s, bytes);
  }

  function LastStatus(verdicts: seq<Verdict>): FrameStatus
    requires verdicts != []
  {
    var v := verdicts[|verdicts| - 1];
    if v.Accepted? then FrameStatus.Ok else v.status
  }

  /** The frame on show is always the last one decoded; errors never disturb it. */
  lemma {:induction false} FrameIsLastAccepted(s: State, bytes: seq<byte>)
    ensures var t, reports := PushAll(s, bytes), Reports(s, bytes);
            && t.frame == (if LastFrame(reports).Some? then LastFrame(reports).value else s.frame)
            && t.status == (if reports == [] then s.status else LastStatus(reports))
    decreases |bytes|
  {
    hide VerdictOn;
    if bytes != [] {
      hide PushAll, Reports;
      var front, b := bytes[..|bytes| - 1], bytes[|bytes| - 1];
      var t := PushAll(s, front);
      assert bytes == front + [b];
      FrameIsLastAccepted(s, front);
      ReportsNext(s, front, b);
      if !EventOf(t, b).NeedMore? {
        LastFrameNext(Reports(s, front), VerdictOn(t.piece));
      }
    }
  }

  // -------------------------------------------------- delivery and resynchronising

  /** What a sender may put on the wire: packets, and delimiters at will. */
  datatype Item = Extra | Sent(frame: Frame)

  predicate AllSendable(items: seq<Item>) {
    forall i :: 0 <= i < |items| && items[i].Sent? ==> Sendable(items[i].frame)
  }

  function Wire(items: seq<Item>): seq<byte>
    requires AllSendable(items)
    decreases |items|
  {
    if items == [] then []
    else (if items[0].Extra? then [DELIMITER] else Packet(items[0].frame)) + Wire(items[1..])
  }

  function Delivered(items: seq<Item>): seq<Verdict>
    requires AllSendable(items)
    decreases |items|
  {
    if items == [] then []
    else (if items[0].Extra? then []
          else [Accepted(items[0].frame, Crc16.Checksum(Covered(items[0].frame)))]) + Delivered(items[1..])
  }

  lemma PushZeroFree(s: State, bytes: seq<byte>)
    requires ZeroFree(bytes)
    ensures PushAll(s, bytes) == s.(piece := s.piece + bytes) && Reports(s, bytes) == []
    decreases |bytes|
  {
    hide VerdictOn;
    if bytes == [] {
      assert s.piece + [] == s.piece;
    } else {
      PushZeroFree(Push(s, bytes[0]), bytes[1..]);
      assert s.piece + [bytes[0]] + bytes[1..] == s.piece + bytes;
    }
  }

  /** A packet pushed at a boundary is delivered, and nothing else happens. */
  lemma PushPacket(s: State, f: Frame)
    requires s.piece == [] && Sendable(f)
    ensures PushAll(s, Packet(f)) == State([], f, FrameStatus.Ok)
    ensures Reports(s, Packet(f)) == [Accepted(f, Crc16.Checksum(Covered(f)))]
  {
    var region, closing := Region(f), [DELIMITER];
    hide Region, DecodeRegion, Crc16.Checksum, Covered;
    FrameRoundTrip(f);
    PacketSize(f);
    PushZeroFree(s, region);
    assert [] + region == region;
    PushAllConcat(s, region, closing);
    var full := s.(piece := region);
    assert VerdictOn(region) == DecodeRegion(region);
    assert closing[1..] == [];
    assert PushAll(full, closing) == PushAll(Push(full, DELIMITER), []) == Push(full, DELIMITER);
    assert Reports(full, closing) == [VerdictOn(region)] + Reports(Push(full, DELIMITER), []);
  }

  /** From any boundary, exactly the frames sent are delivered, in order and
      without an error, however many extra delimiters stand between them. */
  lemma {:induction false} Delivery(s: State, items: seq<Item>)
    requires s.piece == [] && AllSendable(items)
    ensures Reports(s, Wire(items)) == Delivered(items)
    ensures PushAll(s, Wire(items)).piece == []
    decreases |items|
  {
    hide VerdictOn, Packet, Crc16.Checksum, Covered;
    if items != [] {
      var first := if items[0].Extra? then [DELIMITER] else Packet(items[0].frame);
      var more := items[1..];
      if items[0].Sent? {
        PushPacket(s, items[0].frame);
      } else {
        assert first[1..] == [] && PushAll(s, first) == PushAll(s, []) && Reports(s, first) == [] + Reports(s, []);
      }
      PushAllConcat(s, first, Wire(more));
      Delivery(PushAll(s, first), more);
    }
  }

  /** From any state whatsoever and after any garbage, everything sent behind the
      next delimiter arrives. */
  lemma Resynchronises(s: State, garbage: seq<byte>, items: seq<Item>)
    requires AllSendable(items)
    ensures Reports(s, garbage + [DELIMITER] + Wire(items))
         == Reports(s, garbage + [DELIMITER]) + Delivered(items)
  {
    hide Wire, Delivered, VerdictOn;
    PushAllConcat(s, garbage + [DELIMITER], Wire(items));
    PushAllConcat(s, garbage, [DELIMITER]);
    var dirty := PushAll(s, garbage);
    assert [DELIMITER][1..] == [];
    assert PushAll(dirty, [DELIMITER]) == PushAll(Push(dirty, DELIMITER), []);
    Delivery(PushAll(s, garbage + [DELIMITER]), items);
  }

  // ----------------------------------------------------------- events and statuses

  /** A piece that does not fit 255 bytes is refused for that, whatever it says. */
  lemma LongPiece(piece: seq<byte>)
    ensures |piece| > 255 ==> VerdictOn(piece) == Refused(BufferTooSmall, 0)
    ensures |piece| <= 255 ==> VerdictOn(piece) == DecodeRegion(piece)
  {
  }

  /** What a delimiter after a piece is answered with, and what is on show then; all
      else asks for more and changes nothing of it. */
  lemma EventTells(s: State, b: byte)
    ensures b != 0 || s.piece == [] ==>
              EventOf(s, b) == NeedMore && Push(s, b).frame == s.frame && Push(s, b).status == s.status
    ensures b == 0 && s.piece != [] ==>
              match VerdictOn(s.piece)
              case Accepted(f, _) =>
                EventOf(s, b) == FrameReady && Push(s, b).frame == f && Push(s, b).status == FrameStatus.Ok
              case Refused(st, _) =>
                EventOf(s, b) == Error && Push(s, b).frame == s.frame && Push(s, b).status == st != FrameStatus.Ok
  {
    hide VerdictOn;
  }

  /** Until a first frame is decoded, an empty one of type 0 is on show; until a first
      region is closed, the status is Ok. */
  lemma NothingYet(bytes: seq<byte>)
    ensures LastFrame(Reports(FRESH, bytes)).None? ==> PushAll(FRESH, bytes).frame == Frame(0, [])
    ensures Reports(FRESH, bytes) == [] ==> PushAll(FRESH, bytes).status == FrameStatus.Ok
  {
    hide PushAll, Reports;
    FrameIsLastAccepted(FRESH, bytes);
  }

  // ------------------------------------------------------------------ the class

  /** What a caller has done to a reader. */
  datatype Input = Byte(b: byte) | Reset

  function Apply(s: State, i: Input): State {
    match i
    case Byte(b) => Push(s, b)
    case Reset => s.(piece := [])
  }

  function Run(history: seq<Input>): State
    decreases |history|
  {
    if history == [] then FRESH else Apply(Run(history[..|history| - 1]), history[|history| - 1])
  }

  lemma RunNext(history: seq<Input>, i: Input)
    ensures Run(history + [i]) == Apply(Run(history), i)
  {
    assert (history + [i])[..|history|] == history;
  }

  lemma PushCases(s: State, b: byte)
    ensures b != DELIMITER ==> Push(s, b) == s.(piece := s.piece + [b]) && EventOf(s, b) == NeedMore
                               && (ZeroFree(s.piece) ==> ZeroFree(s.piece + [b]))
    ensures b == DELIMITER && s.piece == [] ==> Push(s, b) == s && EventOf(s, b) == NeedMore
    ensures b == DELIMITER && s.piece != [] ==>
              match VerdictOn(s.piece)
              case Accepted(f, _) => Push(s, b) == State([], f, FrameStatus.Ok) && EventOf(s, b) == FrameReady
              case Refused(st, _) => Push(s, b) == State([], s.frame, st) && EventOf(s, b) == Error
    ensures ZeroFree([])
  {
    hide VerdictOn;
  }

  /** What is kept of a piece does not change when the piece grows. */
  lemma TakeMore(piece: seq<byte>, b: byte)
    ensures forall n :: 0 <= n <= |piece| ==> (piece + [b])[..n] == piece[..n]
    ensures (piece + [b])[..|piece| + 1] == piece[..|piece|] + [b]
  {
  }

  function Inputs(bytes: seq<byte>): seq<Input> {
    seq(|bytes|, i requires 0 <= i < |bytes| => Byte(bytes[i]))
  }

  /** A reader that has only been pushed to is the abstract machine. */
  lemma {:induction false} RunOfBytes(history: seq<Input>, bytes: seq<byte>)
    ensures Run(history + Inputs(bytes)) == PushAll(Run(history), bytes)
    decreases |bytes|
  {
    hide Push;
    if bytes == [] {
      assert history + Inputs(bytes) == history;
    } else {
      var longer := history + [Byte(bytes[0])];
      RunNext(history, Byte(bytes[0]));
      RunOfBytes(longer, bytes[1..]);
      assert longer + Inputs(bytes[1..]) == history + Inputs(bytes);
    }
  }

  class FrameReader {
    var region: array<byte>
    var regionLen: nat
    var overflow: bool
    var frame: FrameBuffer
    var lastStatus: FrameStatus

    /** Every byte since the last boundary, including those that did not fit. */
    ghost var piece: seq<byte>
    ghost var history: seq<Input>
    ghost const Repr: set<object>

    ghost predicate Valid()
      reads this, Repr
      ensures Valid() ==> this in Repr && frame in Repr && frame.payload in Repr && frame.Valid()
    {
      && this in Repr && region in Repr && frame in Repr && frame.payload in Repr
      && region != frame.payload && region.Length == REGION_CAP && frame.Valid()
      && ZeroFree(piece)
      && regionLen == (if |piece| <= REGION_CAP then |piece| else REGION_CAP)
      && overflow == (|piece| > REGION_CAP)
      && region[..regionLen] == piece[..regionLen]
      && Run(history) == View()
    }

    ghost function View(): State
      reads this, frame, frame.payload
      requires frame.Valid()
    {
      State(piece, frame.View(), lastStatus)
    }

    constructor ()
      ensures Valid() && fresh(Repr)
      ensures View() == FRESH && history == []
    {
      var buffer := new byte[REGION_CAP](_ => 0);
      var f := new FrameBuffer();
      region, regionLen, overflow, frame, lastStatus := buffer, 0, false, f, FrameStatus.Ok;
      piece, history := [], [];
      Repr := {this, buffer, f, f.payload};
    }

    /** `FrameReader::reset`. */
    method Reset()
      requires Valid()
      modifies this`regionLen, this`overflow, this`piece, this`history
      ensures Valid() && history == old(history) + [Input.Reset]
      ensures View() == old(View()).(piece := [])
    {
      hide Run;
      RunNext(history, Input.Reset);
      regionLen := 0;
      overflow := false;
      piece := [];
      history := history + [Input.Reset];
    }

    /** `FrameReader::push`. */
    method PushByte(b: byte) returns (event: Event)
      requires Valid()
      modifies Repr
      ensures Valid() && history == old(history) + [Byte(b)]
      ensures frame == old(frame) && View() == Push(old(View()), b)
      ensures event == EventOf(old(View()), b)
      ensures event == FrameReady ==> VerdictOn(old(piece)).Accepted? && frame.View() == VerdictOn(old(piece)).frame
    {
      hide DecodeRegion, Run, ZeroFree, Push, EventOf;
      RunNext(history, Byte(b));
      PushCases(View(), b);
      history := history + [Byte(b)];
      if b != DELIMITER {
        TakeMore(piece, b);
        if regionLen < REGION_CAP {
          region[regionLen] := b;
          regionLen := regionLen + 1;
        } else {
          overflow := true;
        }
        piece := piece + [b];
        return NeedMore;
      }
      if regionLen == 0 && !overflow {
        return NeedMore;
      }
      var wasOverflow, len := overflow, regionLen;
      regionLen := 0;
      overflow := false;
      piece := [];
      if wasOverflow {
        lastStatus := BufferTooSmall;
        return Error;
      }
      assert region[..len] == old(piece);
      var status, crc := DecodeRegionInto(region[..len], frame);
      lastStatus := status;
      return if status == FrameStatus.Ok then FrameReady else Error;
    }
  }
}
