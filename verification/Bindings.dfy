/** The framing function the Python module exposes. */
module Bindings {
  import opened Bytes
  import opened Framing

  /** `encode_frame` as Python sees it, None standing for the ValueError: the length
      is cast to a byte before it is looked at. */
  method EncodeFrame(kind: byte, payload: seq<byte>) returns (r: Option<seq<byte>>)
    ensures var sent := payload[..|payload| % 256];
            r == if |sent| > MAX_PAYLOAD then None else Some(Packet(Frame(kind, sent)))
  {
    hide Packet;
    var wire := new byte[MAX_PACKET];
    var status, len := Framing.EncodeFrame(kind, payload[..|payload| % 256], wire, MAX_PACKET);
    return if status == FrameStatus.Ok then Some(wire[..len]) else None;
  }

  /** Where it does not raise, the receiver gets what Python passed if and only if that
      was at most 250 bytes long; of anything longer it gets the first bytes. */
  lemma FramesWholeExactly(kind: byte, payload: seq<byte>)
    ensures var sent := payload[..|payload| % 256];
            |sent| <= MAX_PAYLOAD ==>
              var v := DecodeRegion(Region(Frame(kind, sent)));
              v.Accepted? && (v.frame == Frame(kind, payload) <==> |payload| <= MAX_PAYLOAD)
  {
    hide Region, DecodeRegion;
    var sent := payload[..|payload| % 256];
    if |sent| <= MAX_PAYLOAD {
      FrameRoundTrip(Frame(kind, sent));
      if |payload| <= MAX_PAYLOAD {
        TakeAll(payload);
      }
    }
  }
}
