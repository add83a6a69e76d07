/** Wire packets: TYPE | LENGTH | PAYLOAD | CRC16 (little-endian), COBS-encoded
    and closed by one 0x00. */
module Framing {
  import opened Bytes
  import Cobs
  import Crc16

  const MAX_PAYLOAD := 250
  const MAX_PACKET := 256
  const CRC_SIZE := 2
  const HEADER_SIZE := 2
  const DELIMITER: byte := 0
  const RAW_CAP := HEADER_SIZE + MAX_PAYLOAD + CRC_SIZE

  /** A message type travels as an opaque byte; the layers above know these values,
      of which INVALID is what an empty frame shows. */
  const INVALID: byte := 0
  const COMMAND: byte := 1
  const REPLY: byte := 2
  const STREAM: byte := 3

  /** What a frame carries: its type and `payload[0..length)`. */
  datatype Frame = Frame(kind: byte, payload: seq<byte>)

  predicate Sendable(f: Frame) { |f.payload| <= MAX_PAYLOAD }

  datatype FrameStatus =
    Ok | PayloadTooLarge | BufferTooSmall | Truncated | LengthMismatch | CrcMismatch | CobsError

  // ------------------------------------------------------------ specification

  /** TYPE, LENGTH and PAYLOAD: the bytes the checksum covers. */
  function Covered(f: Frame): (c: seq<byte>)
    requires Sendable(f)
    ensures |c| == HEADER_SIZE + |f.payload|
  {
    [f.kind, |f.payload|] + f.payload
  }

  function LittleEndian(w: Crc16.word): (s: seq<byte>)
    ensures |s| == CRC_SIZE
  {
    [w % 256, w / 256]
  }

  function RawBlock(f: Frame): (raw: seq<byte>)
    requires Sendable(f)
    ensures HEADER_SIZE + CRC_SIZE <= |raw| == HEADER_SIZE + |f.payload| + CRC_SIZE <= RAW_CAP
  {
    Covered(f) + LittleEndian(Crc16.Checksum(Covered(f)))
  }

  /** What stands between two delimiters for `f`. */
  function Region(f: Frame): (region: seq<byte>)
    requires Sendable(f)
    ensures ZeroFree(region) && |region| >= 5
  {
    Cobs.Encode(RawBlock(f))
  }

  function Packet(f: Frame): (wire: seq<byte>)
    requires Sendable(f)
  {
    Region(f) + [DELIMITER]
  }

  datatype Verdict = Accepted(frame: Frame, crc: Crc16.word) | Refused(status: FrameStatus, crc: Crc16.word)

  function ReceivedCrc(raw: seq<byte>): Crc16.word
    requires |raw| >= CRC_SIZE
  {
    var low: int, high: int := raw[|raw| - 2], raw[|raw| - 1];
    low + 256 * high
  }

  /** The checks on a COBS-decoded block, in the order they are made. */
  function Judge(raw: seq<byte>): (v: Verdict)
    ensures v.Refused? ==> v.status != Ok
  {
    if |raw| < HEADER_SIZE + CRC_SIZE then Refused(Truncated, 0)
    else if raw[1] > MAX_PAYLOAD then Refused(LengthMismatch, 0)
    else if |raw| != HEADER_SIZE + raw[1] + CRC_SIZE then Refused(LengthMismatch, 0)
    else
      var crc := ReceivedCrc(raw);
      if crc != Crc16.Checksum(raw[..|raw| - CRC_SIZE]) then Refused(CrcMismatch, crc)
      else Accepted(Frame(raw[0], raw[HEADER_SIZE..|raw| - CRC_SIZE]), crc)
  }

  function DecodeRegion(region: seq<byte>): (v: Verdict)
    ensures v.Refused? ==> v.status != Ok
  {
    match Cobs.DecodeWithin(region, RAW_CAP)
    case Failed(_) => Refused(CobsError, 0)
    case Decoded(raw) => Judge(raw)
  }

  // ---------------------------------------------------------------- properties

  lemma JudgeRaw(f: Frame)
    requires Sendable(f)
    ensures Judge(RawBlock(f)) == Accepted(f, Crc16.Checksum(Covered(f)))
  {
    hide Crc16.Checksum;
    var raw := RawBlock(f);
    assert raw[..|raw| - CRC_SIZE] == Covered(f);
    assert raw[HEADER_SIZE..|raw| - CRC_SIZE] == f.payload;
  }

  /** Acceptance reconstructs the block byte for byte. */
  lemma AcceptedRaw(raw: seq<byte>)
    requires Judge(raw).Accepted?
    ensures Sendable(Judge(raw).frame) && RawBlock(Judge(raw).frame) == raw
  {
    hide Crc16.Checksum;
    var f := Judge(raw).frame;
    assert Covered(f) == raw[..|raw| - CRC_SIZE];
    assert LittleEndian(ReceivedCrc(raw)) == raw[|raw| - CRC_SIZE..];
    assert raw == raw[..|raw| - CRC_SIZE] + raw[|raw| - CRC_SIZE..];
  }

  /** The parser undoes the printer. */
  lemma FrameRoundTrip(f: Frame)
    requires Sendable(f)
    ensures DecodeRegion(Region(f)) == Accepted(f, Crc16.Checksum(Covered(f)))
  {
    hide Judge, RawBlock, Cobs.Encode, Cobs.Decode, Cobs.DecodeWithin;
    Cobs.RoundTrip(RawBlock(f));
    Cobs.DecodeWithinMeaning(Region(f), RAW_CAP);
    JudgeRaw(f);
  }

  /** Every zero-free region that is accepted is the printer's output, or that
      output with one redundant 0x01 behind a 254-byte block. */
  lemma AcceptedRegion(region: seq<byte>)
    requires ZeroFree(region) && DecodeRegion(region).Accepted?
    ensures var f := DecodeRegion(region).frame;
            Sendable(f) && region == Region(f) + if |region| < MAX_PACKET then [] else [1]
  {
    hide Judge, RawBlock, Cobs.Encode, Cobs.Decode, Cobs.DecodeWithin, Cobs.EndsInLoneOne;
    var raw := Cobs.DecodeWithin(region, RAW_CAP).data;
    Cobs.DecodeWithinMeaning(region, RAW_CAP);
    AcceptedRaw(raw);
    JudgeNothing();
    assert region != [] by {
      if region == [] {
        Cobs.DecodeNothing();
      }
    }
    Cobs.AcceptedForms(region);
    Cobs.EncodedSize(raw);
    if Cobs.EndsInLoneOne(region) {
      Cobs.LoneOneIsLong(region);
    }
  }

  lemma JudgeNothing()
    ensures Judge([]) == Refused(Truncated, 0)
  {
  }

  /** On what the reader can hold, printer and parser are exact inverses: an
      accepted region is the only wire form of its frame. */
  lemma UniqueWireForm(region: seq<byte>, f: Frame)
    requires ZeroFree(region) && |region| < MAX_PACKET
    ensures (DecodeRegion(region).Accepted? && DecodeRegion(region).frame == f)
       <==> Sendable(f) && Packet(f) == region + [DELIMITER]
  {
    hide DecodeRegion, Region;
    if DecodeRegion(region).Accepted? {
      AcceptedRegion(region);
    }
    if Sendable(f) && Packet(f) == region + [DELIMITER] {
      assert region == Packet(f)[..|region|] == Region(f);
      FrameRoundTrip(f);
    }
  }

  /** One overhead byte, one delimiter, and nothing else grows. */
  lemma PacketSize(f: Frame)
    requires Sendable(f)
    ensures |Region(f)| == |f.payload| + 5 < MAX_PACKET
    ensures |Packet(f)| == |f.payload| + 6 <= MAX_PACKET
    ensures forall i :: 0 <= i < |Packet(f)| ==> (Packet(f)[i] == DELIMITER <==> i == |Packet(f)| - 1)
  {
    hide Cobs.Encode, RawBlock;
    Cobs.EncodedSize(RawBlock(f));
  }

  /** The 254-byte scratch block cannot overflow on what the reader can hold. */
  lemma ScratchSuffices(region: seq<byte>)
    requires |region| < MAX_PACKET
    ensures Cobs.DecodeWithin(region, RAW_CAP) != Cobs.Failed(Cobs.OutputTooSmall)
  {
    Cobs.DecodeNeverTooSmall(region, RAW_CAP);
  }

  // ----------------------------------------------------- the format, in numbers

  /** Where everything stands in a block: TYPE, LENGTH, PAYLOAD, and the checksum of
      these with its low byte first. */
  lemma BlockLayout(f: Frame)
    requires |f.payload| <= 250
    ensures Sendable(f)
    ensures var raw, n := RawBlock(f), |f.payload|;
            && |raw| == n + 4 && raw[0] == f.kind && raw[1] == n
            && (forall i :: 0 <= i < n ==> raw[2 + i] == f.payload[i])
            && raw[n + 2] as int + 256 * raw[n + 3] as int == Crc16.Checksum(raw[..n + 2])
    ensures Packet(f) == Cobs.Encode(RawBlock(f)) + [0]
  {
    hide Crc16.Checksum, Cobs.Encode;
    assert RawBlock(f)[..|f.payload| + 2] == Covered(f);
  }

  /** The verdict on any region, by what its bytes say. */
  lemma VerdictExactly(region: seq<byte>)
    ensures var d := Cobs.Decode(region);
            (d.None? || |d.value| > 254) ==> DecodeRegion(region) == Refused(CobsError, 0)
    ensures var d := Cobs.Decode(region);
            d.Some? && |d.value| < 4 ==> DecodeRegion(region) == Refused(Truncated, 0)
    ensures var d := Cobs.Decode(region);
            d.Some? && 4 <= |d.value| <= 254 && |d.value| - 4 != d.value[1] ==>
              DecodeRegion(region) == Refused(LengthMismatch, 0)
    ensures var d := Cobs.Decode(region);
            d.Some? && 4 <= |d.value| <= 254 && |d.value| - 4 == d.value[1] ==>
              var raw, n := d.value, |d.value|;
              var low: int, high: int := raw[n - 2], raw[n - 1];
              DecodeRegion(region) ==
              if low + 256 * high == Crc16.Checksum(raw[..n - 2])
              then Accepted(Frame(raw[0], raw[2..n - 2]), low + 256 * high)
              else Refused(CrcMismatch, low + 256 * high)
  {
    hide Cobs.Decode, Cobs.DecodeWithin, Crc16.Checksum;
    Cobs.DecodeWithinMeaning(region, 254);
    var o := Cobs.DecodeWithin(region, 254);
    if o.Decoded? {
      assert o == Cobs.Decoded(o.data);
    }
  }

  /** A block with any checksum `w` put behind it: the frame, or the one refusal that
      names the checksum received. */
  lemma AnyChecksum(f: Frame, w: Crc16.word)
    requires Sendable(f)
    ensures DecodeRegion(Cobs.Encode(Covered(f) + LittleEndian(w))) ==
            if w == Crc16.Checksum(Covered(f)) then Accepted(f, w) else Refused(CrcMismatch, w)
  {
    hide Crc16.Checksum, Cobs.Encode, Cobs.Decode, Cobs.DecodeWithin, DecodeRegion;
    var raw := Covered(f) + LittleEndian(w);
    Cobs.RoundTrip(raw);
    VerdictExactly(Cobs.Encode(raw));
    assert raw[..|raw| - 2] == Covered(f) && raw[2..|raw| - 2] == f.payload;
  }

  // ------------------------------------------------------------------- methods

  /** The raw block, assembled in the 254-byte scratch buffer. */
  method AssembleRaw(kind: byte, payload: seq<byte>) returns (raw: array<byte>, rawLen: nat)
    requires |payload| <= MAX_PAYLOAD
    ensures fresh(raw) && rawLen <= raw.Length && raw[..rawLen] == RawBlock(Frame(kind, payload))
  {
    hide Crc16.Checksum;
    raw := new byte[RAW_CAP];
    raw[0] := kind;
    raw[1] := |payload|;
    for i := 0 to |payload|
      invariant raw[..HEADER_SIZE + i] == [kind, |payload|] + payload[..i]
    {
      raw[HEADER_SIZE + i] := payload[i];
    }
    var crcCovered := HEADER_SIZE + |payload|;
    assert payload[..|payload|] == payload;
    ghost var covered := raw[..crcCovered];
    assert covered == Covered(Frame(kind, payload));
    var crc := Crc16.Crc16Ccitt(raw[..crcCovered]);
    raw[crcCovered] := crc % 256;
    raw[crcCovered + 1] := crc / 256 % 256;
    rawLen := crcCovered + CRC_SIZE;
    assert raw[..rawLen] == covered + LittleEndian(crc);
  }

  /** `encode_frame`. `payload` is `payload[0..length)`, whose length is a byte. */
  method EncodeFrame(kind: byte, payload: seq<byte>, out: array<byte>, outCap: nat)
    returns (status: FrameStatus, len: nat)
    requires |payload| < 256 && outCap <= out.Length
    modifies out
    ensures status == if |payload| > MAX_PAYLOAD then PayloadTooLarge
                      else if outCap < |payload| + 6 then BufferTooSmall else Ok
    ensures status == Ok ==> len == |payload| + 6 && out[..len] == Packet(Frame(kind, payload))
    ensures status != Ok ==> len == 0
    ensures forall i :: (if status == Ok then len else outCap) <= i < out.Length ==> out[i] == old(out[i])
  {
    if |payload| > MAX_PAYLOAD {
      return PayloadTooLarge, 0;
    }
    ghost var f := Frame(kind, payload);
    PacketSize(f);
    hide Cobs.Encode, RawBlock;
    var raw, rawLen := AssembleRaw(kind, payload);
    if outCap < 2 {
      return BufferTooSmall, 0;
    }
    var encStatus, encLen := Cobs.EncodeInto(raw[..rawLen], out, outCap - 1);
    if encStatus == Cobs.OutputTooSmall {
      return BufferTooSmall, 0;
    }
    if encStatus != Cobs.Ok {
      assert false;
    }
    out[encLen] := DELIMITER;
    return Ok, encLen + 1;
  }

  /** `struct Frame`: a fixed payload buffer of which `length` bytes count. */
  class FrameBuffer {
    var kind: byte
    var length: byte
    var payload: array<byte>

    ghost predicate Valid()
      reads this
    {
      payload.Length == MAX_PAYLOAD && length <= MAX_PAYLOAD
    }

    function View(): (f: Frame)
      reads this, payload
      requires Valid()
      ensures Sendable(f)
    {
      Frame(kind, payload[..length])
    }

    constructor ()
      ensures Valid() && fresh(payload)
      ensures View() == Frame(INVALID, [])
    {
      kind, length := INVALID, 0;
      payload := new byte[MAX_PAYLOAD](_ => 0);
    }

    /** Frame assignment. */
    method Assign(other: FrameBuffer)
      requires Valid() && other.Valid() && other.payload != payload
      modifies this`kind, this`length, payload
      ensures Valid() && View() == old(other.View())
    {
      kind, length := other.kind, other.length;
      forall i | 0 <= i < MAX_PAYLOAD {
        payload[i] := other.payload[i];
      }
    }
  }

  lemma SliceOf(part: seq<byte>, block: seq<byte>, at: nat)
    requires at + |part| <= |block| && forall k :: 0 <= k < |part| ==> part[k] == block[at + k]
    ensures part == block[at..at + |part|]
  {
  }

  /** `decode_region`. A refused region leaves `out` alone; an accepted one
      leaves the payload bytes past `length` alone. */
  method DecodeRegionInto(region: seq<byte>, out: FrameBuffer) returns (status: FrameStatus, crc: Crc16.word)
    requires out.Valid()
    modifies out`kind, out`length, out.payload
    ensures out.Valid()
    ensures match DecodeRegion(region)
            case Accepted(f, c) => status == Ok && crc == c && out.View() == f
            case Refused(st, c) => status == st && crc == c && unchanged(out, out.payload)
    ensures forall i :: out.length <= i < MAX_PAYLOAD ==> out.payload[i] == old(out.payload[i])
  {
    hide Cobs.DecodeWithin, Crc16.Checksum;
    var raw := new byte[RAW_CAP];
    var decStatus, decLen := Cobs.DecodeInto(region, raw, RAW_CAP);
    if decStatus != Cobs.Ok {
      return CobsError, 0;
    }
    ghost var block := raw[..decLen];
    if decLen < HEADER_SIZE + CRC_SIZE {
      return Truncated, 0;
    }
    var kind, length := raw[0], raw[1];
    if length > MAX_PAYLOAD {
      return LengthMismatch, 0;
    }
    var expected := HEADER_SIZE + length + CRC_SIZE;
    if decLen != expected {
      return LengthMismatch, 0;
    }
    var crcCovered := HEADER_SIZE + length;
    var low: int, high: int := raw[crcCovered], raw[crcCovered + 1];
    var rxCrc := low + 256 * high;
    assert block[..decLen - CRC_SIZE] == raw[..crcCovered];
    var calcCrc := Crc16.Crc16Ccitt(raw[..crcCovered]);
    if rxCrc != calcCrc {
      return CrcMismatch, rxCrc;
    }
    out.kind, out.length := kind, length;
    for i := 0 to length
      invariant out.kind == kind && out.length == length && out.Valid() && out.payload == old(out.payload)
      invariant forall k :: 0 <= k < i ==> out.payload[k] == block[HEADER_SIZE + k]
      invariant forall k :: i <= k < MAX_PAYLOAD ==> out.payload[k] == old(out.payload[k])
      invariant raw[..decLen] == block
    {
      out.payload[i] := raw[HEADER_SIZE + i];
    }
    SliceOf(out.payload[..length], block, HEADER_SIZE);
    return Ok, rxCrc;
  }
}
