/** Consistent Overhead Byte Stuffing: the back-patching encoder, the block
    decoder, and the recursive block functions they refine. */
module Cobs {
  import opened Bytes

  datatype CobsStatus = Ok | OutputTooSmall | MalformedInput

  /** Longest run of data bytes one block can carry; its code byte is 0xFF. */
  const FULL_RUN := 254
  const FULL_CODE := 255

  // ---------------------------------------------------------------- encoding

  /** Length of the zero-free run at the front of `s`, cut off at `limit`. */
  function RunLength(s: seq<byte>, limit: nat): (k: nat)
    ensures k <= |s| && k <= limit
    ensures forall i :: 0 <= i < k ==> s[i] != 0
    ensures k < |s| && k < limit ==> s[k] == 0
  {
    if limit == 0 || s == [] || s[0] == 0 then 0 else 1 + RunLength(s[1..], limit - 1)
  }

  /** The encoding of `s`, block by block: a full run starts another block only
      when input remains, a shorter run is closed by a zero or by the end. */
  function Encode(s: seq<byte>): (e: seq<byte>)
    ensures |e| >= |s| + 1
    ensures ZeroFree(e)
    decreases |s|
  {
    var k := RunLength(s, FULL_RUN);
    var block := [k + 1] + s[..k];
    if k == |s| then block
    else if k == FULL_RUN then block + Encode(s[k..])
    else block + Encode(s[k + 1..])
  }

  // The three ways a block closes.

  lemma EncodeAtEnd(data: seq<byte>)
    requires ZeroFree(data) && |data| <= FULL_RUN
    ensures Encode(data) == [|data| + 1] + data
  {
    assert data[..|data|] == data;
  }

  lemma EncodeAtZero(data: seq<byte>, tail: seq<byte>)
    requires ZeroFree(data) && |data| < FULL_RUN
    ensures Encode(data + [0] + tail) == [|data| + 1] + data + Encode(tail)
  {
    var s := data + [0] + tail;
    assert s[|data|] == 0 && forall i :: 0 <= i < |data| ==> s[i] == data[i];
    assert RunLength(s, FULL_RUN) == |data|;
    assert s[..|data|] == data && s[|data| + 1..] == tail;
  }

  lemma EncodeAtFullRun(data: seq<byte>, tail: seq<byte>)
    requires ZeroFree(data) && |data| == FULL_RUN && tail != []
    ensures Encode(data + tail) == [FULL_CODE] + data + Encode(tail)
  {
    var s := data + tail;
    assert forall i :: 0 <= i < |data| ==> s[i] == data[i];
    assert RunLength(s, FULL_RUN) == FULL_RUN;
    assert s[..FULL_RUN] == data && s[FULL_RUN..] == tail;
  }

  // ---------------------------------------------------------------- decoding

  /** The byte a closed block stands for besides its data. */
  function ImpliedZero(code: byte, rest: seq<byte>): (z: seq<byte>)
  {
    if code != FULL_CODE && rest != [] then [0] else []
  }

  /** What a sequence of blocks means, with no limit on the output. */
  function Decode(s: seq<byte>): (d: Option<seq<byte>>)
    ensures d.Some? && s != [] ==> |d.value| <= |s| - 1
    decreases |s|
  {
    if s == [] then Some([])
    else if s[0] == 0 || s[0] > |s| then None
    else
      var rest := s[s[0]..];
      match Decode(rest)
      case None => None
      case Some(d) => Some(s[1..s[0]] + ImpliedZero(s[0], rest) + d)
  }

  /** The outcome of decoding into `cap` bytes, with the status the byte-wise
      loop reports: running out of input is noticed before running out of room. */
  datatype Outcome = Decoded(data: seq<byte>) | Failed(status: CobsStatus)

  function Prepend(front: seq<byte>, o: Outcome): Outcome {
    match o
    case Decoded(d) => Decoded(front + d)
    case Failed(st) => o
  }

  function DecodeWithin(s: seq<byte>, cap: nat): (o: Outcome)
    ensures o.Failed? ==> o.status != Ok
    decreases |s|
  {
    if s == [] then Decoded([])
    else if s[0] == 0 then Failed(MalformedInput)
    else
      var n := s[0] - 1;
      if |s| - 1 < n && |s| - 1 <= cap then Failed(MalformedInput)
      else if cap < n then Failed(OutputTooSmall)
      else
        var rest := s[s[0]..];
        var zero := ImpliedZero(s[0], rest);
        if cap < n + |zero| then Failed(OutputTooSmall)
        else Prepend(s[1..s[0]] + zero, DecodeWithin(rest, cap - n - |zero|))
  }

  lemma PrependNothing(o: Outcome)
    ensures Prepend([], o) == o
  {
    if o.Decoded? {
      assert [] + o.data == o.data;
    }
  }

  /** One whole block decoded: its data moves from the meaning to the front. */
  lemma DecodeStep(s: seq<byte>, cap: nat, front: seq<byte>)
    requires 0 < |s| && 0 < s[0] <= |s|
    requires s[0] - 1 + |ImpliedZero(s[0], s[s[0]..])| <= cap
    ensures var rest := s[s[0]..]; var piece := s[1..s[0]] + ImpliedZero(s[0], rest);
            Prepend(front, DecodeWithin(s, cap)) == Prepend(front + piece, DecodeWithin(rest, cap - |piece|))
  {
    var rest := s[s[0]..];
    var piece := s[1..s[0]] + ImpliedZero(s[0], rest);
    var o := DecodeWithin(rest, cap - |piece|);
    assert DecodeWithin(s, cap) == Prepend(piece, o);
    if o.Decoded? {
      assert front + (piece + o.data) == front + piece + o.data;
    }
  }

  /** The ways the first block can stop the decoder. */
  lemma DecodeStops(s: seq<byte>, cap: nat)
    requires s != []
    ensures s[0] == 0 ==> DecodeWithin(s, cap) == Failed(MalformedInput)
    ensures |s| < s[0] && |s| <= cap + 1 ==> DecodeWithin(s, cap) == Failed(MalformedInput)
    ensures cap + 1 < s[0] && cap + 1 < |s| ==> DecodeWithin(s, cap) == Failed(OutputTooSmall)
    ensures 0 < s[0] <= |s| && cap + 1 < s[0] + |ImpliedZero(s[0], s[s[0]..])| ==>
              DecodeWithin(s, cap) == Failed(OutputTooSmall)
  {
  }

  /** The bounded decoder succeeds exactly when the meaning exists and fits. */
  lemma {:induction false} DecodeWithinMeaning(s: seq<byte>, cap: nat)
    ensures forall d :: DecodeWithin(s, cap) == Decoded(d) <==> Decode(s) == Some(d) && |d| <= cap
    ensures Decode(s).Some? && |Decode(s).value| > cap ==> DecodeWithin(s, cap) == Failed(OutputTooSmall)
    decreases |s|
  {
    if s != [] && s[0] != 0 && s[0] <= |s| {
      var rest := s[s[0]..];
      var zero := ImpliedZero(s[0], rest);
      if s[0] - 1 + |zero| <= cap {
        DecodeWithinMeaning(rest, cap - (s[0] - 1) - |zero|);
      }
    }
  }

  /** With one byte of slack the output limit can never be what stops decoding. */
  lemma {:induction false} DecodeNeverTooSmall(s: seq<byte>, cap: nat)
    requires |s| <= cap + 1
    ensures DecodeWithin(s, cap) != Failed(OutputTooSmall)
    decreases |s|
  {
    if s != [] && s[0] != 0 && s[0] <= |s| {
      var rest := s[s[0]..];
      DecodeNeverTooSmall(rest, cap - (s[0] - 1) - |ImpliedZero(s[0], rest)|);
    }
  }

  /** What decoding writes with all the room in the world before the input ends or a
      block turns out not to be one, and which of the two it was. */
  datatype Output = Output(data: seq<byte>, whole: bool)

  function Unlimited(s: seq<byte>): Output
    decreases |s|
  {
    if s == [] then Output([], true)
    else if s[0] == 0 then Output([], false)
    else if |s| < s[0] then Output(s[1..], false)
    else
      var rest := s[s[0]..];
      var more := Unlimited(rest);
      Output(s[1..s[0]] + ImpliedZero(s[0], rest) + more.data, more.whole)
  }

  /** Bounded decoding stops with OutputTooSmall exactly when it would write one byte
      too many, even where the input would have turned out malformed behind it. */
  lemma {:induction false} DecodeWithinExactly(s: seq<byte>, cap: nat)
    ensures var o := Unlimited(s);
            DecodeWithin(s, cap) ==
            if |o.data| > cap then Failed(OutputTooSmall)
            else if o.whole then Decoded(o.data) else Failed(MalformedInput)
    decreases |s|
  {
    if s != [] && 0 < s[0] <= |s| {
      var rest := s[s[0]..];
      var piece := s[1..s[0]] + ImpliedZero(s[0], rest);
      if |piece| <= cap {
        DecodeWithinExactly(rest, cap - |piece|);
      }
    }
  }

  // -------------------------------------------------------------- properties

  /** How an encoding starts: the only block, or one block and the encoding of
      what is left. */
  lemma EncodeSplits(s: seq<byte>) returns (last: bool, data: seq<byte>, tail: seq<byte>)
    ensures |data| <= FULL_RUN
    ensures last ==> s == data && Encode(s) == [|data| + 1] + data
    ensures !last ==> |tail| < |s| && s == data + ImpliedZero(|data| + 1, Encode(tail)) + tail
    ensures !last ==> Encode(s) == [|data| + 1] + data + Encode(tail)
  {
    var k := RunLength(s, FULL_RUN);
    last, data, tail := k == |s|, s[..k], [];
    if !last && k == FULL_RUN {
      tail := s[k..];
      assert s == data + [] + tail;
    } else if !last {
      tail := s[k + 1..];
      assert s == data + [0] + tail;
    }
  }

  /** Decoding undoes encoding, for every input. */
  lemma {:induction false} RoundTrip(s: seq<byte>)
    ensures Decode(Encode(s)) == Some(s)
    decreases |s|
  {
    hide Decode, Encode;
    var last, data, tail := EncodeSplits(s);
    if last {
      DecodeNothing();
      DecodeBlock(data, []);
      assert Encode(s) + [] == Encode(s) && data + [] + [] == data;
    } else {
      RoundTrip(tail);
      DecodeBlock(data, Encode(tail));
    }
  }

  lemma DecodeNothing()
    ensures Decode([]) == Some([])
  {
  }

  lemma DecodeBlock(data: seq<byte>, tail: seq<byte>)
    requires |data| <= FULL_RUN && Decode(tail).Some?
    ensures Decode([|data| + 1] + data + tail) == Some(data + ImpliedZero(|data| + 1, tail) + Decode(tail).value)
  {
    var s := [|data| + 1] + data + tail;
    assert s[1..s[0]] == data && s[s[0]..] == tail;
  }

  /** `s`, walked block by block, ends in a full block followed by a lone 0x01:
      the trailing code byte the encoder leaves out. */
  predicate EndsInLoneOne(s: seq<byte>)
    decreases |s|
  {
    s != [] && 0 < s[0] <= |s| &&
    var rest := s[s[0]..];
    (s[0] == FULL_CODE && rest == [1]) || EndsInLoneOne(rest)
  }

  /** A zero-free accepted block is an encoding, or one with the redundant 0x01. */
  lemma {:induction false} AcceptedForms(s: seq<byte>)
    requires s != [] && ZeroFree(s) && Decode(s).Some?
    ensures s == Encode(Decode(s).value) + if EndsInLoneOne(s) then [1] else []
    decreases |s|
  {
    hide Encode, Decode, EndsInLoneOne, ZeroFree;
    var data, rest := SplitBlock(s);
    var block := [|data| + 1] + data;
    if rest == [] {
      EncodeAtEnd(data);
      NothingBehind(block);
    } else {
      AcceptedForms(rest);
      EmptyMeaning(rest);
      var d' := Decode(rest).value;
      Regroup(block, Encode(d'), if EndsInLoneOne(rest) then [1] else []);
      if s[0] != FULL_CODE {
        EncodeAtZero(data, d');
      } else if d' != [] {
        EncodeAtFullRun(data, d');
      } else {
        EncodeAtEnd(data);
        NothingBehind(data);
      }
    }
  }

  lemma SplitBlock(s: seq<byte>) returns (data: seq<byte>, rest: seq<byte>)
    requires s != [] && ZeroFree(s) && Decode(s).Some?
    ensures data == s[1..s[0]] && rest == s[s[0]..] && s == [|data| + 1] + data + rest
    ensures ZeroFree(data) && ZeroFree(rest) && s[0] == |data| + 1 <= FULL_CODE && Decode(rest).Some?
    ensures Decode(s).value == if rest == [] then data else
                               if s[0] != FULL_CODE then data + [0] + Decode(rest).value
                               else data + Decode(rest).value
    ensures EndsInLoneOne(s) <==> rest != [] && ((s[0] == FULL_CODE && rest == [1]) || EndsInLoneOne(rest))
  {
    data, rest := s[1..s[0]], s[s[0]..];
    assert data + [] == data;
  }

  lemma EmptyMeaning(s: seq<byte>)
    requires s != [] && Decode(s).Some?
    ensures Decode(s) == Some([]) <==> s == [1]
  {
    var rest := s[s[0]..];
    DecodeNothing();
    assert Decode(s).value == s[1..s[0]] + ImpliedZero(s[0], rest) + Decode(rest).value;
  }

  /** The redundant byte only ever follows a full block. */
  lemma {:induction false} LoneOneIsLong(s: seq<byte>)
    requires EndsInLoneOne(s)
    ensures |s| >= FULL_CODE + 1
    decreases |s|
  {
    var rest := s[s[0]..];
    if !(s[0] == FULL_CODE && rest == [1]) {
      LoneOneIsLong(rest);
    }
  }

  lemma {:induction false} EncodingNeverEndsInLoneOne(s: seq<byte>)
    ensures !EndsInLoneOne(Encode(s))
    decreases |s|
  {
    var k := RunLength(s, FULL_RUN);
    if k < |s| {
      var tail := if k == FULL_RUN then s[k..] else s[k + 1..];
      EncodingNeverEndsInLoneOne(tail);
      assert Encode(s)[k + 1..] == Encode(tail);
    }
  }

  /** Which accepted blocks re-encode to themselves: exactly the non-empty,
      zero-free ones without the redundant trailing code byte. */
  lemma CanonicalExactly(s: seq<byte>)
    requires Decode(s).Some?
    ensures Encode(Decode(s).value) == s <==> s != [] && ZeroFree(s) && !EndsInLoneOne(s)
  {
    EncodingNeverEndsInLoneOne(Decode(s).value);
    if s != [] && ZeroFree(s) {
      AcceptedForms(s);
    }
  }

  /** One code byte per started run of 254, and never more. */
  lemma {:induction false} EncodedSize(s: seq<byte>)
    ensures |Encode(s)| <= |s| + if s == [] then 1 else (|s| + FULL_RUN - 1) / FULL_RUN
    ensures |s| <= FULL_RUN ==> |Encode(s)| == |s| + 1
    decreases |s|
  {
    var k := RunLength(s, FULL_RUN);
    if k < |s| {
      EncodedSize(if k == FULL_RUN then s[k..] else s[k + 1..]);
    }
  }

  function MaxEncodedSize(n: nat): nat { n + n / 254 + 1 }

  /** The published bound holds, and a zero-free input meets it at every length
      that is not a positive multiple of 254. */
  lemma MaxEncodedSizeSuffices(s: seq<byte>)
    ensures |Encode(s)| <= MaxEncodedSize(|s|)
  {
    EncodedSize(s);
  }

  lemma {:induction false} MaxEncodedSizeIsTight(s: seq<byte>)
    requires ZeroFree(s)
    ensures |Encode(s)| == if s != [] && |s| % FULL_RUN == 0 then MaxEncodedSize(|s|) - 1 else MaxEncodedSize(|s|)
    decreases |s|
  {
    if |s| <= FULL_RUN {
      EncodeAtEnd(s);
    } else {
      assert s == s[..FULL_RUN] + s[FULL_RUN..];
      EncodeAtFullRun(s[..FULL_RUN], s[FULL_RUN..]);
      MaxEncodedSizeIsTight(s[FULL_RUN..]);
    }
  }

  // ----------------------------------------------------------------- methods

  /** The encoder with `read` bytes consumed: `buf` is what is written so far,
      the open block's code byte still to be patched in at `codeIdx`. */
  ghost predicate Encoding(src: seq<byte>, read: nat, buf: seq<byte>, codeIdx: nat, code: nat) {
    read <= |src| && codeIdx < |buf| &&
    var data := buf[codeIdx + 1..];
    code == |data| + 1 <= FULL_RUN && ZeroFree(data) &&
    Encode(src) == buf[..codeIdx] + Encode(data + src[read..])
  }

  lemma Patched(buf: seq<byte>, i: nat, v: byte)
    requires i < |buf|
    ensures buf[i := v] == buf[..i] + ([v] + buf[i + 1..])
  {
  }

  lemma EncodingStarts(src: seq<byte>, buf: seq<byte>)
    requires |buf| == 1
    ensures Encoding(src, 0, buf, 0, 1)
  {
    assert buf[1..] + src[0..] == src && buf[..0] + Encode(src) == Encode(src);
  }

  lemma RoomNeeded(src: seq<byte>, read: nat, buf: seq<byte>, codeIdx: nat, code: nat)
    requires Encoding(src, read, buf, codeIdx, code)
    ensures |Encode(src)| >= |buf| + (|src| - read)
  {
  }

  lemma AfterZero(src: seq<byte>, read: nat, buf: seq<byte>, codeIdx: nat, code: byte, x: byte)
    requires read < |src| && src[read] == 0 && Encoding(src, read, buf, codeIdx, code)
    ensures Encoding(src, read + 1, buf[codeIdx := code] + [x], |buf|, 1)
  {
    hide Encode;
    var data, tail := buf[codeIdx + 1..], src[read + 1..];
    assert data + src[read..] == data + [0] + tail;
    EncodeAtZero(data, tail);
    NextBlock(src, read + 1, buf, codeIdx, code, x);
  }

  lemma AfterByte(src: seq<byte>, read: nat, buf: seq<byte>, codeIdx: nat, code: nat)
    requires read < |src| && src[read] != 0 && code + 1 < FULL_CODE && Encoding(src, read, buf, codeIdx, code)
    ensures Encoding(src, read + 1, buf + [src[read]], codeIdx, code + 1)
  {
    hide Encode;
    var buf' := buf + [src[read]];
    assert buf'[codeIdx + 1..] == buf[codeIdx + 1..] + [src[read]] && buf'[..codeIdx] == buf[..codeIdx];
    assert buf'[codeIdx + 1..] + src[read + 1..] == buf[codeIdx + 1..] + src[read..];
  }

  /** A full block closes; another opens only if input remains. */
  lemma AfterFullRun(src: seq<byte>, read: nat, buf: seq<byte>, codeIdx: nat, x: byte)
    requires read < |src| && src[read] != 0 && Encoding(src, read, buf, codeIdx, FULL_CODE - 1)
    ensures var closed := (buf + [src[read]])[codeIdx := FULL_CODE];
            if read + 1 == |src| then Encode(src) == closed
            else Encoding(src, read + 1, closed + [x], |closed|, 1)
  {
    hide Encode;
    var buf' := buf + [src[read]];
    var data, tail := buf'[codeIdx + 1..], src[read + 1..];
    assert data == buf[codeIdx + 1..] + [src[read]] && buf'[..codeIdx] == buf[..codeIdx];
    assert data + tail == buf[codeIdx + 1..] + src[read..];
    if tail == [] {
      assert data + tail == data;
      EncodeAtEnd(data);
      Patched(buf', codeIdx, FULL_CODE);
    } else {
      EncodeAtFullRun(data, tail);
      NextBlock(src, read + 1, buf', codeIdx, FULL_CODE, x);
    }
  }

  lemma NextBlock(src: seq<byte>, read: nat, buf: seq<byte>, codeIdx: nat, code: byte, x: byte)
    requires read <= |src| && codeIdx < |buf|
    requires Encode(src) == buf[..codeIdx] + ([code] + buf[codeIdx + 1..] + Encode(src[read..]))
    ensures Encoding(src, read, buf[codeIdx := code] + [x], |buf|, 1)
  {
    hide Encode, Encoding;
    var front, closed := buf[..codeIdx], [code] + buf[codeIdx + 1..];
    Patched(buf, codeIdx, code);
    Regroup(front, closed, Encode(src[read..]));
    OpenBlock(src, read, front + closed, x);
  }

  lemma OpenBlock(src: seq<byte>, read: nat, closed: seq<byte>, x: byte)
    requires read <= |src| && Encode(src) == closed + Encode(src[read..])
    ensures Encoding(src, read, closed + [x], |closed|, 1)
  {
    hide Encode;
    JustOpened(closed, x);
    NothingBefore(src[read..]);
  }

  lemma JustOpened(closed: seq<byte>, x: byte)
    ensures (closed + [x])[..|closed|] == closed && (closed + [x])[|closed| + 1..] == []
  {
  }

  lemma AfterAll(src: seq<byte>, buf: seq<byte>, codeIdx: nat, code: byte)
    requires Encoding(src, |src|, buf, codeIdx, code)
    ensures Encode(src) == buf[codeIdx := code]
  {
    hide Encode;
    var data := buf[codeIdx + 1..];
    assert data + src[|src|..] == data;
    EncodeAtEnd(data);
    Patched(buf, codeIdx, code);
  }

  /** `cobs_encode`. The code byte of the open block sits at `codeIdx` and is
      patched when the block closes. */
  method EncodeInto(src: seq<byte>, dst: array<byte>, dstCap: nat) returns (status: CobsStatus, len: nat)
    requires dstCap <= dst.Length
    modifies dst
    ensures status == if |Encode(src)| <= dstCap then Ok else OutputTooSmall
    ensures status == Ok ==> len == |Encode(src)| && dst[..len] == Encode(src)
    ensures status != Ok ==> len == 0
    ensures forall i :: (if status == Ok then len else dstCap) <= i < dst.Length ==> dst[i] == old(dst[i])
  {
    hide Encode, Encoding;
    var write, codeIdx := 1, 0;
    var code: byte := 1;
    if dstCap < 1 {
      return OutputTooSmall, 0;
    }
    EncodingStarts(src, dst[..1]);
    for read := 0 to |src|
      invariant codeIdx < write <= dstCap && 1 <= code <= FULL_RUN
      invariant Encoding(src, read, dst[..write], codeIdx, code)
      invariant forall i :: write <= i < dst.Length ==> dst[i] == old(dst[i])
    {
      ghost var buf := dst[..write];
      RoomNeeded(src, read, buf, codeIdx, code);
      if src[read] == 0 {
        dst[codeIdx] := code;
        if write >= dstCap {
          return OutputTooSmall, 0;
        }
        AfterZero(src, read, buf, codeIdx, code, dst[write]);
        assert dst[..write + 1] == buf[codeIdx := code] + [dst[write]];
        codeIdx := write;
        write := write + 1;
        code := 1;
      } else {
        if write >= dstCap {
          return OutputTooSmall, 0;
        }
        dst[write] := src[read];
        write := write + 1;
        code := code + 1;
        assert dst[..write] == buf + [src[read]];
        if code == FULL_CODE {
          dst[codeIdx] := code;
          assert dst[..write] == (buf + [src[read]])[codeIdx := code];
          if read + 1 == |src| {
            AfterFullRun(src, read, buf, codeIdx, 0);
            return Ok, write;
          }
          if write >= dstCap {
            return OutputTooSmall, 0;
          }
          AfterFullRun(src, read, buf, codeIdx, dst[write]);
          assert dst[..write + 1] == dst[..write] + [dst[write]];
          codeIdx := write;
          write := write + 1;
          code := 1;
        } else {
          AfterByte(src, read, buf, codeIdx, code - 1);
        }
      }
    }
    ghost var buf := dst[..write];
    AfterAll(src, buf, codeIdx, code);
    dst[codeIdx] := code;
    assert dst[..write] == buf[codeIdx := code];
    return Ok, write;
  }

  /** `cobs_decode`, byte by byte. */
  method DecodeInto(src: seq<byte>, dst: array<byte>, dstCap: nat) returns (status: CobsStatus, len: nat)
    requires dstCap <= dst.Length
    modifies dst
    ensures DecodeWithin(src, dstCap) ==
            if status == Ok && len <= dstCap then Decoded(dst[..len]) else Failed(status)
    ensures len <= dstCap && (status != Ok ==> len == 0)
    ensures dst[dstCap..] == old(dst[dstCap..])
  {
    hide DecodeWithin;
    var read, write := 0, 0;
    assert src[0..] == src;
    PrependNothing(DecodeWithin(src, dstCap));
    while read < |src|
      invariant read <= |src| && write <= dstCap
      invariant DecodeWithin(src, dstCap) == Prepend(dst[..write], DecodeWithin(src[read..], dstCap - write))
      invariant dst[dstCap..] == old(dst[dstCap..])
    {
      ghost var block, room, front := src[read..], dstCap - write, dst[..write];
      DecodeStops(block, room);
      var code := src[read];
      read := read + 1;
      if code == 0 {
        return MalformedInput, 0;
      }
      var i := 1;
      while i < code
        invariant 1 <= i <= code
        invariant read == |src| - |block| + i && read <= |src|
        invariant write == |front| + i - 1 && write <= dstCap
        invariant dst[..write] == front + block[1..i]
        invariant dst[dstCap..] == old(dst[dstCap..])
      {
        if read >= |src| {
          return MalformedInput, 0;
        }
        if write >= dstCap {
          return OutputTooSmall, 0;
        }
        dst[write] := src[read];
        write := write + 1;
        read := read + 1;
        i := i + 1;
      }
      ghost var rest := block[code..];
      assert rest == src[read..];
      if code != FULL_CODE && read < |src| {
        if write >= dstCap {
          return OutputTooSmall, 0;
        }
        dst[write] := 0;
        write := write + 1;
      }
      assert dst[..write] == front + (block[1..code] + ImpliedZero(code, rest));
      DecodeStep(block, room, front);
    }
    assert DecodeWithin([], dstCap - write) == Decoded([]) by {
      DecodeWithinMeaning([], dstCap - write);
    }
    assert src[read..] == [] && dst[..write] + [] == dst[..write];
    return Ok, write;
  }
}
