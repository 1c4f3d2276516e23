/** What BLZ_Decode computes, as functions: the trailer fields, the token loop
    over the inverted segment, and the final inversion of the decoded region. */
module Decoding {
  import opened Bytes
  import opened Tokens
  import opened Inversion

  /** The decoder's fatal exits (TooShort, BadHeader, BadHeaderLength,
      BadLength, BadDecodedLength), and the inputs on which the C code goes on
      to read or write outside its buffers (BadEncodedLength,
      BadIncrementLength, BadReference). */
  datatype Error =
    | TooShort
    | BadHeader
    | BadHeaderLength
    | BadLength
    | BadDecodedLength
    | BadEncodedLength
    | BadIncrementLength
    | BadReference

  datatype Result<T> = Ok(value: T) | Err(error: Error)

  /** The layout a trailer describes: the first decLen bytes are copied as they
      are, the next segLen bytes hold the packed stream (inverted), and the
      output has rawLen bytes. */
  datatype Trailer = Trailer(decLen: nat, segLen: nat, rawLen: nat)

  /** The low three bytes of a little-endian word: `& 0x00FFFFFF`. */
  const LOW24: nat := 0x100_0000

  /** The last word of the buffer, `inc_len`: zero marks the stored layout. */
  function IncLen(pak: seq<Byte>): nat
    requires |pak| >= 4
  {
    ReadLE32(pak, |pak| - 4)
  }

  /** The byte before the last word, `hdr_len`. */
  function HdrLen(pak: seq<Byte>): Byte
    requires |pak| >= 8
  {
    pak[|pak| - 5]
  }

  /** The low three bytes of the word before that, `enc_len`. */
  function EncLen(pak: seq<Byte>): nat
    requires |pak| >= 8
  {
    ReadLE32(pak, |pak| - 8) % LOW24
  }

  /** `dec_len = pak_len - enc_len`, in unsigned arithmetic. */
  function DecLen(pak: seq<Byte>): nat
    requires |pak| >= 8
  {
    (|pak| - EncLen(pak)) % WORD
  }

  /** `raw_len = dec_len + enc_len + inc_len`, in unsigned arithmetic. */
  function RawLen(pak: seq<Byte>): nat
    requires |pak| >= 8
  {
    (DecLen(pak) + EncLen(pak) + IncLen(pak)) % WORD
  }

  /** The header checks of lines 82-84 pass: a headered trailer whose
      `hdr_len` is 8..11 and shorter than the buffer. */
  predicate HeaderAccepted(pak: seq<Byte>)
  {
    |pak| >= 8 && IncLen(pak) != 0 && 8 <= HdrLen(pak) <= 0x0B && HdrLen(pak) < |pak|
  }

  /** The trailer checks of BLZ_Decode, in the order the C code makes them. A
      zero last word marks the stored layout; otherwise the buffer must have
      room for a header, `hdr_len` must be 8..11 and shorter than the buffer,
      and the declared length at most RAW_MAXIM. An `enc_len` below `hdr_len`
      wraps `pak_len` around, so that the segment end lies outside the buffer
      and its inversion does nothing; that is harmless only when there is
      nothing to expand. */
  function ParseTrailer(pak: seq<Byte>): (r: Result<Trailer>)
    ensures r == Err(TooShort) <==> |pak| < 4
    ensures |pak| >= 4 && IncLen(pak) == 0 ==> r == Ok(Trailer(|pak| - 4, 0, |pak| - 4))
    ensures r == Err(BadHeader) <==> 4 <= |pak| < 8 && IncLen(pak) != 0
    ensures r == Err(BadHeaderLength) <==> |pak| >= 8 && IncLen(pak) != 0 && !(8 <= HdrLen(pak) <= 0x0B)
    ensures r == Err(BadLength) <==> |pak| >= 8 && IncLen(pak) != 0 && 8 <= HdrLen(pak) <= 0x0B && |pak| <= HdrLen(pak)
    ensures r == Err(BadDecodedLength) <==> HeaderAccepted(pak) && RawLen(pak) > RAW_MAXIM
    ensures r == Err(BadEncodedLength) ==>
      && HeaderAccepted(pak) && RawLen(pak) <= RAW_MAXIM
      && (EncLen(pak) > |pak| || (EncLen(pak) < HdrLen(pak) && RawLen(pak) != DecLen(pak)))
    ensures r == Err(BadIncrementLength) ==> HeaderAccepted(pak) && RawLen(pak) < DecLen(pak)
    ensures r.Ok? && |pak| >= 4 && IncLen(pak) != 0 ==>
      && HeaderAccepted(pak) && r.value.decLen == DecLen(pak) && r.value.rawLen == RawLen(pak) <= RAW_MAXIM
      && r.value.segLen == (if EncLen(pak) < HdrLen(pak) then 0 else EncLen(pak) - HdrLen(pak))
    ensures r.Ok? ==> r.value.decLen <= r.value.rawLen && r.value.decLen + r.value.segLen <= |pak|
  {
    var n := |pak|;
    if n < 4 then Err(TooShort)
    else if IncLen(pak) == 0 then Ok(Trailer(n - 4, 0, n - 4))
    else if n < 8 then Err(BadHeader)
    else
      var hdr := HdrLen(pak);
      if hdr < 8 || hdr > 0x0B then Err(BadHeaderLength)
      else if n <= hdr then Err(BadLength)
      else
        var enc, dec, raw := EncLen(pak), DecLen(pak), RawLen(pak);
        if raw > RAW_MAXIM then Err(BadDecodedLength)
        else if enc > n then Err(BadEncodedLength)
        else if raw < dec then Err(BadIncrementLength)
        else if enc < hdr then
          if raw == dec then Ok(Trailer(dec, 0, raw)) else Err(BadEncodedLength)
        else Ok(Trailer(dec, enc - hdr, raw))
  }

  /** `while (len--) *raw++ = *(raw - pos);`: len bytes appended one at a time,
      each a copy of the byte dist back, so that an overlapping copy repeats
      what it has just written. */
  function CopyBack(out: seq<Byte>, dist: nat, len: nat): (r: seq<Byte>)
    requires 1 <= dist <= |out|
    ensures |r| == |out| + len
    decreases len
  {
    if len == 0 then out else CopyBack(out + [out[|out| - dist]], dist, len - 1)
  }

  /** The decoded bytes so far, and whether a back-reference was truncated
      (the "wrong decoded length" warning). */
  datatype Expansion = Expansion(out: seq<Byte>, warned: bool)

  /** The decoder's main loop from the state (ip, out, flags, mask): the next
      iteration shifts the mask and, when it reaches zero, takes a new flag byte
      at ip (stopping when there is none). The output never grows past rawLen
      and what was written stays. */
  function Expand(seg: seq<Byte>, ip: nat, out: seq<Byte>, rawLen: nat, flags: Byte, mask: nat, warned: bool)
    : (r: Result<Expansion>)
    requires ip <= |seg| && |out| <= rawLen
    ensures r.Ok? ==> |out| <= |r.value.out| <= rawLen
    decreases rawLen - |out|, 1
  {
    if |out| == rawLen then Ok(Expansion(out, warned))
    else if mask / 2 == 0 then
      if ip == |seg| then Ok(Expansion(out, warned))
      else ExpandToken(seg, ip + 1, out, rawLen, seg[ip], 0x80, warned)
    else ExpandToken(seg, ip, out, rawLen, flags, mask / 2, warned)
  }

  /** The rest of an iteration, under the flag bit mask: a literal byte, or a
      back-reference whose copy is truncated at rawLen; stopping when the
      segment ends inside the token. */
  function ExpandToken(seg: seq<Byte>, ip: nat, out: seq<Byte>, rawLen: nat, flags: Byte, mask: nat, warned: bool)
    : (r: Result<Expansion>)
    requires ip <= |seg| && |out| < rawLen
    ensures r.Ok? ==> |out| <= |r.value.out| <= rawLen
    decreases rawLen - |out|, 0
  {
    if !IsSet(flags, mask) then
      if ip == |seg| then Ok(Expansion(out, warned))
      else
        var r := Expand(seg, ip + 1, out + [seg[ip]], rawLen, flags, mask, warned);
        r
    else if ip + 1 >= |seg| then Ok(Expansion(out, warned))
    else
      var len := RefLength(seg[ip], seg[ip + 1]);
      var over := |out| + len > rawLen;
      var len' := if over then rawLen - |out| else len;
      var dist := RefDistance(seg[ip], seg[ip + 1]);
      if dist > |out| then Err(BadReference)
      else
        var out' := CopyBack(out, dist, len');
        var r := Expand(seg, ip + 2, out', rawLen, flags, mask, warned || over);
        r
  }

  /** The length field of a back-reference's two bytes: the top four bits of
      the big-endian `pos`, plus BLZ_THRESHOLD + 1. */
  function RefLength(b0: Byte, b1: Byte): (r: nat)
    ensures THRESHOLD + 1 <= r <= MAX_CODED
  {
    ((b0 as int) * 0x100 + (b1 as int)) / 0x1000 + THRESHOLD + 1
  }

  /** The distance field of a back-reference's two bytes: the low twelve bits
      of `pos`, plus 3. */
  function RefDistance(b0: Byte, b1: Byte): (r: nat)
    ensures 3 <= r <= MAX_OFFSET
  {
    ((b0 as int) * 0x100 + (b1 as int)) % 0x1000 + 3
  }

  /** What BLZ_Decode returns: the bytes written (`*output_len` of them) and
      whether it printed the truncation warning. */
  datatype Decoded = Decoded(output: seq<Byte>, warned: bool)

  /** The segment the decoder reads: the packed bytes after the copied prefix,
      inverted back into the order the encoder wrote them. */
  function Segment(pak: seq<Byte>, t: Trailer): seq<Byte>
    requires t.decLen + t.segLen <= |pak|
  {
    Reversed(pak[t.decLen..t.decLen + t.segLen])
  }

  /** BLZ_Decode: copy the prefix, expand the segment behind it into a zeroed
      buffer of rawLen bytes, invert the region after the prefix, and return
      the bytes written. */
  function Decode(pak: seq<Byte>): (r: Result<Decoded>)
    ensures r.Ok? ==> ParseTrailer(pak).Ok? && |r.value.output| <= ParseTrailer(pak).value.rawLen
    ensures ParseTrailer(pak).Err? ==> r == Err(ParseTrailer(pak).error)
  {
    match ParseTrailer(pak)
    case Err(e) => Err(e)
    case Ok(t) =>
      match Expand(Segment(pak, t), 0, pak[..t.decLen], t.rawLen, 0, 0, false)
      case Err(e) => Err(e)
      case Ok(x) =>
        var buf := x.out + Zeros(t.rawLen - |x.out|);
        Ok(Decoded(InvertedRange(buf, t.decLen, t.rawLen - t.decLen)[..|x.out|], x.warned))
  }

  /** The compressed buffer after BLZ_Decode: the decoder inverts the segment
      in place and leaves it so; it is untouched when a trailer check fails. */
  function DecodedInput(pak: seq<Byte>): (r: seq<Byte>)
    ensures |r| == |pak|
  {
    match ParseTrailer(pak)
    case Err(_) => pak
    case Ok(t) => InvertedRange(pak, t.decLen, t.segLen)
  }

  /** The overlapping copy only appends: the bytes before it stay. */
  lemma {:induction false} CopyBackAppends(out: seq<Byte>, dist: nat, len: nat)
    requires 1 <= dist <= |out|
    ensures CopyBack(out, dist, len)[..|out|] == out
    decreases len
  {
    if len > 0 {
      var out' := out + [out[|out| - dist]];
      CopyBackAppends(out', dist, len - 1);
      assert out'[..|out|] == out;
    }
  }

  /** The main loop only appends to what it was given, and it warns only
      when the output has reached exactly rawLen. */
  lemma {:induction false} ExpandAppends(seg: seq<Byte>, ip: nat, out: seq<Byte>, rawLen: nat, flags: Byte,
                                         mask: nat, warned: bool)
    requires ip <= |seg| && |out| <= rawLen
    ensures var r := Expand(seg, ip, out, rawLen, flags, mask, warned);
      r.Ok? ==> r.value.out[..|out|] == out && (r.value.warned ==> warned || |r.value.out| == rawLen)
    decreases rawLen - |out|, 1
  {
    if |out| == rawLen {
    } else if mask / 2 == 0 {
      if ip < |seg| {
        ExpandTokenAppends(seg, ip + 1, out, rawLen, seg[ip], 0x80, warned);
      }
    } else {
      ExpandTokenAppends(seg, ip, out, rawLen, flags, mask / 2, warned);
    }
  }

  /** The same, from the middle of an iteration. */
  lemma {:induction false} ExpandTokenAppends(seg: seq<Byte>, ip: nat, out: seq<Byte>, rawLen: nat, flags: Byte,
                                              mask: nat, warned: bool)
    requires ip <= |seg| && |out| < rawLen
    ensures var r := ExpandToken(seg, ip, out, rawLen, flags, mask, warned);
      r.Ok? ==> r.value.out[..|out|] == out && (r.value.warned ==> warned || |r.value.out| == rawLen)
    decreases rawLen - |out|, 0
  {
    if !IsSet(flags, mask) {
      if ip < |seg| {
        var out' := out + [seg[ip]];
        ExpandAppends(seg, ip + 1, out', rawLen, flags, mask, warned);
        assert out'[..|out|] == out;
      }
    } else if ip + 1 < |seg| {
      var len := RefLength(seg[ip], seg[ip + 1]);
      var over := |out| + len > rawLen;
      var len' := if over then rawLen - |out| else len;
      var dist := RefDistance(seg[ip], seg[ip + 1]);
      if dist <= |out| {
        var out' := CopyBack(out, dist, len');
        CopyBackAppends(out, dist, len');
        ExpandAppends(seg, ip + 2, out', rawLen, flags, mask, warned || over);
      }
    }
  }

  /** What BLZ_Decode returns starts with the copied prefix, and when it
      printed the truncation warning it has exactly the declared length. */
  lemma DecodeShape(pak: seq<Byte>)
    ensures var r := Decode(pak);
      r.Ok? ==>
        var t := ParseTrailer(pak).value;
        && t.decLen <= |r.value.output| && r.value.output[..t.decLen] == pak[..t.decLen]
        && (r.value.warned ==> |r.value.output| == t.rawLen)
  {
    if ParseTrailer(pak).Ok? {
      var t := ParseTrailer(pak).value;
      ExpandAppends(Segment(pak, t), 0, pak[..t.decLen], t.rawLen, 0, 0, false);
    }
  }
}
