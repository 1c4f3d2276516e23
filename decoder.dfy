/** BLZ_Decode as a method over arrays: the trailer is read field by field,
    the copied prefix and the inverted segment are expanded into a zeroed
    output buffer, which is then inverted behind the prefix. Each step is
    proved to compute what the functions of module Decoding describe. */
module Decoder {
  import opened Bytes
  import opened Inversion
  import opened Decoding
  import opened Tokens

  /** `*(unsigned int *)(a + i)`, read as little-endian. */
  method Load32(a: array<Byte>, i: nat) returns (x: nat)
    requires i + 4 <= a.Length
    ensures x == ReadLE32(a[..], i)
  {
    x := (a[i] as int) + 0x100 * (a[i + 1] as int) + 0x1_0000 * (a[i + 2] as int) + 0x100_0000 * (a[i + 3] as int);
  }

  /** The trailer checks at the head of BLZ_Decode, with C's unsigned
      subtraction and addition written out modulo 2^32. */
  method ReadTrailer(pak: array<Byte>) returns (r: Result<Trailer>)
    ensures r == ParseTrailer(pak[..])
  {
    var n := pak.Length;
    if n < 4 {
      return Err(TooShort);
    }
    var inc := Load32(pak, n - 4);
    if inc == 0 {
      return Ok(Trailer(n - 4, 0, n - 4));
    }
    if n < 8 {
      return Err(BadHeader);
    }
    var hdr := pak[n - 5];
    if hdr < 0x08 || hdr > 0x0B {
      return Err(BadHeaderLength);
    }
    if n <= hdr {
      return Err(BadLength);
    }
    var enc := Load32(pak, n - 8);
    enc := enc % LOW24;
    var dec := (n - enc) % WORD;
    var raw := (dec + enc + inc) % WORD;
    if raw > RAW_MAXIM {
      return Err(BadDecodedLength);
    }
    if enc > n {
      return Err(BadEncodedLength);
    }
    if raw < dec {
      return Err(BadIncrementLength);
    }
    if enc < hdr {
      if raw == dec {
        return Ok(Trailer(dec, 0, raw));
      }
      return Err(BadEncodedLength);
    }
    r := Ok(Trailer(dec, enc - hdr, raw));
  }

  /** `while (len--) *raw++ = *(raw - pos);` at raw[w..]: the bytes in front of
      w + len become CopyBack of those in front of w, and nothing behind them
      changes. */
  method CopyWithin(raw: array<Byte>, w: nat, dist: nat, len: nat)
    requires 1 <= dist <= w && w + len <= raw.Length
    modifies raw
    ensures raw[..w + len] == CopyBack(old(raw[..w]), dist, len)
    ensures raw[w + len..] == old(raw[w + len..])
  {
    ghost var goal := CopyBack(raw[..w], dist, len);
    ghost var tail := raw[w + len..];
    var k := 0;
    while k < len
      invariant k <= len
      invariant CopyBack(raw[..w + k], dist, len - k) == goal
      invariant raw[w + len..] == tail
    {
      CopyByte(raw, w + k, dist, w + len, len - k, goal);
      k := k + 1;
    }
  }

  /** `*raw++ = *(raw - pos)` at i: one more byte of the copy is done, and
      nothing from e on changes. */
  method CopyByte(raw: array<Byte>, i: nat, dist: nat, ghost e: nat, ghost left: nat, ghost goal: seq<Byte>)
    requires 1 <= dist <= i < e <= raw.Length && 0 < left
    requires CopyBack(raw[..i], dist, left) == goal
    modifies raw
    ensures CopyBack(raw[..i + 1], dist, left - 1) == goal
    ensures raw[e..] == old(raw[e..])
  {
    ghost var A := raw[..];
    raw[i] := raw[i - dist];
    Copied(A, raw[..], i, dist, e, left);
  }

  /** Storing, at i, the byte dist back: one byte of the copy is done, and
      nothing from e on changes. */
  lemma Copied(A: seq<Byte>, B: seq<Byte>, i: nat, dist: nat, e: nat, len: nat)
    requires 1 <= dist <= i < e <= |A| && B == A[i := A[i - dist]] && 0 < len
    ensures CopyBack(B[..i + 1], dist, len - 1) == CopyBack(A[..i], dist, len) && B[e..] == A[e..]
  {
    assert B[..i + 1] == A[..i] + [A[..i][i - dist]];
  }

  /** raw[..w] has been written and the rest of raw is still zero. */
  ghost predicate Filled(raw: seq<Byte>, w: nat)
  {
    w <= |raw| && raw[w..] == Zeros(|raw| - w)
  }

  /** How an iteration of the main loop ends: it breaks out, with the result
      of the whole loop, or goes on from a new state. */
  datatype Outcome = Stop(result: Result<Expansion>) | Next(ip: nat, w: nat, warned: bool)

  /** The main loop of BLZ_Decode over the segment pak[dec..dec+|seg|], writing
      into the zeroed buffer raw behind its first dec bytes: the result is
      that of Decoding.Expand, and raw holds its output followed by zeros. */
  method ExpandInto(pak: array<Byte>, raw: array<Byte>, dec: nat, segEnd: nat, ghost seg: seq<Byte>)
    returns (r: Result<Expansion>, stop: nat)
    requires pak != raw && segEnd == dec + |seg|
    requires segEnd <= pak.Length && pak[dec..segEnd] == seg
    requires dec <= raw.Length && raw[dec..] == Zeros(raw.Length - dec)
    modifies raw
    ensures r == Decoding.Expand(seg, 0, old(raw[..dec]), raw.Length, 0, 0, false)
    ensures r.Ok? ==> raw[..] == r.value.out + Zeros(raw.Length - |r.value.out|)
    ensures dec <= stop <= segEnd
    ensures r.Ok? && |r.value.out| < raw.Length ==> segEnd <= stop + 1
  {
    ghost var goal := Decoding.Expand(seg, 0, raw[..dec], raw.Length, 0, 0, false);
    var ip, w, flags: Byte, mask: nat, warned := dec, dec, 0, 0, false;
    while w < raw.Length
      invariant dec <= ip <= segEnd && pak[dec..segEnd] == seg && Filled(raw[..], w)
      invariant Decoding.Expand(seg, ip - dec, raw[..w], raw.Length, flags, mask, warned) == goal
      decreases raw.Length - w
    {
      var o, at, f, m := Iteration(pak, raw, dec, segEnd, seg, ip, w, flags, mask, warned, goal);
      match o
      case Stop(e) =>
        return e, at;
      case Next(ip', w', warned') =>
        ip, w, flags, mask, warned := ip', w', f, m, warned';
    }
    assert raw[..] == raw[..w];
    r, stop := Ok(Expansion(raw[..w], warned)), ip;
  }

  /** One iteration of the main loop: a new flag byte when the mask runs
      out, then the token under the flag bit. A stop that is not an error
      leaves at most one byte of the segment unread, at `at`. */
  method Iteration(pak: array<Byte>, raw: array<Byte>, dec: nat, segEnd: nat, ghost seg: seq<Byte>, ip: nat, w: nat,
                   flags: Byte, mask: nat, warned: bool, ghost goal: Result<Expansion>)
    returns (o: Outcome, at: nat, flags': Byte, mask': nat)
    requires pak != raw && segEnd == dec + |seg|
    requires segEnd <= pak.Length && pak[dec..segEnd] == seg && dec <= ip <= segEnd
    requires Filled(raw[..], w) && w < raw.Length
    requires Decoding.Expand(seg, ip - dec, raw[..w], raw.Length, flags, mask, warned) == goal
    modifies raw
    ensures o.Stop? ==> o.result == goal && dec <= at <= segEnd
    ensures o.Stop? && goal.Ok? ==> raw[..] == goal.value.out + Zeros(raw.Length - |goal.value.out|)
    ensures o.Stop? && goal.Ok? ==> segEnd <= at + 1 && |goal.value.out| < raw.Length
    ensures o.Next? ==> w < o.w && dec <= o.ip <= segEnd && Filled(raw[..], o.w)
    ensures o.Next? ==> Decoding.Expand(seg, o.ip - dec, raw[..o.w], raw.Length, flags', mask', o.warned) == goal
  {
    var m := mask / 2;
    var f, i := flags, ip;
    if m == 0 {
      if ip == segEnd {
        assert raw[..] == raw[..w] + raw[w..];
        return Stop(Ok(Expansion(raw[..w], warned))), ip, flags, mask;
      }
      assert pak[ip] == seg[ip - dec];
      f, i, m := pak[ip], ip + 1, 0x80;
    }
    o := Token(pak, raw, dec, segEnd, seg, i, w, f, m, warned, goal);
    at, flags', mask' := i, f, m;
  }

  /** The body of the main loop after the flag bit is chosen: a literal byte
      is copied, or a back-reference is copied byte by byte. */
  method Token(pak: array<Byte>, raw: array<Byte>, dec: nat, segEnd: nat, ghost seg: seq<Byte>, ip: nat, w: nat,
               flags: Byte, mask: nat, warned: bool, ghost goal: Result<Expansion>) returns (o: Outcome)
    requires pak != raw && segEnd == dec + |seg|
    requires segEnd <= pak.Length && pak[dec..segEnd] == seg && dec <= ip <= segEnd
    requires Filled(raw[..], w) && w < raw.Length
    requires ExpandToken(seg, ip - dec, raw[..w], raw.Length, flags, mask, warned) == goal
    modifies raw
    ensures o.Stop? ==> o.result == goal && (goal.Ok? ==> raw[..] == goal.value.out + Zeros(raw.Length - |goal.value.out|))
    ensures o.Stop? && goal.Ok? ==> segEnd <= ip + 1 && |goal.value.out| < raw.Length
    ensures o.Next? ==> w < o.w && ip < o.ip <= segEnd && Filled(raw[..], o.w)
    ensures o.Next? ==> Decoding.Expand(seg, o.ip - dec, raw[..o.w], raw.Length, flags, mask, o.warned) == goal
  {
    if !IsSet(flags, mask) {
      o := Literal(pak, raw, dec, segEnd, seg, ip, w, flags, mask, warned, goal);
    } else {
      o := Reference(pak, raw, dec, segEnd, seg, ip, w, flags, mask, warned, goal);
    }
  }

  /** A literal: the next segment byte is copied, unless the segment has ended. */
  method Literal(pak: array<Byte>, raw: array<Byte>, dec: nat, segEnd: nat, ghost seg: seq<Byte>, ip: nat, w: nat,
                 flags: Byte, mask: nat, warned: bool, ghost goal: Result<Expansion>) returns (o: Outcome)
    requires pak != raw && segEnd == dec + |seg| && !IsSet(flags, mask)
    requires segEnd <= pak.Length && pak[dec..segEnd] == seg && dec <= ip <= segEnd
    requires Filled(raw[..], w) && w < raw.Length
    requires ExpandToken(seg, ip - dec, raw[..w], raw.Length, flags, mask, warned) == goal
    modifies raw
    ensures o.Stop? ==> o.result == goal && (goal.Ok? ==> raw[..] == goal.value.out + Zeros(raw.Length - |goal.value.out|))
    ensures o.Stop? && goal.Ok? ==> segEnd <= ip + 1 && |goal.value.out| < raw.Length
    ensures o.Next? ==> w < o.w && ip < o.ip <= segEnd && Filled(raw[..], o.w)
    ensures o.Next? ==> Decoding.Expand(seg, o.ip - dec, raw[..o.w], raw.Length, flags, mask, o.warned) == goal
  {
    if ip == segEnd {
      Whole(raw[..], w);
      return Stop(Ok(Expansion(raw[..w], warned)));
    }
    ghost var A := raw[..];
    SegmentByte(pak[..], seg, dec, segEnd, ip);
    raw[w] := pak[ip];
    LiteralFrame(A, raw[..], seg, dec, ip, w, flags, mask, warned, goal);
    o := Next(ip + 1, w + 1, warned);
  }

  /** A back-reference: two segment bytes give its length and distance, unless
      the segment ends first; the length is truncated at the end of raw, and a
      distance reaching before the start of raw is an error. */
  method Reference(pak: array<Byte>, raw: array<Byte>, dec: nat, segEnd: nat, ghost seg: seq<Byte>, ip: nat, w: nat,
                   flags: Byte, mask: nat, warned: bool, ghost goal: Result<Expansion>) returns (o: Outcome)
    requires pak != raw && segEnd == dec + |seg| && IsSet(flags, mask)
    requires segEnd <= pak.Length && pak[dec..segEnd] == seg && dec <= ip <= segEnd
    requires Filled(raw[..], w) && w < raw.Length
    requires ExpandToken(seg, ip - dec, raw[..w], raw.Length, flags, mask, warned) == goal
    modifies raw
    ensures o.Stop? ==> o.result == goal && (goal.Ok? ==> raw[..] == goal.value.out + Zeros(raw.Length - |goal.value.out|))
    ensures o.Stop? && goal.Ok? ==> segEnd <= ip + 1 && |goal.value.out| < raw.Length
    ensures o.Next? ==> w < o.w && ip < o.ip <= segEnd && Filled(raw[..], o.w)
    ensures o.Next? ==> Decoding.Expand(seg, o.ip - dec, raw[..o.w], raw.Length, flags, mask, o.warned) == goal
  {
    if ip + 1 >= segEnd {
      Whole(raw[..], w);
      return Stop(Ok(Expansion(raw[..w], warned)));
    }
    o := WholeReference(pak, raw, dec, segEnd, seg, ip, w, flags, mask, warned, goal);
  }

  /** A back-reference whose two bytes are both in the segment. */
  method WholeReference(pak: array<Byte>, raw: array<Byte>, dec: nat, segEnd: nat, ghost seg: seq<Byte>, ip: nat, w: nat,
                        ghost flags: Byte, ghost mask: nat, warned: bool, ghost goal: Result<Expansion>) returns (o: Outcome)
    requires pak != raw && segEnd == dec + |seg| && IsSet(flags, mask)
    requires segEnd <= pak.Length && pak[dec..segEnd] == seg && dec <= ip && ip + 1 < segEnd
    requires Filled(raw[..], w) && w < raw.Length
    requires ExpandToken(seg, ip - dec, raw[..w], raw.Length, flags, mask, warned) == goal
    modifies raw
    ensures o.Stop? ==> o.result == goal && goal.Err?
    ensures o.Next? ==> w < o.w && ip < o.ip <= segEnd && Filled(raw[..], o.w)
    ensures o.Next? ==> Decoding.Expand(seg, o.ip - dec, raw[..o.w], raw.Length, flags, mask, o.warned) == goal
  {
    var len, dist, warned' := ReadReference(pak, dec, segEnd, seg, ip, w, raw.Length, warned);
    ReferenceStep(seg, ip - dec, raw[..w], raw.Length, flags, mask, warned, dist, len, warned');
    if dist > w {
      return Stop(Err(BadReference));
    }
    o := CopyReference(raw, ip, w, dist, len, seg, dec, flags, mask, warned', goal);
  }

  /** The two bytes of a back-reference: its length, truncated at the end of
      raw with a warning, and its distance. */
  method ReadReference(pak: array<Byte>, dec: nat, segEnd: nat, ghost seg: seq<Byte>, ip: nat, w: nat, rawLen: nat,
                       warned: bool) returns (len: nat, dist: nat, warned': bool)
    requires segEnd == dec + |seg| && segEnd <= pak.Length && pak[dec..segEnd] == seg && dec <= ip && ip + 1 < segEnd
    requires w < rawLen
    ensures var i := ip - dec;
      var over := w + RefLength(seg[i], seg[i + 1]) > rawLen;
      dist == RefDistance(seg[i], seg[i + 1]) && warned' == (warned || over) &&
      len == if over then rawLen - w else RefLength(seg[i], seg[i + 1])
  {
    SegmentByte(pak[..], seg, dec, segEnd, ip);
    SegmentByte(pak[..], seg, dec, segEnd, ip + 1);
    len := RefLength(pak[ip], pak[ip + 1]);
    warned' := warned;
    if w + len > rawLen {
      warned' := true;
      len := rawLen - w;
    }
    dist := RefDistance(pak[ip], pak[ip + 1]);
  }

  /** The copy of a back-reference, which keeps the loop's goal. */
  method CopyReference(raw: array<Byte>, ip: nat, w: nat, dist: nat, len: nat, ghost seg: seq<Byte>, ghost dec: nat,
                       ghost flags: Byte, ghost mask: nat, warned: bool, ghost goal: Result<Expansion>)
    returns (o: Outcome)
    requires Filled(raw[..], w) && 1 <= dist <= w && w + len <= raw.Length && dec <= ip + 2 <= dec + |seg|
    requires Decoding.Expand(seg, ip + 2 - dec, CopyBack(raw[..w], dist, len), raw.Length, flags, mask, warned) == goal
    modifies raw
    ensures o == Next(ip + 2, w + len, warned)
    ensures Filled(raw[..], o.w)
    ensures Decoding.Expand(seg, o.ip - dec, raw[..o.w], raw.Length, flags, mask, o.warned) == goal
  {
    ghost var A := raw[..];
    assert A[..w] == raw[..w];
    CopyWithin(raw, w, dist, len);
    ZerosDrop(A, w, w + len);
    assert raw[w + len..] == A[w + len..];
    o := Next(ip + 2, w + len, warned);
  }

  /** The literal step keeps the loop's state and its goal. */
  lemma LiteralFrame(A: seq<Byte>, B: seq<Byte>, seg: seq<Byte>, dec: nat, ip: nat, w: nat,
                     flags: Byte, mask: nat, warned: bool, goal: Result<Expansion>)
    requires Filled(A, w) && w < |A| && dec <= ip < dec + |seg| && !IsSet(flags, mask)
    requires ExpandToken(seg, ip - dec, A[..w], |A|, flags, mask, warned) == goal
    requires B == A[w := seg[ip - dec]]
    ensures Filled(B, w + 1)
    ensures Decoding.Expand(seg, ip + 1 - dec, B[..w + 1], |B|, flags, mask, warned) == goal
  {
    LiteralStep(seg, ip - dec, A[..w], |A|, flags, mask, warned);
    Written(A, B, w, seg[ip - dec]);
  }

  lemma SegmentByte(pak: seq<Byte>, seg: seq<Byte>, dec: nat, segEnd: nat, i: nat)
    requires dec <= i < segEnd <= |pak| && segEnd == dec + |seg| && pak[dec..segEnd] == seg
    ensures pak[i] == seg[i - dec]
  {
    assert pak[dec..segEnd][i - dec] == pak[i];
  }

  lemma Whole(A: seq<Byte>, w: nat)
    requires w <= |A| && A[w..] == Zeros(|A| - w)
    ensures A == A[..w] + Zeros(|A| - |A[..w]|)
  {
    assert A == A[..w] + A[w..];
  }

  /** Storing v at w, in front of zeros. */
  lemma Written(A: seq<Byte>, B: seq<Byte>, w: nat, v: Byte)
    requires w < |A| && B == A[w := v] && A[w..] == Zeros(|A| - w)
    ensures B[..w + 1] == A[..w] + [v] && B[w + 1..] == Zeros(|B| - (w + 1))
  {
    assert B[w + 1..] == A[w + 1..] == A[w..][1..];
  }

  lemma ZerosDrop(A: seq<Byte>, w: nat, e: nat)
    requires w <= e <= |A| && A[w..] == Zeros(|A| - w)
    ensures A[e..] == Zeros(|A| - e)
  {
    assert A[e..] == A[w..][e - w..];
  }

  /** One literal of the main loop, as Decoding.ExpandToken takes it. */
  lemma LiteralStep(seg: seq<Byte>, i: nat, out: seq<Byte>, rawLen: nat, flags: Byte, mask: nat, warned: bool)
    requires i < |seg| && |out| < rawLen && !IsSet(flags, mask)
    ensures ExpandToken(seg, i, out, rawLen, flags, mask, warned) == Decoding.Expand(seg, i + 1, out + [seg[i]], rawLen, flags, mask, warned)
  {
  }

  /** One back-reference of the main loop, as Decoding.ExpandToken takes it,
      given its distance, its possibly truncated length and the warning. */
  lemma ReferenceStep(seg: seq<Byte>, i: nat, out: seq<Byte>, rawLen: nat, flags: Byte, mask: nat, warned: bool,
                      dist: nat, len: nat, warned': bool)
    requires i + 1 < |seg| && |out| < rawLen && IsSet(flags, mask)
    requires var over := |out| + RefLength(seg[i], seg[i + 1]) > rawLen;
             dist == RefDistance(seg[i], seg[i + 1]) && warned' == (warned || over) &&
             len == if over then rawLen - |out| else RefLength(seg[i], seg[i + 1])
    ensures dist > |out| ==> ExpandToken(seg, i, out, rawLen, flags, mask, warned) == Err(BadReference)
    ensures dist <= |out| ==> ExpandToken(seg, i, out, rawLen, flags, mask, warned)
                              == Decoding.Expand(seg, i + 2, CopyBack(out, dist, len), rawLen, flags, mask, warned')
  {
  }

  /** BLZ_Decode: the trailer is checked, the first decLen bytes are copied
      into a zeroed buffer of rawLen bytes, the segment is inverted in place
      and expanded behind them, and the buffer is inverted behind the copied
      prefix; the result is the bytes written and whether a reference was
      truncated. The compressed buffer keeps its segment inverted. */
  method Decode(pak: array<Byte>) returns (r: Result<Decoded>)
    modifies pak
    ensures r == Decoding.Decode(old(pak[..]))
    ensures pak[..] == DecodedInput(old(pak[..]))
  {
    ghost var P := pak[..];
    var tr := ReadTrailer(pak);
    if tr.Err? {
      DecodeRejected(P);
      return Err(tr.error);
    }
    var t := tr.value;
    var raw := Prefix(pak, t.decLen, t.rawLen);
    ghost var front := raw[..t.decLen];
    assert front == P[..t.decLen];
    Invert(pak, t.decLen, t.segLen);
    SegmentInverted(P, t);
    DecodedInputOk(P, t);
    var e, stop := ExpandInto(pak, raw, t.decLen, t.decLen + t.segLen, Segment(P, t));
    if e.Err? {
      DecodeFailed(P, t, e.error);
      return Err(e.error);
    }
    var x := e.value;
    Invert(raw, t.decLen, t.rawLen - t.decLen);
    DecodeOk(P, t, x);
    r := Ok(Decoded(raw[..|x.out|], x.warned));
  }

  /** Decoding.Decode when a trailer check fails. */
  lemma DecodeRejected(P: seq<Byte>)
    requires ParseTrailer(P).Err?
    ensures Decoding.Decode(P) == Err(ParseTrailer(P).error) && DecodedInput(P) == P
  {
  }

  /** DecodedInput once the trailer is accepted. */
  lemma DecodedInputOk(P: seq<Byte>, t: Trailer)
    requires ParseTrailer(P) == Ok(t)
    ensures DecodedInput(P) == InvertedRange(P, t.decLen, t.segLen)
  {
  }

  /** Decoding.Decode when the main loop fails. */
  lemma DecodeFailed(P: seq<Byte>, t: Trailer, e: Error)
    requires ParseTrailer(P) == Ok(t)
    requires Decoding.Expand(Segment(P, t), 0, P[..t.decLen], t.rawLen, 0, 0, false) == Err(e)
    ensures Decoding.Decode(P) == Err(e)
  {
  }

  /** Decoding.Decode when the main loop succeeds. */
  lemma DecodeOk(P: seq<Byte>, t: Trailer, x: Expansion)
    requires ParseTrailer(P) == Ok(t)
    requires Decoding.Expand(Segment(P, t), 0, P[..t.decLen], t.rawLen, 0, 0, false) == Ok(x)
    ensures Decoding.Decode(P)
      == Ok(Decoded(InvertedRange(x.out + Zeros(t.rawLen - |x.out|), t.decLen, t.rawLen - t.decLen)[..|x.out|], x.warned))
  {
  }

  /** `raw_buffer = Memory(raw_len)` followed by the copy of the first dec
      bytes. */
  method Prefix(pak: array<Byte>, dec: nat, rawLen: nat) returns (raw: array<Byte>)
    requires dec <= pak.Length && dec <= rawLen
    ensures fresh(raw) && raw.Length == rawLen
    ensures raw[..dec] == pak[..dec] && raw[dec..] == Zeros(rawLen - dec)
  {
    raw := new Byte[rawLen](_ => 0);
    for i := 0 to dec
      invariant raw[..i] == pak[..i] && raw[i..] == Zeros(rawLen - i)
    {
      ghost var A := raw[..];
      raw[i] := pak[i];
      Written(A, raw[..], i, pak[i]);
      assert raw[..i + 1] == raw[..][..i + 1];
    }
  }

  /** After the in-place inversion the segment reads as Segment describes it. */
  lemma SegmentInverted(P: seq<Byte>, t: Trailer)
    requires t.decLen + t.segLen <= |P|
    ensures InvertedRange(P, t.decLen, t.segLen)[t.decLen..t.decLen + t.segLen] == Segment(P, t)
  {
  }
}
