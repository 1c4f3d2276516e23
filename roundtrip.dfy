/** What decoding gives back for what the encoder writes: the token loop of
    the decoder reproduces the bytes the encoder's tokens describe, the
    trailer reads back as written, and BLZ_Decode undoes BLZ_Code. */
module RoundTrip {
  import opened Bytes
  import opened Tokens
  import opened Inversion
  import opened Encoding
  import opened Decoding

  /** The largest input whose headered trailer fields fit: `enc_len + hdr_len`
      is stored in three bytes, and it can reach |raw| + 4. */
  const ROUND_TRIP_MAXIM: nat := RAW_MAXIM - 4

  /** A back-reference's byte-by-byte copy reproduces the l bytes of s at c
      that repeat those d back. */
  lemma {:induction false} CopyBackRepeats(s: seq<Byte>, c: nat, d: nat, l: nat, j: nat)
    requires 1 <= d <= c && c + l <= |s| && Repeats(s, c, d, l) && j <= l
    ensures CopyBack(s[..c + j], d, l - j) == s[..c + l]
    decreases l - j
  {
    if j < l {
      RepeatsAt(s, c, d, l, c + j);
      assert s[..c + j] + [s[..c + j][c + j - d]] == s[..c + j + 1];
      CopyBackRepeats(s, c, d, l, j + 1);
    }
  }

  /** The decoder's main loop, started after the bytes s[..c] on a stream that
      encodes tokens V which describe s from c up to e, with room for exactly
      what V stands for, writes exactly those bytes of s and warns of
      nothing. */
  lemma {:induction false} ExpandReproduces(s: seq<Byte>, c: nat, V: seq<Token>, seg: seq<Byte>,
                                            ip: nat, mask: nat, flags: Byte, warned: bool, e: nat)
    requires ip <= |seg| && Describes(s, c, V) && Encodes(seg[ip..], mask, flags, V)
    requires e == c + Consumed(V)
    ensures e <= |s|
    ensures Decoding.Expand(seg, ip, s[..c], e, flags, mask, warned) == Ok(Expansion(s[..e], warned))
    decreases |V|, 1
  {
    DescribesPrefix(s, c, V, 0);
    if V != [] {
      ConsumedCons(V);
      if mask / 2 == 0 {
        assert seg[ip..][1..] == seg[ip + 1..];
        ExpandTokenReproduces(s, c, V, seg, ip + 1, 0x100, seg[ip], warned, e);
      } else {
        ExpandTokenReproduces(s, c, V, seg, ip, mask, flags, warned, e);
      }
    }
  }

  /** The same, from the middle of an iteration: the flag bit for the first
      token of V is the one under mask / 2. */
  lemma {:induction false} ExpandTokenReproduces(s: seq<Byte>, c: nat, V: seq<Token>, seg: seq<Byte>,
                                                 ip: nat, mask: nat, flags: Byte, warned: bool, e: nat)
    requires V != [] && mask / 2 > 0 && ip <= |seg|
    requires Describes(s, c, V) && Encodes(seg[ip..], mask, flags, V)
    requires e == c + Consumed(V)
    ensures e <= |s|
    ensures ExpandToken(seg, ip, s[..c], e, flags, mask / 2, warned) == Ok(Expansion(s[..e], warned))
    decreases |V|, 0
  {
    FirstToken(s, c, V, seg, ip, mask, flags);
    var t := V[0];
    assert e == c + Span(t) + Consumed(V[1..]);
    ExpandReproduces(s, c + Span(t), V[1..], seg, ip + |TokenBytes(t)|, mask / 2, flags, warned, e);
    TokenReproduces(s, c, t, seg, ip, flags, mask / 2, warned, e, Ok(Expansion(s[..e], warned)));
  }

  /** What the first of the tokens V leaves for the rest. */
  lemma FirstToken(s: seq<Byte>, c: nat, V: seq<Token>, seg: seq<Byte>, ip: nat, mask: nat, flags: Byte)
    requires V != [] && mask / 2 > 0 && ip <= |seg|
    requires Describes(s, c, V) && Encodes(seg[ip..], mask, flags, V)
    ensures c + Consumed(V) <= |s| && Consumed(V) == Span(V[0]) + Consumed(V[1..])
    ensures Describes(s, c, [V[0]]) && IsSet(flags, mask / 2) == V[0].Reference?
    ensures var n := |TokenBytes(V[0])|; ip + n <= |seg| && seg[ip..ip + n] == TokenBytes(V[0])
    ensures Describes(s, c + Span(V[0]), V[1..])
    ensures Encodes(seg[ip + |TokenBytes(V[0])|..], mask / 2, flags, V[1..])
  {
    DescribesPrefix(s, c, V, 0);
    DescribesPrefix(s, c, V, 1);
    assert V[..1] == [V[0]];
    ConsumedCons(V);
    var b := TokenBytes(V[0]);
    assert seg[ip..][..|b|] == seg[ip..ip + |b|];
    assert seg[ip..][|b|..] == seg[ip + |b|..];
  }

  /** One token t that stands for the bytes of s at c and whose bytes are at
      ip, once the loop is known to go on from there to R. */
  lemma TokenReproduces(s: seq<Byte>, c: nat, t: Token, seg: seq<Byte>,
                        ip: nat, flags: Byte, mask: nat, warned: bool, rawLen: nat, R: Result<Expansion>)
    requires Describes(s, c, [t]) && IsSet(flags, mask) == t.Reference?
    requires ip + |TokenBytes(t)| <= |seg| && seg[ip..ip + |TokenBytes(t)|] == TokenBytes(t)
    requires c + Span(t) <= rawLen
    requires Decoding.Expand(seg, ip + |TokenBytes(t)|, s[..c + Span(t)], rawLen, flags, mask, warned) == R
    ensures ExpandToken(seg, ip, s[..c], rawLen, flags, mask, warned) == R
  {
    if t.Literal? {
      LiteralReproduces(s, c, t, seg, ip, flags, mask, warned, rawLen, R);
    } else {
      ReferenceReproduces(s, c, t, seg, ip, flags, mask, warned, rawLen, R);
    }
  }

  /** TokenReproduces for a literal. */
  lemma LiteralReproduces(s: seq<Byte>, c: nat, t: Token, seg: seq<Byte>,
                          ip: nat, flags: Byte, mask: nat, warned: bool, rawLen: nat, R: Result<Expansion>)
    requires t.Literal? && Describes(s, c, [t]) && !IsSet(flags, mask)
    requires ip + 1 <= |seg| && seg[ip..ip + 1] == TokenBytes(t)
    requires c + 1 <= rawLen
    requires Decoding.Expand(seg, ip + 1, s[..c + 1], rawLen, flags, mask, warned) == R
    ensures ExpandToken(seg, ip, s[..c], rawLen, flags, mask, warned) == R
  {
    assert seg[ip] == TokenBytes(t)[0];
    assert s[..c] + [seg[ip]] == s[..c + 1];
    LiteralStep(seg, ip, s[..c], rawLen, flags, mask, warned, R);
  }

  /** The copy of a back-reference that describes s at c rebuilds its bytes. */
  lemma ReferenceCopy(s: seq<Byte>, c: nat, t: Token)
    requires t.Reference? && Describes(s, c, [t])
    ensures 1 <= t.dist <= |s[..c]| && CopyBack(s[..c], t.dist, t.len) == s[..c + t.len]
  {
    CopyBackRepeats(s, c, t.dist, t.len, 0);
    assert s[..c + 0] == s[..c];
  }

  /** TokenReproduces for a back-reference. */
  lemma ReferenceReproduces(s: seq<Byte>, c: nat, t: Token, seg: seq<Byte>,
                            ip: nat, flags: Byte, mask: nat, warned: bool, rawLen: nat, R: Result<Expansion>)
    requires t.Reference? && Describes(s, c, [t]) && IsSet(flags, mask)
    requires ip + 2 <= |seg| && seg[ip..ip + 2] == TokenBytes(t)
    requires c + t.len <= rawLen
    requires Decoding.Expand(seg, ip + 2, s[..c + t.len], rawLen, flags, mask, warned) == R
    ensures ExpandToken(seg, ip, s[..c], rawLen, flags, mask, warned) == R
  {
    var b := TokenBytes(t);
    assert seg[ip] == b[0] && seg[ip + 1] == b[1];
    ReferenceFields(t);
    ReferenceCopy(s, c, t);
    ReferenceStep(seg, ip, s[..c], rawLen, flags, mask, warned, t.len, t.dist, R);
  }

  /** A back-reference's two bytes give back its length and distance. */
  lemma ReferenceFields(t: Token)
    requires t.Reference?
    ensures var b := TokenBytes(t);
      RefLength(b[0], b[1]) == t.len && RefDistance(b[0], b[1]) == t.dist
  {
  }

  /** A literal under the flag bit: the loop goes on after one more byte. */
  lemma LiteralStep(seg: seq<Byte>, ip: nat, out: seq<Byte>, rawLen: nat, flags: Byte, mask: nat, warned: bool,
                    R: Result<Expansion>)
    requires ip < |seg| && |out| < rawLen && !IsSet(flags, mask)
    requires Decoding.Expand(seg, ip + 1, out + [seg[ip]], rawLen, flags, mask, warned) == R
    ensures ExpandToken(seg, ip, out, rawLen, flags, mask, warned) == R
  {
  }

  /** A back-reference that fits under the flag bit: the loop goes on after
      its copy, with no warning. */
  lemma ReferenceStep(seg: seq<Byte>, ip: nat, out: seq<Byte>, rawLen: nat, flags: Byte, mask: nat, warned: bool,
                      len: nat, dist: nat, R: Result<Expansion>)
    requires ip + 1 < |seg| && |out| < rawLen && IsSet(flags, mask)
    requires len == RefLength(seg[ip], seg[ip + 1]) && dist == RefDistance(seg[ip], seg[ip + 1])
    requires 1 <= dist <= |out| && |out| + len <= rawLen
    requires Decoding.Expand(seg, ip + 2, CopyBack(out, dist, len), rawLen, flags, mask, warned) == R
    ensures ExpandToken(seg, ip, out, rawLen, flags, mask, warned) == R
  {
  }

  /** Tokens that describe s from c describe P + s from |P| + c. */
  lemma {:induction false} DescribesShift(P: seq<Byte>, s: seq<Byte>, c: nat, V: seq<Token>)
    requires Describes(s, c, V)
    ensures Describes(P + s, |P| + c, V)
    decreases |V|
  {
    if V != [] {
      if V[0].Reference? {
        RepeatsShift(P, s, c, V[0].dist, V[0].len);
      }
      DescribesShift(P, s, c + Span(V[0]), V[1..]);
      assert (P + s)[|P| + c] == s[c];
    }
  }

  lemma {:induction false} RepeatsShift(P: seq<Byte>, s: seq<Byte>, c: nat, d: nat, l: nat)
    requires d <= c && c + l <= |s| && Repeats(s, c, d, l)
    ensures Repeats(P + s, |P| + c, d, l)
    decreases l
  {
    if l > 0 {
      RepeatsShift(P, s, c, d, l - 1);
    }
  }

  /** Decode, once the trailer and the main loop are known. */
  lemma DecodeOf(pak: seq<Byte>, t: Trailer, x: Expansion)
    requires ParseTrailer(pak) == Ok(t)
    requires Decoding.Expand(Segment(pak, t), 0, pak[..t.decLen], t.rawLen, 0, 0, false) == Ok(x)
    ensures |x.out| <= t.rawLen
    ensures Decoding.Decode(pak)
            == Ok(Decoded(InvertedRange(x.out + Zeros(t.rawLen - |x.out|), t.decLen, t.rawLen - t.decLen)[..|x.out|], x.warned))
  {
  }

  /** A little-endian load of a full little-endian store. */
  lemma ReadLE32OfWord(x: nat, q: seq<Byte>, i: nat)
    requires x < WORD && i + 4 <= |q| && q[i..i + 4] == LE32(x)
    ensures ReadLE32(q, i) == x
  {
    var q1 := x / 0x100;
    var q2 := q1 / 0x100;
    var q3 := q2 / 0x100;
    assert x == q3 * 0x100_0000 + (q2 % 0x100 * 0x1_0000 + q1 % 0x100 * 0x100 + x % 0x100);
    DivUnique(x, 0x100_0000, q3, q2 % 0x100 * 0x1_0000 + q1 % 0x100 * 0x100 + x % 0x100);
    assert LE32(x) == LE32(x)[..3] + [q3];
    ReadLE32OfLE32(x, q, q3, i);
  }

  /** Any buffer whose last word is zero decodes to everything before that
      word. */
  lemma ZeroWordDecodes(out: seq<Byte>)
    requires |out| >= 4 && ReadLE32(out, |out| - 4) == 0
    ensures Decoding.Decode(out) == Ok(Decoded(out[..|out| - 4], false))
  {
    var m := |out| - 4;
    var t := Trailer(m, 0, m);
    assert ParseTrailer(out) == Ok(t);
    assert Segment(out, t) == [];
    var x := out[..m];
    assert Decoding.Expand([], 0, x, m, 0, 0, false) == Ok(Expansion(x, false));
    DecodeOf(out, t, Expansion(x, false));
    assert x + Zeros(m - |x|) == x;
    assert InvertedRange(x, m, 0)[..|x|] == x;
  }

  /** Decoding the stored layout gives the input followed by its zero padding. */
  lemma StoredDecodes(raw: seq<Byte>)
    ensures Decoding.Decode(StoredLayout(raw)) == Ok(Decoded(raw + Zeros(RoundUp4(|raw|) - |raw|), false))
  {
    var out := StoredLayout(raw);
    assert out[|out| - 4..] == LE32(0);
    ReadLE32OfWord(0, out, |out| - 4);
    ZeroWordDecodes(out);
    assert out[..|out| - 4] == raw + Zeros(RoundUp4(|raw|) - |raw|);
  }

  /** The headered trailer reads back as the layout of prefix and seg for an
      output of n bytes, when the trailer is not zero (the output is not
      exactly n bytes long) and its fields fit. */
  lemma HeaderedParses(prefix: seq<Byte>, seg: seq<Byte>, n: nat)
    requires 0 < |seg| && |prefix| <= n <= ROUND_TRIP_MAXIM
    requires var m := RoundUp4(|prefix| + |seg|) + 8; m <= n + 4 && m != n
    ensures var out := HeaderedLayout(prefix, seg, n);
      && ParseTrailer(out) == Ok(Trailer(|prefix|, |seg|, n))
      && out[..|prefix|] == prefix && out[|prefix|..|prefix| + |seg|] == seg
  {
    HeaderedFields(prefix, seg, n);
    var body := |prefix| + |seg|;
    HeaderedTrailer(HeaderedLayout(prefix, seg, n), |prefix|, |seg|, n, 8 + (RoundUp4(body) - body));
  }

  /** Where the parts of the headered layout lie, and what the trailer loads
      read. */
  lemma HeaderedFields(prefix: seq<Byte>, seg: seq<Byte>, n: nat)
    ensures var out := HeaderedLayout(prefix, seg, n);
      var body := |prefix| + |seg|;
      var hdr := 8 + (RoundUp4(body) - body);
      var m := |out|;
      && m == body + hdr
      && out[..|prefix|] == prefix && out[|prefix|..|prefix| + |seg|] == seg
      && ReadLE32(out, m - 4) == (n - |seg| - |prefix| - hdr) % WORD
      && out[m - 5] == hdr && ReadLE32(out, m - 8) % LOW24 == (|seg| + hdr) % WORD % LOW24
  {
    HeaderedBody(prefix, seg, n);
    HeaderedLoads(prefix, seg, n);
  }

  /** The prefix and the segment at the front of the headered layout. */
  lemma HeaderedBody(prefix: seq<Byte>, seg: seq<Byte>, n: nat)
    ensures var out := HeaderedLayout(prefix, seg, n);
      var body := |prefix| + |seg|;
      && |out| == body + 8 + (RoundUp4(body) - body)
      && out[..|prefix|] == prefix && out[|prefix|..|prefix| + |seg|] == seg
  {
    var body := |prefix| + |seg|;
    var pad := RoundUp4(body) - body;
    var hdr := 8 + pad;
    var fields := LE32((|seg| + hdr) % WORD)[..3] + [hdr];
    var last := LE32((n - |seg| - |prefix| - hdr) % WORD);
    var out := HeaderedLayout(prefix, seg, n);
    var front := prefix + seg + Ones(pad);
    assert out == front + (fields + last);
    assert out[..|prefix|] == front[..|prefix|];
    assert out[|prefix|..|prefix| + |seg|] == front[|prefix|..|prefix| + |seg|];
  }

  /** What the two trailer loads of the headered layout read. */
  lemma HeaderedLoads(prefix: seq<Byte>, seg: seq<Byte>, n: nat)
    ensures var out := HeaderedLayout(prefix, seg, n);
      var body := |prefix| + |seg|;
      var hdr := 8 + (RoundUp4(body) - body);
      var m := |out|;
      && m == body + hdr
      && ReadLE32(out, m - 4) == (n - |seg| - |prefix| - hdr) % WORD
      && out[m - 5] == hdr && ReadLE32(out, m - 8) % LOW24 == (|seg| + hdr) % WORD % LOW24
  {
    var body := |prefix| + |seg|;
    var pad := RoundUp4(body) - body;
    var hdr := 8 + pad;
    var fields := LE32((|seg| + hdr) % WORD)[..3] + [hdr];
    var inc := (n - |seg| - |prefix| - hdr) % WORD;
    var last := LE32(inc);
    var out := HeaderedLayout(prefix, seg, n);
    var front := prefix + seg + Ones(pad);
    var m := |out|;
    assert out == front + fields + last;
    assert out[m - 4..m] == last;
    ReadLE32OfWord(inc, out, m - 4);
    assert out[m - 8..m - 4] == fields;
    ReadLE32OfLE32((|seg| + hdr) % WORD, out, hdr, m - 8);
  }

  /** A trailer with those loads and lengths parses to the prefix length, the
      segment length and n. */
  lemma HeaderedTrailer(out: seq<Byte>, p: nat, q: nat, n: nat, hdr: nat)
    requires 0 < q && p <= n <= ROUND_TRIP_MAXIM && 8 <= hdr <= 0x0B
    requires |out| == p + q + hdr && |out| <= n + 4 && |out| != n
    requires ReadLE32(out, |out| - 4) == (n - q - p - hdr) % WORD
    requires out[|out| - 5] == hdr && ReadLE32(out, |out| - 8) % LOW24 == (q + hdr) % WORD % LOW24
    ensures ParseTrailer(out) == Ok(Trailer(p, q, n))
  {
    var m := |out|;
    var enc := q + hdr;
    var inc := (n - q - p - hdr) % WORD;
    TrailerIncrement(n, m, hdr, q + p);
    DivUnique(enc, WORD, 0, enc);
    DivUnique(enc, LOW24, 0, enc);
    TrailerTotal(n, m, inc);
    ParseHeadered(out, p, enc, hdr, inc, n);
  }

  /** The trailer checks of BLZ_Decode all pass on a headered trailer whose
      fields are consistent. */
  lemma ParseHeadered(pak: seq<Byte>, dec: nat, enc: nat, hdr: nat, inc: nat, raw: nat)
    requires |pak| >= 8 && ReadLE32(pak, |pak| - 4) == inc != 0
    requires pak[|pak| - 5] == hdr && 8 <= hdr <= 0x0B && hdr < |pak|
    requires ReadLE32(pak, |pak| - 8) % LOW24 == enc && hdr <= enc <= |pak| && dec + enc == |pak|
    requires (dec + enc + inc) % WORD == raw && dec <= raw <= RAW_MAXIM
    ensures ParseTrailer(pak) == Ok(Trailer(dec, enc - hdr, raw))
  {
    DivUnique(dec, WORD, 0, dec);
  }

  /** The last trailer word is nonzero when the output is not exactly n bytes
      long. */
  lemma TrailerIncrement(n: nat, m: nat, hdr: nat, body: nat)
    requires m == body + hdr && m <= n + 4 && m != n && n < WORD
    ensures (n - body - hdr) % WORD == if n >= m then n - m else WORD + n - m
    ensures (n - body - hdr) % WORD != 0
  {
    assert n - body - hdr == n - m;
    if n >= m {
      DivUnique(n - m, WORD, 0, n - m);
    } else {
      DivUnique(n - m, WORD, -1, WORD + n - m);
    }
  }

  /** `dec_len + enc_len + inc_len` wraps around to n. */
  lemma TrailerTotal(n: nat, m: nat, inc: nat)
    requires m <= n + 4 && n < WORD - 4 && inc == if n >= m then n - m else WORD + n - m
    ensures (m + inc) % WORD == n
  {
    if n >= m {
      DivUnique(m + inc, WORD, 0, n);
    } else {
      DivUnique(m + inc, WORD, 1, n);
    }
  }

  /** The decoder's main loop on a headered output: from the copied prefix
      raw[..rt], the stream of the first k tokens of T, which describe the
      reversed input, expands to the prefix followed by what those tokens
      stand for. */
  lemma KeptExpands(raw: seq<Byte>, T: seq<Token>, k: nat, stream: seq<Byte>, pt: nat, rt: nat)
    requires Describes(Reversed(raw), 0, T) && k <= |T| && rt + Consumed(T[..k]) == |raw|
    requires stream == Pack(T) && pt == |Pack(T[..k])|
    ensures pt <= |stream|
    ensures Decoding.Expand(stream[..pt], 0, raw[..rt], |raw|, 0, 0, false)
            == Ok(Expansion(raw[..rt] + Reversed(raw)[..|raw| - rt], false))
  {
    var s := raw[..rt] + Reversed(raw);
    KeptDescribes(raw, T, k, rt);
    KeptEncodes(T, k, stream, pt);
    ExpandReproduces(s, rt, T[..k], stream[..pt], 0, 0, 0, false, |raw|);
    assert s[..rt] == raw[..rt];
    assert s[..|raw|] == raw[..rt] + Reversed(raw)[..|raw| - rt];
  }

  /** The kept tokens describe the reversed input behind the prefix. */
  lemma KeptDescribes(raw: seq<Byte>, T: seq<Token>, k: nat, rt: nat)
    requires Describes(Reversed(raw), 0, T) && k <= |T| && rt + Consumed(T[..k]) == |raw|
    ensures Describes(raw[..rt] + Reversed(raw), rt, T[..k])
  {
    DescribesPrefix(Reversed(raw), 0, T, k);
    DescribesShift(raw[..rt], Reversed(raw), 0, T[..k]);
  }

  /** The kept stream encodes the kept tokens. */
  lemma KeptEncodes(T: seq<Token>, k: nat, stream: seq<Byte>, pt: nat)
    requires k <= |T| && stream == Pack(T) && pt == |Pack(T[..k])|
    ensures pt <= |stream| && Encodes(stream[..pt][0..], 0, 0, T[..k])
  {
    PackPrefixEncodes(T, k, 0);
    assert stream[..pt][0..] == stream[..pt];
  }

  /** Decoding the headered layout of raw[..rt] and a stream whose first pt
      bytes expand, behind raw[..rt], to raw[..rt] followed by the rest of raw
      reversed, gives raw back. */
  lemma HeaderedDecodes(raw: seq<Byte>, stream: seq<Byte>, pt: nat, rt: nat)
    requires pt <= |stream| && rt <= |raw| <= ROUND_TRIP_MAXIM && !StoredChosen(|raw|, pt, rt)
    requires Decoding.Expand(stream[..pt], 0, raw[..rt], |raw|, 0, 0, false)
             == Ok(Expansion(raw[..rt] + Reversed(raw)[..|raw| - rt], false))
    ensures Decoding.Decode(HeaderedLayout(raw[..rt], Reversed(stream)[|stream| - pt..], |raw|))
            == Ok(Decoded(raw, false))
  {
    HeaderedLayoutParses(raw, stream, pt, rt);
    FinalInversion(raw, rt);
    var out := HeaderedLayout(raw[..rt], Reversed(stream)[|stream| - pt..], |raw|);
    DecodeOf(out, Trailer(rt, pt, |raw|), Expansion(raw[..rt] + Reversed(raw)[..|raw| - rt], false));
  }

  /** The headered layout's trailer, segment and prefix as the decoder reads
      them. */
  lemma HeaderedLayoutParses(raw: seq<Byte>, stream: seq<Byte>, pt: nat, rt: nat)
    requires pt <= |stream| && rt <= |raw| <= ROUND_TRIP_MAXIM && !StoredChosen(|raw|, pt, rt)
    ensures var out := HeaderedLayout(raw[..rt], Reversed(stream)[|stream| - pt..], |raw|);
      var t := Trailer(rt, pt, |raw|);
      && ParseTrailer(out) == Ok(t)
      && Segment(out, t) == stream[..pt]
      && out[..rt] == raw[..rt]
  {
    var prefix := raw[..rt];
    var seg := Reversed(stream)[|stream| - pt..];
    ReversedSuffix(stream, pt);
    HeaderedParses(prefix, seg, |raw|);
  }

  /** Inverting the region after the prefix of what the main loop wrote gives
      the input back. */
  lemma FinalInversion(raw: seq<Byte>, rt: nat)
    requires rt <= |raw|
    ensures var out := raw[..rt] + Reversed(raw)[..|raw| - rt];
      InvertedRange(out + Zeros(|raw| - |out|), rt, |raw| - rt)[..|out|] == raw
  {
    var out := raw[..rt] + Reversed(raw)[..|raw| - rt];
    ReversedPrefix(raw, |raw| - rt);
    assert out + Zeros(0) == out;
    assert out[..rt] == raw[..rt] && out[rt..rt + (|raw| - rt)] == Reversed(raw)[..|raw| - rt];
    assert InvertedRange(out, rt, |raw| - rt) == raw[..rt] + raw[rt..] + [];
    assert raw[..rt] + raw[rt..] == raw;
  }

  /** Decoding the headered layout that keeps the stream of the first k of
      the tokens T, which describe the reversed input, gives the input back. */
  lemma KeptRoundTrip(raw: seq<Byte>, T: seq<Token>, k: nat, stream: seq<Byte>, pt: nat, rt: nat)
    requires Kept(raw, T, k, stream, pt, rt)
    requires |raw| <= ROUND_TRIP_MAXIM && !StoredChosen(|raw|, pt, rt)
    ensures rt <= |raw|
    ensures Decoding.Decode(HeaderedLayout(raw[..rt], Reversed(stream)[|stream| - pt..], |raw|))
            == Ok(Decoded(raw, false))
  {
    KeptExpands(raw, T, k, stream, pt, rt);
    HeaderedDecodes(raw, stream, pt, rt);
  }

  /** The encoder's plan keeps the stream of its split point. */
  lemma PlanKept(raw: seq<Byte>, best: bool, P: Plan)
    requires P == MakePlan(raw, best)
    ensures Kept(raw, P.tokens, SplitPoint(|raw|, P.tokens), P.stream, P.pakTmp, P.rawTmp)
  {
    TokenizeDescribes(Reversed(raw), best, 0);
    ConsumedPrefix(P.tokens, SplitPoint(|raw|, P.tokens));
  }

  /** Decoding the headered layout of the encoder's plan gives the input back. */
  lemma PlanRoundTrip(raw: seq<Byte>, best: bool, P: Plan)
    requires P == MakePlan(raw, best)
    requires |raw| <= ROUND_TRIP_MAXIM && !StoredChosen(|raw|, P.pakTmp, P.rawTmp)
    ensures P.pakTmp <= |P.stream| && P.rawTmp <= |raw|
    ensures Decoding.Decode(Layout(raw, P.stream, P.pakTmp, P.rawTmp)) == Ok(Decoded(raw, false))
  {
    PlanKept(raw, best, P);
    KeptLayout(raw, P.tokens, SplitPoint(|raw|, P.tokens), P.stream, P.pakTmp, P.rawTmp);
  }

  /** The same for the output chosen by Layout. */
  lemma KeptLayout(raw: seq<Byte>, T: seq<Token>, k: nat, stream: seq<Byte>, pt: nat, rt: nat)
    requires Kept(raw, T, k, stream, pt, rt)
    requires |raw| <= ROUND_TRIP_MAXIM && !StoredChosen(|raw|, pt, rt)
    ensures pt <= |stream| && rt <= |raw|
    ensures Decoding.Decode(Layout(raw, stream, pt, rt)) == Ok(Decoded(raw, false))
  {
    var out := HeaderedLayout(raw[..rt], Reversed(stream)[|stream| - pt..], |raw|);
    assert Layout(raw, stream, pt, rt) == out;
    KeptRoundTrip(raw, T, k, stream, pt, rt);
  }

  /** Decoding a headered output gives the input back, with no warning. */
  lemma HeaderedRoundTrip(raw: seq<Byte>, best: bool)
    requires |raw| <= ROUND_TRIP_MAXIM
    requires var P := MakePlan(raw, best); !StoredChosen(|raw|, P.pakTmp, P.rawTmp)
    ensures Decoding.Decode(CodeOutput(raw, best)) == Ok(Decoded(raw, false))
  {
    PlanRoundTrip(raw, best, MakePlan(raw, best));
  }

  /** BLZ_Decode undoes BLZ_Code: a headered output decodes to the input, and
      a stored one to the input followed by the zero bytes that pad it to a
      multiple of four; neither prints the length warning. */
  lemma RoundTrip(raw: seq<Byte>, best: bool)
    requires |raw| <= ROUND_TRIP_MAXIM
    ensures var P := MakePlan(raw, best);
      var pad := if StoredChosen(|raw|, P.pakTmp, P.rawTmp) then Zeros(RoundUp4(|raw|) - |raw|) else [];
      Decoding.Decode(CodeOutput(raw, best)) == Ok(Decoded(raw + pad, false))
  {
    var P := MakePlan(raw, best);
    if StoredChosen(|raw|, P.pakTmp, P.rawTmp) {
      StoredRoundTrip(raw, best);
    } else {
      HeaderedRoundTrip(raw, best);
      assert raw + [] == raw;
    }
  }

  /** Decoding a stored output gives the input and its zero padding. */
  lemma StoredRoundTrip(raw: seq<Byte>, best: bool)
    requires var P := MakePlan(raw, best); StoredChosen(|raw|, P.pakTmp, P.rawTmp)
    ensures Decoding.Decode(CodeOutput(raw, best)) == Ok(Decoded(raw + Zeros(RoundUp4(|raw|) - |raw|), false))
  {
    assert CodeOutput(raw, best) == StoredLayout(raw);
    StoredDecodes(raw);
  }

  /** BLZ_Code as written gives the corrected output on every input except
      those on which its output is exactly as long as the input. */
  lemma CodeAgrees(raw: seq<Byte>, best: bool)
    ensures |CodeOutputAsWritten(raw, best)| != |raw| ==> CodeOutputAsWritten(raw, best) == CodeOutput(raw, best)
    ensures var P := MakePlan(raw, best);
      |CodeOutputAsWritten(raw, best)| == |raw| <==> !StoredChosenAsWritten(|raw|, P.pakTmp, P.rawTmp) && StoredChosen(|raw|, P.pakTmp, P.rawTmp)
  {
    var P := MakePlan(raw, best);
    LayoutLengthAsWritten(raw, P.stream, P.pakTmp, P.rawTmp);
  }

  /** The round trip for BLZ_Code as written, and so for Encoder.Code: on every
      input whose output is not exactly as long as the input, decoding gives
      back the input, followed by its zero padding when stored. */
  lemma RoundTripAsWritten(raw: seq<Byte>, best: bool)
    requires |raw| <= ROUND_TRIP_MAXIM
    ensures var out := CodeOutputAsWritten(raw, best);
      var pad := if |out| == RoundUp4(|raw|) + 4 then Zeros(RoundUp4(|raw|) - |raw|) else [];
      |out| != |raw| ==> Decoding.Decode(out) == Ok(Decoded(raw + pad, false))
  {
    var P := MakePlan(raw, best);
    CodeAgrees(raw, best);
    RoundTrip(raw, best);
    LayoutLength(raw, P.stream, P.pakTmp, P.rawTmp);
  }

  /** Where the layout test as written and the corrected one disagree, BLZ_Code
      writes a headered output exactly as long as the input; its last word
      `inc_len - hdr_len` is then zero, so the decoder takes it for a stored
      output and returns its first |raw| - 4 bytes, which is not the input. */
  lemma CollisionAsWritten(raw: seq<Byte>, best: bool)
    requires var P := MakePlan(raw, best);
      !StoredChosenAsWritten(|raw|, P.pakTmp, P.rawTmp) && StoredChosen(|raw|, P.pakTmp, P.rawTmp)
    ensures var out := CodeOutputAsWritten(raw, best);
      && |out| == |raw|
      && Decoding.Decode(out) == Ok(Decoded(out[..|raw| - 4], false))
  {
    var P := MakePlan(raw, best);
    LayoutCollision(raw, P.stream, P.pakTmp, P.rawTmp);
  }

  /** The same, for any stream and kept lengths. */
  lemma LayoutCollision(raw: seq<Byte>, stream: seq<Byte>, pt: nat, rt: nat)
    requires pt <= |stream| && rt <= |raw|
    requires !StoredChosenAsWritten(|raw|, pt, rt) && StoredChosen(|raw|, pt, rt)
    ensures var out := LayoutAsWritten(raw, stream, pt, rt);
      && |out| == |raw|
      && Decoding.Decode(out) == Ok(Decoded(out[..|raw| - 4], false))
  {
    var prefix := raw[..rt];
    var seg := Reversed(stream)[|stream| - pt..];
    HeaderedZeroWord(prefix, seg, |raw|);
    ZeroWordDecodes(HeaderedLayout(prefix, seg, |raw|));
  }

  /** A headered layout exactly n bytes long ends in a zero word. */
  lemma HeaderedZeroWord(prefix: seq<Byte>, seg: seq<Byte>, n: nat)
    requires RoundUp4(|prefix| + |seg|) + 8 == n
    ensures var out := HeaderedLayout(prefix, seg, n);
      |out| == n && ReadLE32(out, n - 4) == 0
  {
    HeaderedFields(prefix, seg, n);
    var body := |prefix| + |seg|;
    var hdr := 8 + (RoundUp4(body) - body);
    DivUnique(n - |seg| - |prefix| - hdr, WORD, 0, 0);
  }
}
