/** The token stream of Bottom-LZ: literals and back-references, their two-byte
    encoding, the MSB-first flag bytes and the grouping of eight tokens behind
    each flag byte. */
module Tokens {
  import opened Bytes

  /** BLZ_THRESHOLD: a match of this length or less is not worth encoding. */
  const THRESHOLD: nat := 2
  /** BLZ_N: the largest distance, (1 << 12) + 2. */
  const MAX_OFFSET: nat := 0x1002
  /** BLZ_F: the largest match length, (1 << 4) + BLZ_THRESHOLD. */
  const MAX_CODED: nat := 0x12

  type RefLen = x: int | 3 <= x <= 0x12 witness 3
  type RefDist = x: int | 3 <= x <= 0x1002 witness 3

  /** One decision of the encoder: copy a byte, or copy `len` bytes from `dist`
      bytes back. */
  datatype Token = Literal(b: Byte) | Reference(len: RefLen, dist: RefDist)

  /** The number of raw bytes a token stands for. */
  function Span(t: Token): nat
  {
    if t.Literal? then 1 else t.len
  }

  /** The token's bit in its flag byte. */
  function FlagBit(t: Token): nat
  {
    if t.Reference? then 1 else 0
  }

  /** The bytes a token is written as. A back-reference is
      `((len - 3) << 4) | ((dist - 3) >> 8)` followed by `(dist - 3) & 0xFF`; the two
      fields of the first byte occupy disjoint bits, so `|` is `+`. Read back as a
      big-endian 16-bit value v, `(v >> 12) + 3` is the length and `(v & 0xFFF) + 3`
      the distance. */
  function TokenBytes(t: Token): (r: seq<Byte>)
    ensures |r| == (if t.Literal? then 1 else 2)
    ensures t.Literal? ==> r[0] == t.b
    ensures t.Reference? ==>
      var v := (r[0] as int) * 0x100 + (r[1] as int);
      v / 0x1000 + 3 == t.len && v % 0x1000 + 3 == t.dist
  {
    match t
    case Literal(b) => [b]
    case Reference(l, d) =>
      var hi, lo := (d - 3) / 0x100, (d - 3) % 0x100;
      var v := ((l - 3) * 0x10 + hi) * 0x100 + lo;
      assert v == (l - 3) * 0x1000 + (d - 3);
      DivUnique(v, 0x1000, l - 3, d - 3);
      [(l - 3) * 0x10 + hi, lo]
  }

  /** The bytes of a run of tokens, without flag bytes. */
  function Payload(T: seq<Token>): seq<Byte>
    decreases |T|
  {
    if T == [] then [] else TokenBytes(T[0]) + Payload(T[1..])
  }

  /** The number of raw bytes a run of tokens stands for (counted from the end,
      the way the encoder accumulates it). */
  function Consumed(T: seq<Token>): nat
    decreases |T|
  {
    if T == [] then 0 else Consumed(T[..|T| - 1]) + Span(T[|T| - 1])
  }

  /** The flag bits of a group as the encoder accumulates them, each new token
      shifting the previous ones left: the first token ends up most significant. */
  function FlagBits(G: seq<Token>): (r: nat)
    ensures r < Pow2(|G|)
    decreases |G|
  {
    if G == [] then 0 else 2 * FlagBits(G[..|G| - 1]) + FlagBit(G[|G| - 1])
  }

  /** A complete flag byte: the group's bits shifted up to a total of eight shifts,
      so that the first token of the group sits in bit 7. */
  function FlagByte(G: seq<Token>): (r: Byte)
    requires |G| <= 8
  {
    ShlBound(FlagBits(G), |G|, 8 - |G|);
    Pow2Byte();
    Shl(FlagBits(G), 8 - |G|)
  }

  /** The token stream: each group of up to eight tokens preceded by its flag byte. */
  function Pack(T: seq<Token>): seq<Byte>
    decreases |T|
  {
    if |T| <= 8 then (if T == [] then [] else [FlagByte(T)] + Payload(T))
    else [FlagByte(T[..8])] + Payload(T[..8]) + Pack(T[8..])
  }

  lemma PayloadCons(x: Token, T: seq<Token>)
    ensures Payload([x] + T) == TokenBytes(x) + Payload(T)
  {
    assert ([x] + T)[0] == x && ([x] + T)[1..] == T;
  }

  lemma {:induction false} PayloadAppend(A: seq<Token>, B: seq<Token>)
    ensures Payload(A + B) == Payload(A) + Payload(B)
    decreases |A|
  {
    if A != [] {
      assert (A + B)[1..] == A[1..] + B;
      PayloadAppend(A[1..], B);
    } else {
      assert A + B == B;
    }
  }

  lemma {:induction false} ConsumedAppend(A: seq<Token>, B: seq<Token>)
    ensures Consumed(A + B) == Consumed(A) + Consumed(B)
    decreases |B|
  {
    if B == [] {
      assert A + B == A;
    } else {
      assert (A + B)[..|A + B| - 1] == A + B[..|B| - 1];
      ConsumedAppend(A, B[..|B| - 1]);
    }
  }

  lemma ConsumedCons(T: seq<Token>)
    requires T != []
    ensures Consumed(T) == Span(T[0]) + Consumed(T[1..])
  {
    ConsumedAppend([T[0]], T[1..]);
    assert [T[0]] + T[1..] == T;
    assert [T[0]][..0] == [];
  }

  /** Every token stands for at least one byte and is written in at most as many
      bytes as it stands for. */
  lemma {:induction false} PayloadBound(T: seq<Token>)
    ensures |T| <= Consumed(T)
    ensures |Payload(T)| <= Consumed(T)
    decreases |T|
  {
    if T != [] {
      PayloadBound(T[1..]);
      ConsumedCons(T);
    }
  }

  /** A prefix never stands for more bytes than the whole run. */
  lemma ConsumedPrefix(T: seq<Token>, k: nat)
    requires k <= |T|
    ensures Consumed(T[..k]) <= Consumed(T)
  {
    ConsumedAppend(T[..k], T[k..]);
    assert T[..k] + T[k..] == T;
  }

  /** One flag byte per started group of eight, plus the token bytes. */
  lemma {:induction false} PackLength(T: seq<Token>)
    ensures |Pack(T)| == (|T| + 7) / 8 + |Payload(T)|
    decreases |T|
  {
    if |T| > 8 {
      PackLength(T[8..]);
      PayloadAppend(T[..8], T[8..]);
      assert T[..8] + T[8..] == T;
    }
  }

  /** The provisional stream is never longer than `raw_len + (raw_len + 7) / 8`,
      which is 11 bytes short of the encoder's scratch buffer. */
  lemma PackBound(T: seq<Token>)
    ensures |Pack(T)| <= Consumed(T) + (Consumed(T) + 7) / 8
  {
    PackLength(T);
    PayloadBound(T);
  }

  /** A run of eight tokens or more starts with a whole group. */
  lemma PackFirstGroup(T: seq<Token>)
    requires |T| >= 8
    ensures Pack(T) == [FlagByte(T[..8])] + Payload(T[..8]) + Pack(T[8..])
  {
    if |T| == 8 {
      assert T[..8] == T && T[8..] == [];
    }
  }

  lemma PackAppendPieces(D: seq<Token>, C: seq<Token>)
    requires |D| >= 8 && C != []
    ensures Pack(D + C) == [FlagByte(D[..8])] + Payload(D[..8]) + Pack(D[8..] + C)
  {
    var E := D + C;
    assert E[..8] == D[..8];
    assert E[8..] == D[8..] + C;
  }

  /** Closing a group: appending up to eight tokens to whole groups appends one
      flag byte and their bytes. */
  lemma {:induction false} PackAppend(D: seq<Token>, C: seq<Token>)
    requires |D| % 8 == 0 && 1 <= |C| <= 8
    ensures Pack(D + C) == Pack(D) + [FlagByte(C)] + Payload(C)
    decreases |D|
  {
    if D == [] {
      assert D + C == C;
    } else {
      PackAppend(D[8..], C);
      PackAppendStep(D, C);
    }
  }

  lemma PackAppendStep(D: seq<Token>, C: seq<Token>)
    requires |D| >= 8 && 1 <= |C| <= 8
    requires Pack(D[8..] + C) == Pack(D[8..]) + [FlagByte(C)] + Payload(C)
    ensures Pack(D + C) == Pack(D) + [FlagByte(C)] + Payload(C)
  {
    PackAppendPieces(D, C);
    PackFirstGroup(D);
    Regroup([FlagByte(D[..8])] + Payload(D[..8]), Pack(D[8..]), [FlagByte(C)], Payload(C));
  }

  lemma Regroup<T>(H: seq<T>, X: seq<T>, a: seq<T>, P: seq<T>)
    ensures H + (X + a + P) == H + X + a + P
  {
  }

  /** Bit |G| - 1 - t of the accumulated flag bits is the kind of token t. */
  lemma {:induction false} FlagBitsBit(G: seq<Token>, t: nat)
    requires t < |G|
    ensures IsSet(FlagBits(G), Pow2(|G| - 1 - t)) == G[t].Reference?
    decreases |G|
  {
    var H := G[..|G| - 1];
    if t < |G| - 1 {
      FlagBitsBit(H, t);
      assert H[t] == G[t];
      assert FlagBits(G) / 2 == FlagBits(H);
      assert Pow2(|G| - 1 - t) / 2 == Pow2(|H| - 1 - t);
    }
  }

  /** The decoder's test of the flag byte under mask `0x80 >> t` gives back the
      kind of the group's token t. */
  lemma FlagByteBits(G: seq<Token>, t: nat)
    requires |G| <= 8 && t < |G|
    ensures IsSet(FlagByte(G), Pow2(7 - t)) == G[t].Reference?
  {
    FlagBitsBit(G, t);
    IsSetShl(FlagBits(G), |G| - 1 - t, 8 - |G|);
    assert |G| - 1 - t + (8 - |G|) == 7 - t;
  }

  /** `Describes(s, c, U)`: the tokens U, decoded after the bytes s[..c], produce
      exactly the bytes of s that follow, and every back-reference stays inside
      what was produced from s. */
  predicate Describes(s: seq<Byte>, c: nat, U: seq<Token>)
    decreases |U|
  {
    if U == [] then c <= |s|
    else
      && c + Span(U[0]) <= |s|
      && (match U[0]
          case Literal(b) => s[c] == b
          case Reference(l, d) => d <= c && Repeats(s, c, d, l))
      && Describes(s, c + Span(U[0]), U[1..])
  }

  /** A token that describes the bytes at c, followed by a run describing what
      comes after it. */
  lemma DescribesCons(s: seq<Byte>, c: nat, t: Token, rest: seq<Token>)
    requires Describes(s, c, [t]) && Describes(s, c + Span(t), rest)
    ensures Describes(s, c, [t] + rest)
    ensures Consumed([t] + rest) == Span(t) + Consumed(rest)
  {
    assert ([t] + rest)[0] == t;
    assert ([t] + rest)[1..] == rest;
    ConsumedCons([t] + rest);
  }

  lemma {:induction false} DescribesPrefix(s: seq<Byte>, c: nat, U: seq<Token>, k: nat)
    requires Describes(s, c, U) && k <= |U|
    ensures Describes(s, c, U[..k])
    ensures c + Consumed(U) <= |s|
    decreases |U|
  {
    if U == [] {
      assert U[..k] == [];
    } else {
      ConsumedCons(U);
      var c' := c + Span(U[0]);
      if k > 0 {
        var V := U[..k];
        assert V[0] == U[0];
        assert V[1..] == U[1..][..k - 1];
        DescribesPrefix(s, c', U[1..], k - 1);
        assert Describes(s, c', V[1..]);
      } else {
        DescribesPrefix(s, c', U[1..], 0);
        assert U[..k] == [];
      }
    }
  }

  /** `Encodes(rest, mask, flags, U)`: a decoder whose last mask was `mask`, holding
      the flag byte `flags`, reads the tokens U from the front of `rest`. A mask
      that shifts to zero means the next byte is a fresh flag byte, the first of
      whose tokens sits under the mask 0x80. */
  predicate Encodes(rest: seq<Byte>, mask: nat, flags: Byte, U: seq<Token>)
    decreases |U|, if mask / 2 == 0 then 1 else 0
  {
    if U == [] then true
    else if mask / 2 == 0 then |rest| > 0 && Encodes(rest[1..], 0x100, rest[0], U)
    else
      var b := TokenBytes(U[0]);
      && IsSet(flags, mask / 2) == U[0].Reference?
      && |b| <= |rest| && rest[..|b|] == b
      && Encodes(rest[|b|..], mask / 2, flags, U[1..])
  }

  /** Reading one more token under the next mask bit. */
  lemma EncodesStep(rest: seq<Byte>, mask: nat, flags: Byte, x: Token, rest': seq<Byte>, U: seq<Token>)
    requires mask / 2 > 0 && IsSet(flags, mask / 2) == x.Reference?
    requires rest == TokenBytes(x) + rest'
    requires Encodes(rest', mask / 2, flags, U)
    ensures Encodes(rest, mask, flags, [x] + U)
  {
    assert ([x] + U)[0] == x && ([x] + U)[1..] == U;
    assert rest[..|TokenBytes(x)|] == TokenBytes(x);
    assert rest[|TokenBytes(x)|..] == rest';
  }

  /** After the eighth token the mask is 1, which shifts to zero just as 0 does. */
  lemma EncodesGroupEnd(R: seq<Byte>, flags: Byte, flags': Byte, V: seq<Token>)
    requires Encodes(R, 0, flags, V)
    ensures Encodes(R, 1, flags', V)
  {
  }

  /** The flag byte F holds the kinds of the tokens of G, first token in bit 7. */
  predicate FlagsOf(F: Byte, G: seq<Token>)
    requires |G| <= 8
  {
    forall u :: 0 <= u < |G| ==> IsSet(F, Pow2(7 - u)) == G[u].Reference?
  }

  /** The tokens of a group, from token t on, followed by what R encodes. */
  lemma {:induction false} GroupTailEncodes(F: Byte, G: seq<Token>, t: nat, R: seq<Byte>, V: seq<Token>)
    requires 1 <= |G| <= 8 && t <= |G| && FlagsOf(F, G)
    requires (|G| == 8 && Encodes(R, 0, F, V)) || V == []
    ensures Encodes(Payload(G[t..]) + R, Pow2(8 - t), F, G[t..] + V)
    decreases |G| - t
  {
    if t == |G| {
      assert G[t..] == [] && Payload(G[t..]) + R == R && G[t..] + V == V;
      if V != [] {
        assert Pow2(8 - t) == 1;
        EncodesGroupEnd(R, F, F, V);
      }
    } else {
      GroupTailEncodes(F, G, t + 1, R, V);
      GroupTailStep(F, G, t, R, V);
    }
  }

  lemma GroupTailStep(F: Byte, G: seq<Token>, t: nat, R: seq<Byte>, V: seq<Token>)
    requires 1 <= |G| <= 8 && t < |G| && FlagsOf(F, G)
    requires Encodes(Payload(G[t + 1..]) + R, Pow2(8 - (t + 1)), F, G[t + 1..] + V)
    ensures Encodes(Payload(G[t..]) + R, Pow2(8 - t), F, G[t..] + V)
  {
    GroupTailPieces(G, t, R, V);
    Pow2Half(8 - t);
    EncodesStep(TokenBytes(G[t]) + (Payload(G[t + 1..]) + R), Pow2(8 - t), F, G[t],
      Payload(G[t + 1..]) + R, G[t + 1..] + V);
  }

  lemma GroupTailPieces(G: seq<Token>, t: nat, R: seq<Byte>, V: seq<Token>)
    requires t < |G|
    ensures Payload(G[t..]) + R == TokenBytes(G[t]) + (Payload(G[t + 1..]) + R)
    ensures G[t..] + V == [G[t]] + (G[t + 1..] + V)
  {
    assert G[t..] == [G[t]] + G[t + 1..];
    PayloadCons(G[t], G[t + 1..]);
  }

  /** A flag byte followed by its group's tokens, followed by what R encodes. */
  lemma GroupEncodes(F: Byte, G: seq<Token>, R: seq<Byte>, V: seq<Token>, flags: Byte)
    requires 1 <= |G| <= 8 && FlagsOf(F, G)
    requires (|G| == 8 && Encodes(R, 0, F, V)) || V == []
    ensures Encodes([F] + Payload(G) + R, 0, flags, G + V)
  {
    GroupTailEncodes(F, G, 0, R, V);
    assert G[0..] == G;
    Pow2Byte();
    EncodesFlagByte(F, Payload(G), R, flags, G + V);
  }

  /** A fresh flag byte in front of the tokens it announces. */
  lemma EncodesFlagByte(F: Byte, P: seq<Byte>, R: seq<Byte>, flags: Byte, U: seq<Token>)
    requires U != [] && Encodes(P + R, 0x100, F, U)
    ensures Encodes([F] + P + R, 0, flags, U)
  {
    var rest := [F] + P + R;
    assert rest[0] == F && rest[1..] == P + R;
  }

  lemma FlagByteFlags(G: seq<Token>, k: nat)
    requires k <= |G| <= 8
    ensures FlagsOf(FlagByte(G), G[..k])
  {
    forall u | 0 <= u < k ensures IsSet(FlagByte(G), Pow2(7 - u)) == G[..k][u].Reference? {
      FlagByteBits(G, u);
    }
  }

  /** Headline fact about the stream format: the first |Pack(T[..k])| bytes of the
      packed stream of T encode the first k tokens, even though the last flag byte
      of that prefix may already hold bits of later tokens. */
  lemma {:induction false} PackPrefixEncodes(T: seq<Token>, k: nat, flags: Byte)
    requires k <= |T|
    ensures |Pack(T[..k])| <= |Pack(T)|
    ensures Encodes(Pack(T)[..|Pack(T[..k])|], 0, flags, T[..k])
    decreases |T|
  {
    if k == 0 {
      assert T[..k] == [];
    } else if k <= 8 || |T| <= 8 {
      PackFirstGroupEncodes(T, k, flags);
    } else {
      PackPrefixEncodes(T[8..], k - 8, FlagByte(T[..8]));
      PackLaterGroupEncodes(T, k, flags);
    }
  }

  /** Case of PackPrefixEncodes where the prefix ends inside the first group. */
  lemma PackFirstGroupEncodes(T: seq<Token>, k: nat, flags: Byte)
    requires 1 <= k <= |T| && (k <= 8 || |T| <= 8)
    ensures |Pack(T[..k])| <= |Pack(T)|
    ensures Encodes(Pack(T)[..|Pack(T[..k])|], 0, flags, T[..k])
  {
    var n := if |T| < 8 then |T| else 8;
    PackFirstGroupPrefix(T, k);
    FlagByteFlags(T[..n], k);
    assert T[..n][..k] == T[..k];
    GroupEncodes(FlagByte(T[..n]), T[..k], [], [], flags);
    assert T[..k] + [] == T[..k];
    assert [FlagByte(T[..n])] + Payload(T[..k]) + [] == [FlagByte(T[..n])] + Payload(T[..k]);
  }

  /** The stream of a prefix ending inside the first group is the first group's
      flag byte followed by the prefix's token bytes. */
  lemma PackFirstGroupPrefix(T: seq<Token>, k: nat)
    requires 1 <= k <= |T| && (k <= 8 || |T| <= 8)
    ensures var n := if |T| < 8 then |T| else 8;
      && |Pack(T[..k])| <= |Pack(T)|
      && Pack(T)[..|Pack(T[..k])|] == [FlagByte(T[..n])] + Payload(T[..k])
  {
    var n := if |T| < 8 then |T| else 8;
    var G := T[..n];
    PackHead(T);
    PayloadSplit(G, k);
    assert G[..k] == T[..k];
    Regroup2([FlagByte(G)], Payload(T[..k]), Payload(G[k..]), Pack(T[n..]));
  }

  /** The first group of a nonempty run. */
  lemma PackHead(T: seq<Token>)
    requires T != []
    ensures var n := if |T| < 8 then |T| else 8;
      Pack(T) == [FlagByte(T[..n])] + Payload(T[..n]) + Pack(T[n..])
  {
    if |T| <= 8 {
      var n := if |T| < 8 then |T| else 8;
      assert T[..n] == T && T[n..] == [];
    } else {
      PackFirstGroup(T);
    }
  }

  lemma PayloadSplit(G: seq<Token>, k: nat)
    requires k <= |G|
    ensures Payload(G) == Payload(G[..k]) + Payload(G[k..])
  {
    assert G == G[..k] + G[k..];
    PayloadAppend(G[..k], G[k..]);
  }

  lemma Regroup2<T>(a: seq<T>, b: seq<T>, c: seq<T>, d: seq<T>)
    ensures a + (b + c) + d == (a + b) + (c + d)
    ensures (a + (b + c) + d)[..|a + b|] == a + b
  {
  }

  /** Case of PackPrefixEncodes where the prefix covers the whole first group. */
  lemma PackLaterGroupEncodes(T: seq<Token>, k: nat, flags: Byte)
    requires 8 < k <= |T|
    requires |Pack(T[8..][..k - 8])| <= |Pack(T[8..])|
    requires Encodes(Pack(T[8..])[..|Pack(T[8..][..k - 8])|], 0, FlagByte(T[..8]), T[8..][..k - 8])
    ensures |Pack(T[..k])| <= |Pack(T)|
    ensures Encodes(Pack(T)[..|Pack(T[..k])|], 0, flags, T[..k])
  {
    var G, W := T[..8], T[8..];
    var F := FlagByte(G);
    var R := Pack(W)[..|Pack(W[..k - 8])|];
    TakeAfter(T, 8, k);
    PackLaterPrefix(T, k);
    FlagByteFlags(G, 8);
    assert G[..8] == G;
    GroupEncodes(F, G, R, W[..k - 8], flags);
  }

  /** The stream of a prefix covering the first group: that group, then the
      stream of the rest of the prefix. */
  lemma PackLaterPrefix(T: seq<Token>, k: nat)
    requires 8 < k <= |T|
    requires |Pack(T[8..][..k - 8])| <= |Pack(T[8..])|
    ensures |Pack(T[..k])| <= |Pack(T)|
    ensures Pack(T)[..|Pack(T[..k])|]
      == [FlagByte(T[..8])] + Payload(T[..8]) + Pack(T[8..])[..|Pack(T[8..][..k - 8])|]
  {
    var U := T[..k];
    PackFirstGroup(T);
    PackFirstGroup(U);
    assert U[..8] == T[..8] && U[8..] == T[8..][..k - 8];
    PrefixAppend([FlagByte(T[..8])] + Payload(T[..8]), Pack(T[8..]), |Pack(T[8..][..k - 8])|);
  }

  lemma TakeAfter<T>(S: seq<T>, j: nat, k: nat)
    requires j <= k <= |S|
    ensures S[..j] + S[j..][..k - j] == S[..k]
  {
  }

  lemma PrefixAppend<T>(H: seq<T>, X: seq<T>, m: nat)
    requires m <= |X|
    ensures (H + X)[..|H| + m] == H + X[..m]
  {
  }
}
