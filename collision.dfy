/** An input on which BLZ_Code as written produces an output that BLZ_Decode
    does not give back: twenty zero bytes in normal mode. */
module Collision {
  import opened Bytes
  import opened Tokens
  import opened Search
  import opened Encoding
  import opened Decoding
  import opened RoundTrip

  predicate AllZero(s: seq<Byte>)
  {
    forall i :: 0 <= i < |s| ==> s[i] == 0
  }

  /** In a run of zero bytes every distance repeats. */
  lemma {:induction false} ZerosRepeat(s: seq<Byte>, c: nat, d: nat, l: nat)
    requires AllZero(s) && d <= c && c + l <= |s|
    ensures Repeats(s, c, d, l)
    decreases l
  {
    if l > 0 {
      ZerosRepeat(s, c, d, l - 1);
    }
  }

  /** In a run of zero bytes SEARCH finds the longest length the window, the
      end of the input and BLZ_F allow, at the distance equal to it. */
  lemma ZerosBestMatch(s: seq<Byte>, c: nat, l: nat)
    requires AllZero(s) && c <= |s| && 3 <= l
    requires l <= Window(c) && c + l <= |s| && l <= MAX_CODED
    requires l == Window(c) || c + l == |s| || l == MAX_CODED
    ensures BestMatch(s, c) == (l, l)
  {
    var r := BestMatch(s, c);
    ZerosRepeat(s, c, l, l);
    assert IsMatch(s, c, l, l);
    BestMatchIsLongestFirst(s, c);
    BestMatchIsMatch(s, c);
    assert r.0 == l;
  }

  /** SEARCH finds nothing before the third byte. */
  lemma NoMatchAtStart(s: seq<Byte>, c: nat)
    requires c < 3 && c <= |s|
    ensures BestMatch(s, c).0 == THRESHOLD
  {
  }

  /** The first three tokens are literals. */
  lemma ZerosLiteral(s: seq<Byte>, c: nat)
    requires |s| == 20 && AllZero(s) && c < 3
    ensures NextToken(s, c, false) == Literal(0)
  {
    NoMatchAtStart(s, c);
  }

  /** From the third byte on every token is a back-reference as long as its
      distance. */
  lemma ZerosReference(s: seq<Byte>, c: nat, l: nat)
    requires |s| == 20 && AllZero(s) && 3 <= c && 3 <= l <= MAX_CODED
    requires (l == c && c + l <= 20) || (c + l == 20 && l <= c)
    ensures NextToken(s, c, false) == Reference(l, l)
  {
    ZerosBestMatch(s, c, l);
  }

  /** The tokens the encoder finds in twenty zero bytes in normal mode: three
      literals, then back-references of lengths 3, 6 and 8 at the same
      distances. */
  predicate ZeroTokens(T: seq<Token>)
  {
    && |T| == 6
    && T[0] == Literal(0) && T[1] == Literal(0) && T[2] == Literal(0)
    && T[3] == Reference(3, 3) && T[4] == Reference(6, 6) && T[5] == Reference(8, 8)
  }

  lemma ZerosTail(s: seq<Byte>)
    requires |s| == 20 && AllZero(s)
    ensures Tokenize(s, false, 6) == [Reference(6, 6), Reference(8, 8)]
  {
    ZerosReference(s, 12, 8);
    TokenizeStep(s, false, 12, Reference(8, 8));
    ZerosReference(s, 6, 6);
    TokenizeStep(s, false, 6, Reference(6, 6));
  }

  lemma ZerosThird(s: seq<Byte>, rest: seq<Token>)
    requires |s| == 20 && AllZero(s) && Tokenize(s, false, 6) == rest
    ensures Tokenize(s, false, 3) == [Reference(3, 3)] + rest
  {
    ZerosReference(s, 3, 3);
    TokenizeStep(s, false, 3, Reference(3, 3));
  }

  lemma ZerosMiddle(s: seq<Byte>, rest: seq<Token>)
    requires |s| == 20 && AllZero(s) && Tokenize(s, false, 3) == rest
    ensures Tokenize(s, false, 2) == [Literal(0)] + rest
  {
    ZerosLiteral(s, 2);
    TokenizeStep(s, false, 2, Literal(0));
  }

  lemma ZerosHead(s: seq<Byte>, rest: seq<Token>)
    requires |s| == 20 && AllZero(s) && Tokenize(s, false, 2) == rest
    ensures Tokenize(s, false, 0) == [Literal(0), Literal(0)] + rest
  {
    ZerosLiteral(s, 1);
    TokenizeStep(s, false, 1, Literal(0));
    ZerosLiteral(s, 0);
    TokenizeStep(s, false, 0, Literal(0));
  }

  lemma ZerosTokenize(s: seq<Byte>)
    requires |s| == 20 && AllZero(s)
    ensures ZeroTokens(Tokenize(s, false, 0))
  {
    ZerosTail(s);
    var R := [Reference(6, 6), Reference(8, 8)];
    ZerosThird(s, R);
    ZerosMiddle(s, [Reference(3, 3)] + R);
    ZerosHead(s, [Literal(0)] + ([Reference(3, 3)] + R));
  }

  /** Growing a prefix of the tokens by one. */
  lemma PrefixGrow(T: seq<Token>, k: nat)
    requires k < |T|
    ensures Consumed(T[..k + 1]) == Consumed(T[..k]) + Span(T[k])
    ensures |Payload(T[..k + 1])| == |Payload(T[..k])| + |TokenBytes(T[k])|
  {
    var U := T[..k + 1];
    assert U[..|U| - 1] == T[..k];
    PayloadSplit(U, k);
    assert U[..k] == T[..k];
    assert U[k..] == [T[k]];
    assert Payload([T[k]]) == TokenBytes(T[k]) + Payload([]) by {
      PayloadCons(T[k], []);
      assert [T[k]] + [] == [T[k]];
    }
  }

  /** What each prefix holds: its payload length and the bytes it stands for. */
  lemma ZeroPrefixes(T: seq<Token>)
    requires ZeroTokens(T)
    ensures |Payload(T[..0])| == 0 && Consumed(T[..0]) == 0
    ensures |Payload(T[..1])| == 1 && Consumed(T[..1]) == 1
    ensures |Payload(T[..2])| == 2 && Consumed(T[..2]) == 2
    ensures |Payload(T[..3])| == 3 && Consumed(T[..3]) == 3
    ensures |Payload(T[..4])| == 5 && Consumed(T[..4]) == 6
    ensures |Payload(T[..5])| == 7 && Consumed(T[..5]) == 12
    ensures |Payload(T[..6])| == 9 && Consumed(T[..6]) == 20
  {
    assert T[..0] == [];
    PrefixGrow(T, 0);
    PrefixGrow(T, 1);
    PrefixGrow(T, 2);
    PrefixGrow(T, 3);
    PrefixGrow(T, 4);
    PrefixGrow(T, 5);
  }

  /** Their cost after each prefix: 20, 21, 21, 21, 20, 16, 10. */
  lemma ZerosCosts(T: seq<Token>)
    requires ZeroTokens(T)
    ensures Costs(20, T) == [20, 21, 21, 21, 20, 16, 10]
  {
    ZeroPrefixes(T);
    PackLength(T[..0]);
    PackLength(T[..1]);
    PackLength(T[..2]);
    PackLength(T[..3]);
    PackLength(T[..4]);
    PackLength(T[..5]);
    PackLength(T[..6]);
  }

  /** The split point of twenty zero bytes keeps all six tokens. */
  lemma ZerosPlan(raw: seq<Byte>)
    requires |raw| == 20 && AllZero(raw)
    ensures MakePlan(raw, false).pakTmp == 10 && MakePlan(raw, false).rawTmp == 0
  {
    var s := Reversed(raw);
    ZerosTokenize(s);
    var T := Tokenize(s, false, 0);
    ZerosCosts(T);
    ZeroPrefixes(T);
    PackLength(T[..6]);
    assert Earliest([20, 21, 21, 21, 20, 16, 10]) == 6;
  }

  /** BLZ_Code as written turns twenty zero bytes into twenty bytes whose last
      word is zero, and BLZ_Decode gives back only sixteen bytes. */
  lemma ZerosCollide(raw: seq<Byte>)
    requires |raw| == 20 && AllZero(raw)
    ensures var out := CodeOutputAsWritten(raw, false);
      && |out| == 20
      && Decoding.Decode(out).Ok? && |Decoding.Decode(out).value.output| == 16
      && Decoding.Decode(out) != Ok(Decoded(raw, false))
  {
    ZerosPlan(raw);
    assert RoundUp4(10) == 12;
    CollisionAsWritten(raw, false);
  }
}
