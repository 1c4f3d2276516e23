/** An input on which best mode gives a longer output than normal mode: the
    one-step lookahead gives up a match for a literal, the match found one byte
    later then covers the rest, and the stream ends one byte longer. Seventeen
    bytes, all zero but the twelfth, which is one. */
module Lookahead {
  import opened Bytes
  import opened Tokens
  import opened Search
  import opened Encoding
  import opened Collision

  /** The input as the encoder reads it, from the end: the one is at index 5. */
  predicate Sample(s: seq<Byte>)
  {
    |s| == 17 && forall i :: 0 <= i < |s| ==> s[i] == (if i == 5 then 1 else 0)
  }

  /** A shorter match is a prefix of a longer one. */
  lemma MatchShorter(s: seq<Byte>, c: nat, d: nat, l: nat, k: nat)
    requires d <= c && IsMatch(s, c, d, l) && k <= l
    ensures IsMatch(s, c, d, k)
  {
    IsMatchBytes(s, c, d, l);
    RepeatsOfBytes(s, c, d, k);
  }

  /** One differing byte rules out every match over it. */
  lemma Mismatch(s: seq<Byte>, c: nat, d: nat, l: nat, j: nat)
    requires d <= c && c + l <= |s| && c <= j < c + l && s[j] != s[j - d]
    ensures !IsMatch(s, c, d, l)
  {
    if IsMatch(s, c, d, l) {
      RepeatsAt(s, c, d, l, j);
    }
  }

  /** SEARCH reports (l, p) when the match at p cannot be lengthened at any
      distance of the window and no smaller distance reaches l. */
  lemma BestMatchIs(s: seq<Byte>, c: nat, l: nat, p: nat)
    requires c <= |s| && THRESHOLD < l < MAX_CODED && 3 <= p <= Window(c) && IsMatch(s, c, p, l)
    requires forall d, len :: 3 <= d <= Window(c) && l < len ==> !IsMatch(s, c, d, len)
    requires forall d :: 3 <= d < p ==> !IsMatch(s, c, d, l)
    ensures BestMatch(s, c) == (l, p)
  {
    var r := BestMatch(s, c);
    BestMatchIsLongestFirst(s, c);
    BestMatchIsMatch(s, c);
  }

  /** SEARCH finds no usable match when no distance of the window gives three
      bytes. */
  lemma NoMatchIs(s: seq<Byte>, c: nat)
    requires c <= |s|
    requires forall d :: 3 <= d <= Window(c) ==> !IsMatch(s, c, d, 3)
    ensures BestMatch(s, c).0 == THRESHOLD
  {
    var r := BestMatch(s, c);
    BestMatchIsMatch(s, c);
    if r.0 > THRESHOLD {
      MatchShorter(s, c, r.1, r.0, 3);
    }
  }

  /** Past the one, a match fails whose source covers the one. */
  lemma SampleMismatch(s: seq<Byte>, c: nat, d: nat, l: nat)
    requires Sample(s) && 5 < c && d <= c && c + l <= |s| && c <= 5 + d < c + l
    ensures !IsMatch(s, c, d, l)
  {
    Mismatch(s, c, d, l, 5 + d);
  }

  /** A match of zeros whose source avoids the one. */
  lemma SampleMatch(s: seq<Byte>, c: nat, d: nat, l: nat)
    requires Sample(s) && 5 < c && l <= d <= c && c + l <= |s| && (5 < c - d || c + l - d <= 5)
    ensures IsMatch(s, c, d, l)
  {
    RepeatsOfBytes(s, c, d, l);
  }

  /** Up to the one every token is a literal, in both modes. */
  lemma SampleLiteral(s: seq<Byte>, c: nat, best: bool)
    requires Sample(s) && c <= 5
    ensures NextToken(s, c, best) == Literal(if c == 5 then 1 else 0)
  {
    if c < 3 {
      NoMatchAtStart(s, c);
    } else {
      forall d | 3 <= d <= Window(c) ensures !IsMatch(s, c, d, 3) {
        Mismatch(s, c, d, 3, 5);
      }
      NoMatchIs(s, c);
    }
  }

  /** At 6 the five zeros six back: the longest match, kept in both modes. */
  lemma SampleAt6(s: seq<Byte>)
    requires Sample(s)
    ensures BestMatch(s, 6) == (5, 6)
  {
    SampleMatch(s, 6, 6, 5);
    forall d, len | 3 <= d <= Window(6) && 5 < len ensures !IsMatch(s, 6, d, len) {
      if 6 + len <= |s| {
        SampleMismatch(s, 6, d, len);
      }
    }
    forall d | 3 <= d < 6 ensures !IsMatch(s, 6, d, 5) {
      SampleMismatch(s, 6, d, 5);
    }
    BestMatchIs(s, 6, 5, 6);
  }

  /** At 7, one byte after 6, the match is as long. */
  lemma SampleAt7(s: seq<Byte>)
    requires Sample(s)
    ensures BestMatch(s, 7) == (5, 7)
  {
    SampleMatch(s, 7, 7, 5);
    forall d, len | 3 <= d <= Window(7) && 5 < len ensures !IsMatch(s, 7, d, len) {
      if 7 + len <= |s| {
        SampleMismatch(s, 7, d, len);
      }
    }
    forall d | 3 <= d < 7 ensures !IsMatch(s, 7, d, 5) {
      SampleMismatch(s, 7, d, 5);
    }
    BestMatchIs(s, 7, 5, 7);
  }

  /** At 11 the five zeros five back. */
  lemma SampleAt11(s: seq<Byte>)
    requires Sample(s)
    ensures BestMatch(s, 11) == (5, 5)
  {
    SampleMatch(s, 11, 5, 5);
    forall d, len | 3 <= d <= Window(11) && 5 < len ensures !IsMatch(s, 11, d, len) {
      if d >= 6 && 11 + len <= |s| {
        SampleMismatch(s, 11, d, len);
      }
    }
    BestMatchIs(s, 11, 5, 5);
  }

  /** At 12 the five zeros up to the end, five back. */
  lemma SampleAt12(s: seq<Byte>)
    requires Sample(s)
    ensures BestMatch(s, 12) == (5, 5)
  {
    SampleMatch(s, 12, 5, 5);
    BestMatchIs(s, 12, 5, 5);
  }

  /** At 16 one byte is left: no usable match. */
  lemma SampleAt16(s: seq<Byte>)
    requires Sample(s)
    ensures BestMatch(s, 16).0 == THRESHOLD
  {
    NoMatchIs(s, 16);
  }

  /** The six literals in front, in either mode: five zeros and the one. */
  predicate HeadLiterals(T: seq<Token>)
  {
    && |T| == 9
    && T[0] == Literal(0) && T[1] == Literal(0) && T[2] == Literal(0)
    && T[3] == Literal(0) && T[4] == Literal(0) && T[5] == Literal(1)
  }

  /** Normal mode: the six literals, the two matches of five, and the last zero
      as a literal. */
  predicate NormalTokens(T: seq<Token>)
  {
    HeadLiterals(T) && T[6] == Reference(5, 6) && T[7] == Reference(5, 5) && T[8] == Literal(0)
  }

  /** Best mode: the match at 11 is given up, since at 12 one as long follows
      and at 16 only a literal would; the last five zeros are one match. */
  predicate BestTokens(T: seq<Token>)
  {
    HeadLiterals(T) && T[6] == Reference(5, 6) && T[7] == Literal(0) && T[8] == Reference(5, 5)
  }

  /** A literal up to the one, in either mode. */
  lemma LiteralStep(s: seq<Byte>, best: bool, c: nat, rest: seq<Token>)
    requires Sample(s) && c <= 5 && Tokenize(s, best, c + 1) == rest
    ensures Tokenize(s, best, c) == [Literal(if c == 5 then 1 else 0)] + rest
  {
    SampleLiteral(s, c, best);
    TokenizeStep(s, best, c, Literal(if c == 5 then 1 else 0));
  }

  /** The literals the encoder writes from c up to the one, inclusive. */
  function Head(c: nat): (H: seq<Token>)
    requires c <= 6
    ensures |H| == 6 - c
    decreases 6 - c
  {
    if c == 6 then [] else [Literal(if c == 5 then 1 else 0)] + Head(c + 1)
  }

  lemma HeadCons(c: nat, rest: seq<Token>)
    requires c < 6
    ensures Head(c) + rest == [Literal(if c == 5 then 1 else 0)] + (Head(c + 1) + rest)
  {
  }

  /** The literals in front, in either mode, from c on. */
  lemma {:induction false} HeadFrom(s: seq<Byte>, best: bool, c: nat, rest: seq<Token>)
    requires Sample(s) && c <= 6 && Tokenize(s, best, 6) == rest
    ensures Tokenize(s, best, c) == Head(c) + rest
    decreases 6 - c
  {
    if c < 6 {
      var R := Head(c + 1) + rest;
      HeadFrom(s, best, c + 1, rest);
      LiteralStep(s, best, c, R);
      HeadCons(c, rest);
    }
  }

  /** The six literals in front, in either mode. */
  lemma SampleHead(s: seq<Byte>, best: bool, rest: seq<Token>)
    requires Sample(s) && Tokenize(s, best, 6) == rest
    ensures Tokenize(s, best, 0) == [Literal(0), Literal(0), Literal(0), Literal(0), Literal(0), Literal(1)] + rest
  {
    HeadFrom(s, best, 0, rest);
    HeadLiteralsAre();
  }

  lemma HeadLiteralsAre()
    ensures Head(0) == [Literal(0), Literal(0), Literal(0), Literal(0), Literal(0), Literal(1)]
  {
  }

  lemma NormalTail(s: seq<Byte>)
    requires Sample(s)
    ensures Tokenize(s, false, 6) == [Reference(5, 6), Reference(5, 5), Literal(0)]
  {
    SampleAt16(s);
    TokenizeStep(s, false, 16, Literal(0));
    SampleAt11(s);
    TokenizeStep(s, false, 11, Reference(5, 5));
    SampleAt6(s);
    TokenizeStep(s, false, 6, Reference(5, 6));
  }

  lemma BestTail(s: seq<Byte>)
    requires Sample(s)
    ensures Tokenize(s, true, 6) == [Reference(5, 6), Literal(0), Reference(5, 5)]
  {
    SampleAt12(s);
    TokenizeStep(s, true, 12, Reference(5, 5));
    SampleAt16(s);
    assert Demotes(5, BestMatch(s, 16).0, BestMatch(s, 12).0);
    SampleAt11(s);
    TokenizeStep(s, true, 11, Literal(0));
    SampleAt7(s);
    assert !Demotes(5, BestMatch(s, 11).0, BestMatch(s, 7).0);
    SampleAt6(s);
    TokenizeStep(s, true, 6, Reference(5, 6));
  }

  lemma NormalTokenize(s: seq<Byte>)
    requires Sample(s)
    ensures NormalTokens(Tokenize(s, false, 0))
  {
    NormalTail(s);
    SampleHead(s, false, [Reference(5, 6), Reference(5, 5), Literal(0)]);
  }

  lemma BestTokenize(s: seq<Byte>)
    requires Sample(s)
    ensures BestTokens(Tokenize(s, true, 0))
  {
    BestTail(s);
    SampleHead(s, true, [Reference(5, 6), Literal(0), Reference(5, 5)]);
  }

  /** The six literals in front: one payload byte and one input byte each. */
  lemma HeadPrefixes(T: seq<Token>)
    requires HeadLiterals(T)
    ensures |Payload(T[..0])| == 0 && Consumed(T[..0]) == 0
    ensures |Payload(T[..1])| == 1 && Consumed(T[..1]) == 1
    ensures |Payload(T[..2])| == 2 && Consumed(T[..2]) == 2
    ensures |Payload(T[..3])| == 3 && Consumed(T[..3]) == 3
    ensures |Payload(T[..4])| == 4 && Consumed(T[..4]) == 4
    ensures |Payload(T[..5])| == 5 && Consumed(T[..5]) == 5
    ensures |Payload(T[..6])| == 6 && Consumed(T[..6]) == 6
  {
    assert T[..0] == [];
    PrefixGrow(T, 0);
    PrefixGrow(T, 1);
    PrefixGrow(T, 2);
    PrefixGrow(T, 3);
    PrefixGrow(T, 4);
    PrefixGrow(T, 5);
  }

  /** The stream length of every prefix, from its payload. */
  lemma PackLengths(T: seq<Token>)
    requires |T| == 9
    ensures |Pack(T[..0])| == |Payload(T[..0])|
    ensures |Pack(T[..1])| == 1 + |Payload(T[..1])| && |Pack(T[..2])| == 1 + |Payload(T[..2])|
    ensures |Pack(T[..3])| == 1 + |Payload(T[..3])| && |Pack(T[..4])| == 1 + |Payload(T[..4])|
    ensures |Pack(T[..5])| == 1 + |Payload(T[..5])| && |Pack(T[..6])| == 1 + |Payload(T[..6])|
    ensures |Pack(T[..7])| == 1 + |Payload(T[..7])| && |Pack(T[..8])| == 1 + |Payload(T[..8])|
    ensures |Pack(T[..9])| == 2 + |Payload(T[..9])|
  {
    PackLength(T[..0]);
    PackLength(T[..1]);
    PackLength(T[..2]);
    PackLength(T[..3]);
    PackLength(T[..4]);
    PackLength(T[..5]);
    PackLength(T[..6]);
    PackLength(T[..7]);
    PackLength(T[..8]);
    PackLength(T[..9]);
  }

  /** Keeping none of the literals in front costs 17, keeping some 18. */
  lemma HeadCosts(T: seq<Token>)
    requires HeadLiterals(T)
    ensures Cost(17, T, 0) == 17 && Cost(17, T, 1) == 18 && Cost(17, T, 2) == 18
    ensures Cost(17, T, 3) == 18 && Cost(17, T, 4) == 18 && Cost(17, T, 5) == 18
    ensures Cost(17, T, 6) == 18
  {
    HeadPrefixes(T);
    PackLengths(T);
  }

  /** Normal mode's last three prefixes: 9, 11 and 13 stream bytes for 11, 16
      and 17 input bytes. */
  lemma NormalTailCosts(T: seq<Token>)
    requires NormalTokens(T)
    ensures Cost(17, T, 7) == 15 && Cost(17, T, 8) == 12 && Cost(17, T, 9) == 13
    ensures |Pack(T[..8])| == 11 && Consumed(T[..8]) == 16
  {
    HeadPrefixes(T);
    PrefixGrow(T, 6);
    PrefixGrow(T, 7);
    PrefixGrow(T, 8);
    PackLengths(T);
  }

  /** Best mode's last three prefixes: 9, 10 and 13 stream bytes for 11, 12
      and 17 input bytes. */
  lemma BestTailCosts(T: seq<Token>)
    requires BestTokens(T)
    ensures Cost(17, T, 7) == 15 && Cost(17, T, 8) == 15 && Cost(17, T, 9) == 13
    ensures |Pack(T[..9])| == 13 && Consumed(T[..9]) == 17
  {
    HeadPrefixes(T);
    PrefixGrow(T, 6);
    PrefixGrow(T, 7);
    PrefixGrow(T, 8);
    PackLengths(T);
  }

  /** Normal mode costs 17, 18 (six times), 15, 12, 13. */
  lemma NormalCosts(T: seq<Token>)
    requires NormalTokens(T)
    ensures Costs(17, T) == [17, 18, 18, 18, 18, 18, 18, 15, 12, 13]
  {
    HeadCosts(T);
    NormalTailCosts(T);
  }

  /** Best mode costs 17, 18 (six times), 15, 15, 13. */
  lemma BestCosts(T: seq<Token>)
    requires BestTokens(T)
    ensures Costs(17, T) == [17, 18, 18, 18, 18, 18, 18, 15, 15, 13]
  {
    HeadCosts(T);
    BestTailCosts(T);
  }

  /** In normal mode the split keeps eight tokens, eleven stream bytes, and one
      byte of the input uncompressed. */
  lemma NormalPlan(raw: seq<Byte>)
    requires |raw| == 17 && Sample(Reversed(raw))
    ensures MakePlan(raw, false).pakTmp == 11 && MakePlan(raw, false).rawTmp == 1
  {
    NormalTokenize(Reversed(raw));
    var T := Tokenize(Reversed(raw), false, 0);
    NormalCosts(T);
    assert Earliest([17, 18, 18, 18, 18, 18, 18, 15, 12, 13]) == 8;
    NormalTailCosts(T);
  }

  /** In best mode the split keeps all nine tokens, thirteen stream bytes. */
  lemma BestPlan(raw: seq<Byte>)
    requires |raw| == 17 && Sample(Reversed(raw))
    ensures MakePlan(raw, true).pakTmp == 13 && MakePlan(raw, true).rawTmp == 0
  {
    BestTokenize(Reversed(raw));
    var T := Tokenize(Reversed(raw), true, 0);
    BestCosts(T);
    assert Earliest([17, 18, 18, 18, 18, 18, 18, 15, 15, 13]) == 9;
    BestTailCosts(T);
  }

  /** Normal mode writes the 20-byte headered layout. */
  lemma NormalLength(raw: seq<Byte>)
    requires |raw| == 17 && Sample(Reversed(raw))
    ensures |CodeOutput(raw, false)| == 20 && |CodeOutputAsWritten(raw, false)| == 20
  {
    NormalPlan(raw);
    var N := MakePlan(raw, false);
    assert RoundUp4(12) == 12;
    LayoutLength(raw, N.stream, N.pakTmp, N.rawTmp);
    LayoutLengthAsWritten(raw, N.stream, N.pakTmp, N.rawTmp);
  }

  /** Best mode writes the 24-byte stored layout. */
  lemma BestLength(raw: seq<Byte>)
    requires |raw| == 17 && Sample(Reversed(raw))
    ensures |CodeOutput(raw, true)| == 24 && |CodeOutputAsWritten(raw, true)| == 24
  {
    BestPlan(raw);
    var B := MakePlan(raw, true);
    assert RoundUp4(13) == 16 && RoundUp4(17) == 20;
    LayoutLength(raw, B.stream, B.pakTmp, B.rawTmp);
    LayoutLengthAsWritten(raw, B.stream, B.pakTmp, B.rawTmp);
  }

  /** Eleven zeros, a one and five zeros: normal mode gives 20 bytes, best mode
      24, under either layout test. */
  lemma BestLonger(raw: seq<Byte>)
    requires |raw| == 17 && forall i :: 0 <= i < |raw| ==> raw[i] == (if i == 11 then 1 else 0)
    ensures |CodeOutput(raw, false)| == 20 && |CodeOutputAsWritten(raw, false)| == 20
    ensures |CodeOutput(raw, true)| == 24 && |CodeOutputAsWritten(raw, true)| == 24
  {
    assert Sample(Reversed(raw));
    NormalLength(raw);
    BestLength(raw);
  }
}
