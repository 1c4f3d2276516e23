/** What BLZ_Code computes, as functions: the token decisions over the reversed
    input, the running choice of how much of the stream to keep, and the two
    output layouts. */
module Encoding {
  import opened Bytes
  import opened Tokens
  import opened Search

  /** The LZ-CUE test: lengths of 2 or less count as a single literal, and the
      match of length l is given up when a literal followed by the match one
      byte later (`1 + post`) covers at least as much as the match followed by
      the next one (`l + next`). */
  predicate Demotes(l: nat, next: nat, post: nat)
  {
    var next' := if next <= THRESHOLD then 1 else next;
    var post' := if post <= THRESHOLD then 1 else post;
    l + next' <= 1 + post'
  }

  /** The match used at consumed offset c: the greedy SEARCH result, which best
      mode demotes to a literal (length 1) when Demotes says so. The lookahead
      runs only on a usable match that does not end exactly at the end of the
      input. */
  function Choose(s: seq<Byte>, c: nat, best: bool): (r: (nat, nat))
    requires c < |s|
    ensures r.0 <= MAX_CODED
    ensures r.0 > THRESHOLD ==> r == BestMatch(s, c)
    ensures !best ==> r == BestMatch(s, c)
    ensures r != BestMatch(s, c) ==> r.0 == 1 && best
  {
    var m := BestMatch(s, c);
    if best && m.0 > THRESHOLD && c + m.0 < |s| && Demotes(m.0, BestMatch(s, c + m.0).0, BestMatch(s, c + 1).0)
    then (1, m.1)
    else m
  }

  /** The token written at consumed offset c. */
  function NextToken(s: seq<Byte>, c: nat, best: bool): (t: Token)
    requires c < |s|
  {
    var (l, p) := Choose(s, c, best);
    if l > THRESHOLD then Reference(l, p) else Literal(s[c])
  }

  /** Each token describes the bytes it stands for: a literal is the byte at c,
      and a back-reference is the longest match in the window at the smallest
      distance reaching that length. */
  lemma NextTokenDescribes(s: seq<Byte>, c: nat, best: bool, t: Token)
    requires c < |s| && t == NextToken(s, c, best)
    ensures && c + Span(t) <= |s|
      && Describes(s, c, [t])
      && (t.Reference? ==>
            3 <= t.dist <= Window(c) && IsMatch(s, c, t.dist, t.len) && (t.len, t.dist) == BestMatch(s, c))
      && (!best && t.Literal? ==> BestMatch(s, c).0 <= THRESHOLD)
  {
    BestMatchIsMatch(s, c);
    assert [t][1..] == [];
  }

  /** A token never reaches past the end of the input. */
  lemma NextTokenSpan(s: seq<Byte>, c: nat, best: bool)
    requires c < |s|
    ensures c + Span(NextToken(s, c, best)) <= |s|
  {
    BestMatchIsMatch(s, c);
  }

  /** The tokens the main loop writes from consumed offset c to the end. */
  function Tokenize(s: seq<Byte>, best: bool, c: nat): seq<Token>
    requires c <= |s|
    decreases |s| - c
  {
    if c == |s| then []
    else
      var t := NextToken(s, c, best);
      NextTokenSpan(s, c, best);
      [t] + Tokenize(s, best, c + Span(t))
  }

  /** The tokens describe the input from c on and stand for all of it. */
  lemma {:induction false} TokenizeDescribes(s: seq<Byte>, best: bool, c: nat)
    requires c <= |s|
    ensures var T := Tokenize(s, best, c);
      Describes(s, c, T) && Consumed(T) == |s| - c
    decreases |s| - c
  {
    if c < |s| {
      var t := NextToken(s, c, best);
      TokenizeStep(s, best, c, t);
      TokenizeDescribes(s, best, c + Span(t));
      TokenDescribes(s, best, c, t, Tokenize(s, best, c + Span(t)));
    }
  }

  /** The token at c followed by tokens that describe the rest of the input. */
  lemma TokenDescribes(s: seq<Byte>, best: bool, c: nat, t: Token, R: seq<Token>)
    requires c < |s| && t == NextToken(s, c, best) && c + Span(t) <= |s|
    requires Describes(s, c + Span(t), R) && Consumed(R) == |s| - c - Span(t)
    ensures Describes(s, c, [t] + R) && Consumed([t] + R) == |s| - c
  {
    NextTokenDescribes(s, c, best, t);
    DescribesCons(s, c, t, R);
  }

  /** One step of the token loop. */
  lemma TokenizeStep(s: seq<Byte>, best: bool, c: nat, t: Token)
    requires c < |s| && t == NextToken(s, c, best)
    ensures c + Span(t) <= |s|
    ensures Tokenize(s, best, c) == [t] + Tokenize(s, best, c + Span(t))
  {
    TokenizeUnfold(s, best, c);
  }

  lemma TokenizeUnfold(s: seq<Byte>, best: bool, c: nat)
    requires c < |s|
    ensures c + Span(NextToken(s, c, best)) <= |s|
    ensures Tokenize(s, best, c) == [NextToken(s, c, best)] + Tokenize(s, best, c + Span(NextToken(s, c, best)))
  {
    NextTokenSpan(s, c, best);
  }

  /** `pak_tmp + raw_tmp` if the output kept the stream of the first k tokens and
      left the rest of the input uncompressed. */
  function Cost(n: nat, T: seq<Token>, k: nat): int
    requires k <= |T|
  {
    |Pack(T[..k])| + n - Consumed(T[..k])
  }

  /** The costs of keeping 0, 1, ..., |T| tokens. */
  function Costs(n: nat, T: seq<Token>): (c: seq<int>)
    ensures |c| == |T| + 1
    ensures forall k :: 0 <= k <= |T| ==> c[k] == Cost(n, T, k)
  {
    seq(|T| + 1, k requires 0 <= k <= |T| => Cost(n, T, k))
  }

  /** A running minimum that only moves on a strict improvement: the position
      of the first least element. */
  function Earliest(c: seq<int>): (k: nat)
    requires c != []
    ensures k < |c|
    decreases |c|
  {
    if |c| == 1 then 0
    else
      var k := Earliest(c[..|c| - 1]);
      if c[|c| - 1] < c[k] then |c| - 1 else k
  }

  lemma {:induction false} EarliestMinimal(c: seq<int>, i: nat)
    requires i < |c|
    ensures c[Earliest(c)] <= c[i]
    ensures i < Earliest(c) ==> c[Earliest(c)] < c[i]
    decreases |c|
  {
    if |c| > 1 && i < |c| - 1 {
      EarliestMinimal(c[..|c| - 1], i);
    }
  }

  /** The number of tokens whose stream the encoder keeps: `pak_tmp` and `raw_tmp`
      are updated after a token only when the cost drops strictly below the best
      so far, starting from 0 tokens (cost n). */
  function SplitPoint(n: nat, T: seq<Token>): (k: nat)
    ensures k <= |T|
  {
    Earliest(Costs(n, T))
  }

  lemma CostPrefix(n: nat, T: seq<Token>, m: nat, i: nat)
    requires i <= m <= |T|
    ensures Cost(n, T[..m], i) == Cost(n, T, i)
  {
    assert T[..m][..i] == T[..i];
  }

  /** One more token adds one cost at the end and changes none of the others. */
  lemma CostsAppend(n: nat, T: seq<Token>, t: Token)
    ensures Costs(n, T + [t])[..|T| + 1] == Costs(n, T)
  {
    var U := T + [t];
    assert U[..|T|] == T;
    forall i | 0 <= i <= |T| ensures Costs(n, U)[i] == Costs(n, T)[i] {
      CostPrefix(n, U, |T|, i);
    }
  }

  /** The running minimum after one more token: it moves to the end only when
      the new cost is strictly less than the kept one. */
  lemma SplitPointSnoc(n: nat, T: seq<Token>, t: Token)
    ensures var k := SplitPoint(n, T);
      SplitPoint(n, T + [t]) == if Cost(n, T + [t], |T| + 1) < Cost(n, T, k) then |T| + 1 else k
  {
    var U := T + [t];
    var c := Costs(n, U);
    var k := SplitPoint(n, T);
    CostsAppend(n, T, t);
    assert c[..|c| - 1] == Costs(n, T);
    CostPrefix(n, U, |T|, k);
    assert U[..|T|] == T;
  }

  /** The kept prefix costs no more than the prefix of i tokens, and strictly
      less when i is shorter. */
  lemma SplitPointMinimal(n: nat, T: seq<Token>, i: nat)
    requires i <= |T|
    ensures Cost(n, T, SplitPoint(n, T)) <= Cost(n, T, i)
    ensures i < SplitPoint(n, T) ==> Cost(n, T, SplitPoint(n, T)) < Cost(n, T, i)
  {
    EarliestMinimal(Costs(n, T), i);
  }

  /** The kept prefix has the least cost of all prefixes, and is the shortest
      one with that cost. */
  lemma SplitPointIsEarliestMinimum(n: nat, T: seq<Token>)
    ensures var k := SplitPoint(n, T);
      && (forall i :: 0 <= i <= |T| ==> Cost(n, T, k) <= Cost(n, T, i))
      && (forall i :: 0 <= i < k ==> Cost(n, T, k) < Cost(n, T, i))
  {
    forall i | 0 <= i <= |T|
      ensures Cost(n, T, SplitPoint(n, T)) <= Cost(n, T, i)
      ensures i < SplitPoint(n, T) ==> Cost(n, T, SplitPoint(n, T)) < Cost(n, T, i)
    {
      SplitPointMinimal(n, T, i);
    }
  }

  /** The encoder's provisional result: the tokens, the full stream, and the
      kept lengths `pak_tmp` and `raw_tmp`. */
  datatype Plan = Plan(tokens: seq<Token>, stream: seq<Byte>, pakTmp: nat, rawTmp: nat)

  function MakePlan(raw: seq<Byte>, best: bool): (r: Plan)
    ensures r.tokens == Tokenize(Reversed(raw), best, 0)
    ensures r.stream == Pack(r.tokens)
    ensures r.pakTmp <= |r.stream| && r.pakTmp + r.rawTmp <= |raw|
    ensures r.pakTmp == 0 <==> r.rawTmp == |raw|
    ensures var k := SplitPoint(|raw|, r.tokens);
      r.pakTmp == |Pack(r.tokens[..k])| && r.rawTmp == |raw| - Consumed(r.tokens[..k])
  {
    var s := Reversed(raw);
    var T := Tokenize(s, best, 0);
    var k := SplitPoint(|raw|, T);
    TokenizeDescribes(s, best, 0);
    SplitPointMinimal(|raw|, T, 0);
    assert T[..0] == [];
    assert Cost(|raw|, T, 0) == |raw|;
    assert Cost(|raw|, T, k) <= |raw|;
    ConsumedPrefix(T, k);
    PackPrefixEncodes(T, k, 0);
    PackLength(T[..k]);
    Plan(T, Pack(T), |Pack(T[..k])|, |raw| - Consumed(T[..k]))
  }

  /** What the provisional plan keeps: a prefix of k tokens that describe the
      reversed input, and its packed stream. */
  predicate Kept(raw: seq<Byte>, T: seq<Token>, k: nat, stream: seq<Byte>, pt: nat, rt: nat)
  {
    && Describes(Reversed(raw), 0, T) && k <= |T| && rt + Consumed(T[..k]) == |raw|
    && stream == Pack(T) && pt == |Pack(T[..k])| && pt <= |stream|
  }

  /** The layout test of BLZ_Code as written: stored when nothing is worth
      keeping, or when the headered output would be more than four bytes longer
      than the input. */
  predicate StoredChosenAsWritten(n: nat, pakTmp: nat, rawTmp: nat)
  {
    pakTmp == 0 || n + 4 < RoundUp4(pakTmp + rawTmp) + 8
  }

  /** The layout test this model uses: also stored when the headered output
      would be exactly as long as the input, since its last word
      `inc_len - hdr_len` would then be zero, which the decoder reads as the
      mark of the stored layout. */
  predicate StoredChosen(n: nat, pakTmp: nat, rawTmp: nat)
  {
    StoredChosenAsWritten(n, pakTmp, rawTmp) || RoundUp4(pakTmp + rawTmp) + 8 == n
  }

  /** The stored layout: the input, zero bytes up to a multiple of four, and a
      zero word. */
  function StoredLayout(raw: seq<Byte>): (r: seq<Byte>)
    ensures |r| == RoundUp4(|raw|) + 4
  {
    raw + Zeros(RoundUp4(|raw|) - |raw|) + Zeros(4)
  }

  /** The headered layout: the uncompressed prefix, the kept stream segment,
      0xFF bytes up to a multiple of four, then the low three bytes of
      `enc_len + hdr_len`, the byte `hdr_len` and the word `inc_len - hdr_len`,
      all in C's unsigned arithmetic. */
  function HeaderedLayout(prefix: seq<Byte>, seg: seq<Byte>, n: nat): (r: seq<Byte>)
    ensures |r| == RoundUp4(|prefix| + |seg|) + 8
  {
    var body := |prefix| + |seg|;
    var pad := RoundUp4(body) - body;
    var hdr := 8 + pad;
    prefix + seg + Ones(pad) + LE32((|seg| + hdr) % WORD)[..3] + [hdr]
      + LE32((n - |seg| - |prefix| - hdr) % WORD)
  }

  /** The output for a given provisional stream and kept lengths. */
  function Layout(raw: seq<Byte>, stream: seq<Byte>, pakTmp: nat, rawTmp: nat): (r: seq<Byte>)
    requires pakTmp <= |stream| && rawTmp <= |raw|
  {
    if StoredChosen(|raw|, pakTmp, rawTmp) then StoredLayout(raw)
    else HeaderedLayout(raw[..rawTmp], Reversed(stream)[|stream| - pakTmp..], |raw|)
  }

  /** The output under the layout test as written. */
  function LayoutAsWritten(raw: seq<Byte>, stream: seq<Byte>, pakTmp: nat, rawTmp: nat): (r: seq<Byte>)
    requires pakTmp <= |stream| && rawTmp <= |raw|
  {
    if StoredChosenAsWritten(|raw|, pakTmp, rawTmp) then StoredLayout(raw)
    else HeaderedLayout(raw[..rawTmp], Reversed(stream)[|stream| - pakTmp..], |raw|)
  }

  /** The output is never more than seven bytes longer than the input; a
      headered output is at most four bytes longer. */
  lemma LayoutLength(raw: seq<Byte>, stream: seq<Byte>, pakTmp: nat, rawTmp: nat)
    requires pakTmp <= |stream| && rawTmp <= |raw|
    ensures var r := Layout(raw, stream, pakTmp, rawTmp);
      && |r| <= |raw| + 7
      && (StoredChosen(|raw|, pakTmp, rawTmp) ==> |r| == RoundUp4(|raw|) + 4)
      && (!StoredChosen(|raw|, pakTmp, rawTmp) ==> |r| == RoundUp4(pakTmp + rawTmp) + 8 <= |raw| + 4 && |r| != |raw|)
  {
    if !StoredChosen(|raw|, pakTmp, rawTmp) {
      var seg := Reversed(stream)[|stream| - pakTmp..];
      assert |raw[..rawTmp]| + |seg| == rawTmp + pakTmp;
    }
  }

  /** Under the layout test as written the output is again never more than
      seven bytes longer than the input, and a headered output at most four;
      it is exactly as long as the input precisely where the two layout tests
      disagree, which is where the stored layout, always longer than the input,
      is the corrected choice. */
  lemma LayoutLengthAsWritten(raw: seq<Byte>, stream: seq<Byte>, pakTmp: nat, rawTmp: nat)
    requires pakTmp <= |stream| && rawTmp <= |raw|
    ensures var r := LayoutAsWritten(raw, stream, pakTmp, rawTmp);
      && |r| <= |raw| + 7
      && (StoredChosenAsWritten(|raw|, pakTmp, rawTmp) ==> |r| == RoundUp4(|raw|) + 4)
      && (!StoredChosenAsWritten(|raw|, pakTmp, rawTmp) ==> |r| == RoundUp4(pakTmp + rawTmp) + 8 <= |raw| + 4)
      && (|r| == |raw| <==> !StoredChosenAsWritten(|raw|, pakTmp, rawTmp) && StoredChosen(|raw|, pakTmp, rawTmp))
      && (|r| != |raw| ==> r == Layout(raw, stream, pakTmp, rawTmp))
  {
    if !StoredChosenAsWritten(|raw|, pakTmp, rawTmp) {
      var seg := Reversed(stream)[|stream| - pakTmp..];
      assert |raw[..rawTmp]| + |seg| == rawTmp + pakTmp;
    }
  }

  /** The buffer BLZ_Code returns (its first `*new_len` bytes), with the
      corrected layout test. */
  function CodeOutput(raw: seq<Byte>, best: bool): (r: seq<Byte>)
  {
    var P := MakePlan(raw, best);
    Layout(raw, P.stream, P.pakTmp, P.rawTmp)
  }

  /** The buffer BLZ_Code returns under the layout test as written. */
  function CodeOutputAsWritten(raw: seq<Byte>, best: bool): (r: seq<Byte>)
  {
    var P := MakePlan(raw, best);
    LayoutAsWritten(raw, P.stream, P.pakTmp, P.rawTmp)
  }

  /** BLZ_MAXIM: the largest output BLZ_Encode accepts (20MB). */
  const BLZ_MAXIM: nat := 0x0140_0000

  /** Any input a 3-byte length can describe gives an output BLZ_Encode keeps. */
  lemma OutputFits(raw: seq<Byte>, best: bool)
    requires |raw| <= RAW_MAXIM
    ensures |CodeOutput(raw, best)| <= |raw| + 7 < BLZ_MAXIM
    ensures |CodeOutputAsWritten(raw, best)| <= |raw| + 7 < BLZ_MAXIM
  {
    var P := MakePlan(raw, best);
    LayoutLength(raw, P.stream, P.pakTmp, P.rawTmp);
    LayoutLengthAsWritten(raw, P.stream, P.pakTmp, P.rawTmp);
  }

  /** Encoding the empty input gives the four-byte zero word. */
  lemma EmptyInput(best: bool)
    ensures CodeOutput([], best) == [0, 0, 0, 0]
    ensures CodeOutputAsWritten([], best) == [0, 0, 0, 0]
  {
    var P := MakePlan([], best);
    assert P.tokens == [];
  }
}
