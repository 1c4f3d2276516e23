/** BLZ_Code and BLZ_Encode as methods over arrays: the token loop over the
    inverted input, the trailing flag shifts, and the two output layouts, each
    proved to produce what the functions of module Encoding describe. */
module Encoder {
  import opened Bytes
  import opened Tokens
  import opened Search
  import opened Encoding
  import opened Inversion

  /** The match decision at consumed offset c: SEARCH, then the LZ-CUE lookahead
      at c + l and c + 1 in best mode. */
  method Choice(raw: array<Byte>, c: nat, best: bool) returns (l: nat, p: nat)
    requires c < raw.Length
    ensures (l, p) == Choose(raw[..], c, best)
  {
    ghost var s := raw[..];
    l, p := Search.Search(raw, c);
    ghost var m := (l, p);
    if best && l > THRESHOLD && c + l < raw.Length {
      var next, pNext := Search.Search(raw, c + l);
      var post, pPost := Search.Search(raw, c + 1);
      ghost var next0, post0 := (next, pNext), (post, pPost);
      ghost var demotes := Demotes(l, next, post);
      if next <= THRESHOLD { next := 1; }
      if post <= THRESHOLD { post := 1; }
      if l + next <= 1 + post { l := 1; }
      assert l == if demotes then 1 else m.0;
      ChooseLookahead(s, c, m, next0, post0, demotes);
    } else {
      ChooseGreedy(s, c, best, m);
    }
  }

  /** The token for the match decision (l, p). */
  lemma ChosenToken(s: seq<Byte>, c: nat, best: bool, l: nat, p: nat)
    requires c < |s| && (l, p) == Choose(s, c, best)
    ensures NextToken(s, c, best) == if l > THRESHOLD then Reference(l, p) else Literal(s[c])
    ensures l > THRESHOLD ==> l <= MAX_CODED && 3 <= p <= MAX_OFFSET
  {
  }

  /** Choose when the lookahead runs. */
  lemma ChooseLookahead(s: seq<Byte>, c: nat, m: (nat, nat), next: (nat, nat), post: (nat, nat), demotes: bool)
    requires c < |s| && m == BestMatch(s, c) && m.0 > THRESHOLD && c + m.0 < |s|
    requires next == BestMatch(s, c + m.0) && post == BestMatch(s, c + 1)
    requires demotes == Demotes(m.0, next.0, post.0)
    ensures Choose(s, c, true) == if demotes then (1, m.1) else m
  {
  }

  /** Choose when it does not. */
  lemma ChooseGreedy(s: seq<Byte>, c: nat, best: bool, m: (nat, nat))
    requires c < |s| && m == BestMatch(s, c) && !(best && m.0 > THRESHOLD && c + m.0 < |s|)
    ensures Choose(s, c, best) == m
  {
  }

  /** The bytes written for a group that is still open: its flag byte, holding
      the bits of its tokens so far, then their bytes. */
  function OpenGroup(cur: seq<Token>): (r: seq<Byte>)
    requires |cur| <= 8
    ensures |r| == 1 + |Payload(cur)|
  {
    Pow2Monotone(|cur|, 8);
    Pow2Byte();
    [FlagBits(cur)] + Payload(cur)
  }

  /** A full group that is closed needs no more shifts: it is its stream. */
  lemma CloseGroup(done: seq<Token>, cur: seq<Token>)
    requires |done| % 8 == 0 && |cur| == 8
    ensures Pack(done + cur) == Pack(done) + OpenGroup(cur)
  {
    PackAppend(done, cur);
  }

  /** The stream of whole groups followed by an open group is as long as the
      stream of all their tokens. */
  lemma OpenGroupLength(done: seq<Token>, cur: seq<Token>)
    requires |done| % 8 == 0 && 1 <= |cur| <= 8
    ensures |Pack(done) + OpenGroup(cur)| == |Pack(done + cur)|
  {
    PackAppend(done, cur);
  }

  /** Shifting the open flag byte and writing one token grows the open group. */
  lemma GrowGroup(P: seq<Byte>, cur: seq<Token>, t: Token, v: Byte)
    requires |cur| < 8 && v == 2 * FlagBits(cur) + FlagBit(t)
    ensures (P + OpenGroup(cur))[|P| := v] + TokenBytes(t)
      == P + OpenGroup(cur + [t])
  {
    SetFlagByte(P, cur, v);
    AppendTokenBytes(P, cur, t, v);
  }

  /** Overwriting the open flag byte. */
  lemma SetFlagByte(P: seq<Byte>, cur: seq<Token>, v: Byte)
    requires |cur| <= 8
    ensures (P + OpenGroup(cur))[|P| := v] == P + [v] + Payload(cur)
  {
    Pow2Monotone(|cur|, 8);
    Pow2Byte();
    var x: Byte := FlagBits(cur);
    Assoc(P, [x], Payload(cur));
    UpdateAfter(P, x, Payload(cur), v);
  }

  /** The token's bytes after the shifted flag byte. */
  lemma AppendTokenBytes(P: seq<Byte>, cur: seq<Token>, t: Token, v: Byte)
    requires |cur| < 8 && v == 2 * FlagBits(cur) + FlagBit(t)
    ensures P + [v] + Payload(cur) + TokenBytes(t) == P + OpenGroup(cur + [t])
  {
    Assoc(P + [v], Payload(cur), TokenBytes(t));
    PayloadSnoc(cur, t);
    Assoc(P, [v], Payload(cur + [t]));
    FlagBitsSnoc(cur, t);
  }

  lemma FlagBitsSnoc(cur: seq<Token>, t: Token)
    ensures FlagBits(cur + [t]) == 2 * FlagBits(cur) + FlagBit(t)
  {
    assert (cur + [t])[..|cur|] == cur;
  }

  lemma PayloadSnoc(cur: seq<Token>, t: Token)
    ensures Payload(cur + [t]) == Payload(cur) + TokenBytes(t)
  {
    PayloadAppend(cur, [t]);
    assert [t][1..] == [];
  }

  /** Writing one token at pp: the open flag byte at flg is shifted and, for a
      back-reference, gets its low bit set; then the token's bytes follow. */
  method Emit(raw: array<Byte>, pak: array<Byte>, flg: nat, pp: nat, rp: nat, l: nat, p: nat, ghost t: Token, ghost v: Byte)
    returns (pp': nat, rp': nat)
    requires raw != pak && flg < pp < pak.Length && rp < raw.Length && pak[flg] < 0x80
    requires v == 2 * pak[flg] + FlagBit(t)
    requires l > THRESHOLD ==> l <= MAX_CODED && 3 <= p <= MAX_OFFSET
    requires t == if l > THRESHOLD then Reference(l, p) else Literal(raw[rp])
    requires pp + |TokenBytes(t)| <= pak.Length
    modifies pak
    ensures pp' == pp + |TokenBytes(t)| && rp' == rp + Span(t)
    ensures pak[..pp'] == old(pak[..pp])[flg := v] + TokenBytes(t)
  {
    pak[flg] := pak[flg] * 2 % 0x100;
    if l > THRESHOLD {
      rp' := rp + l;
      pak[flg] := pak[flg] + 1;
      pak[pp] := (l - (THRESHOLD + 1)) * 0x10 + (p - 3) / 0x100;
      pak[pp + 1] := (p - 3) % 0x100;
      pp' := pp + 2;
    } else {
      pak[pp] := raw[rp];
      pp' := pp + 1;
      rp' := rp + 1;
    }
  }

  /** The state of pak while a group is open: whole groups, then the open
      group's flag byte at flg and the bytes of its tokens so far. */
  ghost predicate GroupOpen(buf: seq<Byte>, pp: nat, flg: nat, done: seq<Token>, cur: seq<Token>)
  {
    && |done| % 8 == 0 && |cur| <= 8
    && flg == |Pack(done)| < pp <= |buf|
    && buf[..pp] == Pack(done) + OpenGroup(cur)
  }

  /** `if (!(mask >>= 1)) { *(flg = pak++) = 0; mask = 0x80; }`: shifting the
      mask, and opening a new group once the current one has all its tokens. */
  method NextFlag(pak: array<Byte>, pp: nat, flg: nat, mask: nat, ghost done: seq<Token>, ghost cur: seq<Token>)
    returns (pp': nat, flg': nat, mask': nat, ghost done': seq<Token>, ghost cur': seq<Token>)
    requires pp < pak.Length
    requires cur == [] ==> done == [] && mask == 0 && pp == 0
    requires cur != [] ==> GroupOpen(pak[..], pp, flg, done, cur) && mask == Pow2(8 - |cur|)
    modifies pak
    ensures done' + cur' == done + cur && |cur'| < 8 && mask' == Pow2(7 - |cur'|)
    ensures GroupOpen(pak[..], pp', flg', done', cur')
  {
    if cur != [] {
      MaskShift(mask, 8 - |cur|);
    }
    mask' := mask / 2;
    if mask' == 0 {
      OpenFlag(pak, pp, flg, done, cur);
      flg', pp' := pp, pp + 1;
      done', cur' := done + cur, [];
      Pow2Byte();
      mask' := 0x80;
    } else {
      pp', flg', done', cur' := pp, flg, done, cur;
    }
  }

  /** `*(flg = pak++) = 0`: a zero flag byte at pp, at the start or after a full
      group, opens an empty group. */
  method OpenFlag(pak: array<Byte>, pp: nat, ghost flg: nat, ghost done: seq<Token>, ghost cur: seq<Token>)
    requires pp < pak.Length
    requires (cur == [] && done == [] && pp == 0) || (|cur| == 8 && GroupOpen(pak[..], pp, flg, done, cur))
    modifies pak
    ensures GroupOpen(pak[..], pp + 1, pp, done + cur, [])
  {
    ghost var A := pak[..];
    pak[pp] := 0;
    if cur == [] {
      FirstGroup(A, pak[..], done, cur);
    } else {
      NewGroup(A, pak[..], pp, flg, done, cur);
    }
  }

  /** Writing a zero flag byte at the start opens the first group. */
  lemma FirstGroup(A: seq<Byte>, B: seq<Byte>, done: seq<Token>, cur: seq<Token>)
    requires 0 < |A| && B == A[0 := 0] && done == [] && cur == []
    ensures GroupOpen(B, 1, 0, done + cur, [])
  {
    assert done + cur == [];
    assert FlagBits([]) == 0 && Payload([]) == [];
    assert B[..1] == [0];
  }

  /** Writing a zero flag byte at pp after a full group opens an empty group. */
  lemma NewGroup(A: seq<Byte>, B: seq<Byte>, pp: nat, flg: nat, done: seq<Token>, cur: seq<Token>)
    requires pp < |A| && B == A[pp := 0]
    requires |cur| == 8 && GroupOpen(A, pp, flg, done, cur)
    ensures GroupOpen(B, pp + 1, pp, done + cur, [])
  {
    var P := Pack(done + cur);
    CloseGroup(done, cur);
    GroupMultiple(|done|);
    assert |done + cur| == |done| + 8;
    assert A[..pp] == P;
    assert FlagBits([]) == 0 && Payload([]) == [];
    assert B[..pp + 1] == A[..pp] + [0];
  }

  lemma GroupMultiple(x: nat)
    requires x % 8 == 0
    ensures (x + 8) % 8 == 0
  {
  }

  /** `mask >>= 1` on a single-bit mask: zero exactly when the bit was bit 0. */
  lemma MaskShift(mask: nat, k: nat)
    requires mask == Pow2(k)
    ensures mask / 2 == 0 <==> k == 0
    ensures k >= 1 ==> mask / 2 == Pow2(k - 1)
  {
    if k >= 1 {
      Pow2Half(k);
    }
  }

  /** Shifting the open flag byte and writing the token chosen at rp. */
  method PutToken(raw: array<Byte>, pak: array<Byte>, pp: nat, flg: nat, rp: nat, l: nat, p: nat, best: bool,
                  ghost done: seq<Token>, ghost cur: seq<Token>, ghost t: Token)
    returns (pp': nat, rp': nat)
    requires raw != pak && rp < raw.Length && (l, p) == Choose(raw[..], rp, best)
    requires t == NextToken(raw[..], rp, best)
    requires GroupOpen(pak[..], pp, flg, done, cur) && |cur| < 8
    requires |Pack(done) + OpenGroup(cur + [t])| <= pak.Length
    modifies pak
    ensures rp' == rp + Span(t)
    ensures GroupOpen(pak[..], pp', flg, done, cur + [t])
  {
    ghost var A := pak[..];
    OpenFlagByte(A, pp, Pack(done), cur);
    Pow2Monotone(|cur|, 7);
    Pow2Byte();
    ghost var v: Byte := 2 * FlagBits(cur) + FlagBit(t);
    GrowLength(A, pp, flg, done, cur, t);
    ChosenToken(raw[..], rp, best, l, p);
    assert pak[..pp] == A[..pp] && pak[flg] == FlagBits(cur);
    pp', rp' := Emit(raw, pak, flg, pp, rp, l, p, t, v);
    Grown(A, pak[..], pp, pp', flg, done, cur, t, v);
  }

  lemma GrowLength(A: seq<Byte>, pp: nat, flg: nat, done: seq<Token>, cur: seq<Token>, t: Token)
    requires GroupOpen(A, pp, flg, done, cur) && |cur| < 8
    ensures |Pack(done) + OpenGroup(cur + [t])| == pp + |TokenBytes(t)|
  {
    PayloadSnoc(cur, t);
  }

  /** The open group after Emit has one more token. */
  lemma Grown(A: seq<Byte>, B: seq<Byte>, pp: nat, pp': nat, flg: nat, done: seq<Token>, cur: seq<Token>, t: Token, v: Byte)
    requires GroupOpen(A, pp, flg, done, cur) && |cur| < 8 && v == 2 * FlagBits(cur) + FlagBit(t)
    requires pp' == pp + |TokenBytes(t)| <= |B| && B[..pp'] == A[..pp][flg := v] + TokenBytes(t)
    ensures GroupOpen(B, pp', flg, done, cur + [t])
  {
    GrowGroup(Pack(done), cur, t, v);
  }

  /** `while (mask && mask != 1) { mask >>= 1; *flg <<= 1; }`: the shifts that
      move the bits of a last, short group up to bit 7. */
  method ShiftFlags(pak: array<Byte>, flg: nat, mask: nat, ghost pp: nat, ghost done: seq<Token>, ghost cur: seq<Token>)
    requires flg < pak.Length && (cur == [] ==> mask == 0)
    requires cur != [] ==> GroupOpen(pak[..], pp, flg, done, cur) && mask == Pow2(8 - |cur|)
    modifies pak
    ensures cur != [] ==> pp <= pak.Length && pak[..pp] == Pack(done) + [FlagByte(cur)] + Payload(cur)
  {
    ghost var c := |cur|;
    ghost var F := FlagBits(cur);
    ghost var A := pak[..];
    if cur != [] {
      OpenFlagByte(A, pp, Pack(done), cur);
    }
    ShiftFlag(pak, flg, mask, F, c);
    if cur != [] {
      ClosedGroup(A, pak[..], pp, Pack(done), cur);
    }
  }

  /** The open flag byte holds the bits of the open group. */
  lemma OpenFlagByte(A: seq<Byte>, pp: nat, P: seq<Byte>, cur: seq<Token>)
    requires |cur| <= 8 && |P| < pp <= |A| && A[..pp] == P + OpenGroup(cur)
    ensures A[|P|] == FlagBits(cur)
  {
    assert A[..pp][|P|] == FlagBits(cur);
  }

  /** Replacing the open flag byte by the complete one closes the group. */
  lemma ClosedGroup(A: seq<Byte>, B: seq<Byte>, pp: nat, P: seq<Byte>, cur: seq<Token>)
    requires |cur| <= 8 && |P| < pp <= |A| && A[..pp] == P + OpenGroup(cur)
    requires B == A[|P| := FlagByte(cur)]
    ensures pp <= |B| && B[..pp] == P + [FlagByte(cur)] + Payload(cur)
  {
    Pow2Monotone(|cur|, 8);
    Pow2Byte();
    var x: Byte := FlagBits(cur);
    UpdatePrefix(A, pp, |P|, FlagByte(cur));
    Assoc(P, [x], Payload(cur));
    UpdateAfter(P, x, Payload(cur), FlagByte(cur));
  }

  /** The loop itself, for a flag byte holding the c bits F. */
  method ShiftFlag(pak: array<Byte>, flg: nat, mask: nat, ghost F: nat, ghost c: nat)
    requires c <= 8 && flg < pak.Length && (c == 0 ==> mask == 0)
    requires c >= 1 ==> pak[flg] == F < Pow2(c) && mask == Pow2(8 - c)
    modifies pak
    ensures pak[..] == if c >= 1 then old(pak[..])[flg := Shl(F, 8 - c)] else old(pak[..])
  {
    var m := mask;
    ghost var e: nat := 8 - c;
    assert Shl(F, 0) == F;
    while m != 0 && m != 1
      invariant c == 0 ==> m == 0 && pak[..] == old(pak[..])
      invariant c >= 1 ==> e <= 8 - c && m == Pow2(e)
      invariant c >= 1 ==> pak[flg] == Shl(F, 8 - c - e) < Pow2(8 - e)
      invariant c >= 1 ==> pak[..] == old(pak[..])[flg := pak[flg]]
      decreases m
    {
      ShiftStep(m, e, pak[flg]);
      assert Shl(F, 8 - c - e + 1) == 2 * Shl(F, 8 - c - e);
      ghost var x := pak[flg];
      m := m / 2;
      pak[flg] := pak[flg] * 2 % 0x100;
      e := e - 1;
      if c >= 1 {
        UpdateTwice(old(pak[..]), flg, x, pak[flg]);
      }
    }
    assert c >= 1 ==> e == 0;
  }

  /** One shift of the mask and of the flag byte: the mask has further to go,
      and the shifted flag byte still fits in a byte. */
  lemma ShiftStep(m: nat, e: nat, x: nat)
    requires e <= 8 && m == Pow2(e) && m != 1 && x < Pow2(8 - e)
    ensures e >= 1 && m / 2 == Pow2(e - 1) && 2 * x < Pow2(8 - e + 1) <= 0x100 && (2 * x) % 0x100 == 2 * x
  {
    Pow2Monotone(8 - e + 1, 8);
    Pow2Byte();
  }

  /** What the token loop of BLZ_Code keeps after the tokens done + cur: their
      packed stream with the last group open at flg, the rp input bytes they
      consume, and what they say about the rest of the input. */
  ghost predicate Progress(s: seq<Byte>, best: bool, buf: seq<Byte>, pp: nat, flg: nat, mask: nat, rp: nat,
                           done: seq<Token>, cur: seq<Token>, pt: nat, rt: nat)
  {
    && Buffered(buf, pp, flg, mask, done, cur)
    && pp == |Pack(done + cur)|
    && rp == Consumed(done + cur)
    && Scanned(s, best, done + cur, pt, rt)
  }

  /** The state of pak, flg and mask: nothing written yet, or whole groups and
      an open group whose next flag bit is the one below mask. */
  ghost predicate Buffered(buf: seq<Byte>, pp: nat, flg: nat, mask: nat, done: seq<Token>, cur: seq<Token>)
  {
    && |done| % 8 == 0 && |cur| <= 8
    && (cur == [] ==> done == [] && mask == 0 && pp == 0 && flg == 0)
    && (cur != [] ==> GroupOpen(buf, pp, flg, done, cur) && mask == Pow2(8 - |cur|))
  }

  /** The tokens D over the input s: they lie within it, the tokens still to
      come follow them, and pt, rt are the kept lengths of the cheapest split
      among them. */
  ghost predicate Scanned(s: seq<Byte>, best: bool, D: seq<Token>, pt: nat, rt: nat)
  {
    var n := |s|;
    var k := SplitPoint(n, D);
    && Consumed(D) <= n
    && |Pack(D)| <= n + (n + 7) / 8
    && Tokenize(s, best, 0) == D + Tokenize(s, best, Consumed(D))
    && pt == |Pack(D[..k])| && rt == n - Consumed(D[..k]) && pt + rt == Cost(n, D, k)
  }

  /** One pass of the token loop: the next flag bit, the match decision, the
      token's bytes, and the running minimum `pak_tmp`, `raw_tmp`. */
  method Step(raw: array<Byte>, pak: array<Byte>, best: bool, pp: nat, flg: nat, mask: nat, rp: nat, pt: nat, rt: nat,
              ghost done: seq<Token>, ghost cur: seq<Token>)
    returns (pp': nat, flg': nat, mask': nat, rp': nat, pt': nat, rt': nat, ghost done': seq<Token>, ghost cur': seq<Token>)
    requires raw != pak && pak.Length == raw.Length + (raw.Length + 7) / 8 + 11
    requires rp < raw.Length && Progress(raw[..], best, pak[..], pp, flg, mask, rp, done, cur, pt, rt)
    modifies pak
    ensures rp < rp' && Progress(raw[..], best, pak[..], pp', flg', mask', rp', done', cur', pt', rt')
  {
    ghost var s := raw[..];
    ghost var D := done + cur;
    ghost var t := NextToken(s, rp, best);
    NextTokenSpan(s, rp, best);
    TokenCount(D, t, rp);
    pp', flg', mask', rp', done', cur' := Write(raw, pak, best, pp, flg, mask, rp, done, cur, D, t);
    pt', rt' := Track(s, best, D, t, rp, raw.Length, rp', pp', pt, rt);
  }

  /** NextFlag, then the match decision and the token's bytes. */
  method Write(raw: array<Byte>, pak: array<Byte>, best: bool, pp: nat, flg: nat, mask: nat, rp: nat,
               ghost done: seq<Token>, ghost cur: seq<Token>, ghost D: seq<Token>, ghost t: Token)
    returns (pp': nat, flg': nat, mask': nat, rp': nat, ghost done': seq<Token>, ghost cur': seq<Token>)
    requires raw != pak && rp < raw.Length && t == NextToken(raw[..], rp, best)
    requires Buffered(pak[..], pp, flg, mask, done, cur) && D == done + cur && pp == |Pack(D)|
    requires pp < pak.Length && |Pack(D + [t])| < pak.Length
    modifies pak
    ensures Buffered(pak[..], pp', flg', mask', done', cur') && done' + cur' == D + [t]
    ensures pp' == |Pack(D + [t])| && rp' == rp + Span(t)
  {
    ghost var c: seq<Token>;
    pp', flg', mask', done', c := NextFlag(pak, pp, flg, mask, done, cur);
    var l, p := Choice(raw, rp, best);
    BufferStep(done', c, D, t);
    pp', rp' := PutToken(raw, pak, pp', flg', rp, l, p, best, done', c, t);
    cur' := c + [t];
    Reopened(pak[..], pp', flg', mask', done', c, t);
  }

  /** After one more token the open group is the buffered state. */
  lemma Reopened(buf: seq<Byte>, pp: nat, flg: nat, mask: nat, done: seq<Token>, c: seq<Token>, t: Token)
    requires |c| < 8 && mask == Pow2(7 - |c|) && GroupOpen(buf, pp, flg, done, c + [t])
    ensures Buffered(buf, pp, flg, mask, done, c + [t])
  {
    assert |c + [t]| == |c| + 1;
  }

  /** `if (pak_tmp + raw_tmp > pak - pak_buffer + raw_end - raw)`: the running
      minimum after one more token, whose packed stream is pp bytes long and
      after which rp' input bytes are consumed. */
  method Track(ghost s: seq<Byte>, best: bool, ghost D: seq<Token>, ghost t: Token, ghost rp: nat,
               n: nat, rp': nat, pp: nat, pt: nat, rt: nat)
    returns (pt': nat, rt': nat)
    requires rp == Consumed(D) < |s| == n && t == NextToken(s, rp, best) && Scanned(s, best, D, pt, rt)
    requires pp == |Pack(D + [t])| && rp' == rp + Span(t) <= n
    ensures Scanned(s, best, D + [t], pt', rt')
  {
    TokenizeStep(s, best, rp, t);
    TokenStep(s, best, D, t, rp);
    PackStep(D, t, rp, n);
    if pp + n - rp' < pt + rt {
      pt', rt' := pp, n - rp';
      ScannedMove(s, best, D, t, pt, rt);
    } else {
      pt', rt' := pt, rt;
      ScannedKeep(s, best, D, t, pt, rt);
    }
  }

  /** A token whose split is strictly cheaper becomes the kept split. */
  lemma ScannedMove(s: seq<Byte>, best: bool, D: seq<Token>, t: Token, pt: nat, rt: nat)
    requires Scanned(s, best, D, pt, rt) && Consumed(D + [t]) <= |s|
    requires |Pack(D + [t])| <= |s| + (|s| + 7) / 8
    requires Tokenize(s, best, 0) == D + [t] + Tokenize(s, best, Consumed(D + [t]))
    requires |Pack(D + [t])| + |s| - Consumed(D + [t]) < pt + rt
    ensures Scanned(s, best, D + [t], |Pack(D + [t])|, |s| - Consumed(D + [t]))
  {
    SplitPointStep(|s|, D, t, pt, rt);
  }

  /** Otherwise the kept split stays where it was. */
  lemma ScannedKeep(s: seq<Byte>, best: bool, D: seq<Token>, t: Token, pt: nat, rt: nat)
    requires Scanned(s, best, D, pt, rt) && Consumed(D + [t]) <= |s|
    requires |Pack(D + [t])| <= |s| + (|s| + 7) / 8
    requires Tokenize(s, best, 0) == D + [t] + Tokenize(s, best, Consumed(D + [t]))
    requires |Pack(D + [t])| + |s| - Consumed(D + [t]) >= pt + rt
    ensures Scanned(s, best, D + [t], pt, rt)
  {
    SplitPointStep(|s|, D, t, pt, rt);
  }

  /** The token loop and the trailing flag shifts of BLZ_Code over the inverted
      input raw: pak receives the packed stream of the tokens, and pt, rt are
      the kept lengths `pak_tmp`, `raw_tmp`. */
  method Compress(raw: array<Byte>, pak: array<Byte>, best: bool) returns (pp: nat, pt: nat, rt: nat)
    requires raw != pak && pak.Length == raw.Length + (raw.Length + 7) / 8 + 11
    modifies pak
    ensures var T := Tokenize(raw[..], best, 0);
      var k := SplitPoint(raw.Length, T);
      && pp <= pak.Length
      && pak[..pp] == Pack(T)
      && pt == |Pack(T[..k])| && rt == raw.Length - Consumed(T[..k])
  {
    ghost var s := raw[..];
    var n := raw.Length;
    ghost var done: seq<Token> := [];
    ghost var cur: seq<Token> := [];
    pt, rt := 0, n;
    pp := 0;
    var rp: nat := 0;
    var flg: nat := 0;
    var mask: nat := 0;
    assert Cost(n, [], 0) == n;
    while rp < n
      invariant s == raw[..]
      invariant Progress(s, best, pak[..], pp, flg, mask, rp, done, cur, pt, rt)
      decreases n - rp
    {
      pp, flg, mask, rp, pt, rt, done, cur := Step(raw, pak, best, pp, flg, mask, rp, pt, rt, done, cur);
    }
    ShiftFlags(pak, flg, mask, pp, done, cur);
    if cur != [] {
      PackAppend(done, cur);
    }
    assert Tokenize(s, best, rp) == [];
    assert done + cur + [] == done + cur;
  }

  /** `pak_tmp`, `raw_tmp` after one more token: the running minimum moves to the
      new token boundary exactly when its cost is strictly smaller. */
  lemma SplitPointStep(n: nat, D: seq<Token>, t: Token, pt: nat, rt: nat)
    requires var k := SplitPoint(n, D);
      pt == |Pack(D[..k])| && rt == n - Consumed(D[..k]) && pt + rt == Cost(n, D, k)
    ensures var D' := D + [t];
      var k' := SplitPoint(n, D');
      var c := |Pack(D')| + n - Consumed(D');
      && (c < pt + rt ==> k' == |D'| && D'[..k'] == D' && Cost(n, D', k') == c)
      && (c >= pt + rt ==> k' == SplitPoint(n, D) && D'[..k'] == D[..k'] && Cost(n, D', k') == pt + rt)
  {
    var D' := D + [t];
    var k := SplitPoint(n, D);
    SplitPointSnoc(n, D, t);
    CostPrefix(n, D', |D|, k);
    assert D'[..|D|] == D;
    assert D'[..|D'|] == D';
    assert D'[..k] == D[..k];
  }

  /** One more token: the tokens still to come follow it. */
  lemma TokenStep(s: seq<Byte>, best: bool, D: seq<Token>, t: Token, c: nat)
    requires c + Span(t) <= |s| && Tokenize(s, best, c) == [t] + Tokenize(s, best, c + Span(t))
    requires c == Consumed(D) && Tokenize(s, best, 0) == D + Tokenize(s, best, Consumed(D))
    ensures Consumed(D + [t]) == c + Span(t)
    ensures Tokenize(s, best, 0) == D + [t] + Tokenize(s, best, Consumed(D + [t]))
  {
    ConsumedSnoc(D, t);
    ConsRegroup(D, t, Tokenize(s, best, 0), Tokenize(s, best, Consumed(D)), Tokenize(s, best, Consumed(D + [t])));
  }

  lemma ConsumedSnoc(D: seq<Token>, t: Token)
    ensures Consumed(D + [t]) == Consumed(D) + Span(t)
  {
    assert (D + [t])[..|D|] == D;
  }

  /** The stream of the tokens so far stays within the bound on the stream of
      all of them. */
  lemma PackStep(D: seq<Token>, t: Token, c: nat, n: nat)
    requires c == Consumed(D) && c + Span(t) <= n
    ensures |Pack(D + [t])| <= n + (n + 7) / 8
  {
    TokenCount(D, t, c);
    PackBoundMono(c + Span(t), n);
  }

  lemma PackBoundMono(x: nat, y: nat)
    requires x <= y
    ensures x + (x + 7) / 8 <= y + (y + 7) / 8
  {
  }

  lemma TokenCount(D: seq<Token>, t: Token, c: nat)
    requires c == Consumed(D)
    ensures Consumed(D + [t]) == c + Span(t)
    ensures |Pack(D + [t])| <= c + Span(t) + (c + Span(t) + 7) / 8
  {
    assert (D + [t])[..|D|] == D;
    PackBound(D + [t]);
  }

  /** The open group after one more token, against all the tokens so far. */
  lemma BufferStep(done: seq<Token>, cur: seq<Token>, D: seq<Token>, t: Token)
    requires done + cur == D && |done| % 8 == 0 && |cur| < 8
    ensures done + (cur + [t]) == D + [t]
    ensures |Pack(done) + OpenGroup(cur + [t])| == |Pack(D + [t])|
  {
    Assoc(done, cur, [t]);
    OpenGroupLength(done, cur + [t]);
  }
  /** `*(unsigned int *)(a + i) = x` on a little-endian machine. */
  method Store32(a: array<Byte>, i: nat, x: nat)
    requires i + 4 <= a.Length && x < WORD
    modifies a
    ensures a[..i + 4] == old(a[..i]) + LE32(x)
  {
    assert x / 0x100 / 0x100 / 0x100 < 0x100;
    a[i] := x % 0x100;
    a[i + 1] := x / 0x100 % 0x100;
    a[i + 2] := x / 0x100 / 0x100 % 0x100;
    a[i + 3] := x / 0x100 / 0x100 / 0x100;
  }

  /** The stored layout, written over the scratch buffer: the input, zero bytes
      while the length is not a multiple of four, and a zero word. */
  method WriteStored(raw: array<Byte>, pak: array<Byte>) returns (len: nat)
    requires raw != pak && RoundUp4(raw.Length) + 4 <= pak.Length
    modifies pak
    ensures len <= pak.Length && pak[..len] == StoredLayout(raw[..])
  {
    var i := 0;
    while i < raw.Length
      invariant i <= raw.Length && pak[..i] == raw[..i]
    {
      pak[i] := raw[i];
      i := i + 1;
    }
    assert raw[..i] == raw[..];
    while i % 4 != 0
      invariant raw.Length <= i <= RoundUp4(raw.Length)
      decreases RoundUp4(raw.Length) - i
      invariant pak[..i] == raw[..] + Zeros(i - raw.Length)
    {
      pak[i] := 0;
      assert Zeros(i + 1 - raw.Length) == Zeros(i - raw.Length) + [0];
      i := i + 1;
    }
    RoundUp4Reached(raw.Length, i);
    Store32(pak, i, 0);
    len := i + 4;
    assert LE32(0) == Zeros(4);
  }

  /** A multiple of four between x and its rounding up is the rounding up. */
  lemma RoundUp4Reached(x: nat, i: nat)
    requires x <= i <= RoundUp4(x) && i % 4 == 0
    ensures i == RoundUp4(x)
  {
  }

  /** The headered layout, written into a fresh zeroed buffer of
      `raw_tmp + pak_tmp + 11` bytes: the first rt input bytes, the last pt
      bytes of the inverted stream pak[..pp], then the trailer. */
  method WriteHeadered(raw: array<Byte>, pak: array<Byte>, pp: nat, pt: nat, rt: nat)
    returns (tmp: array<Byte>, len: nat)
    requires pt <= pp <= pak.Length && rt <= raw.Length
    ensures fresh(tmp)
    ensures len <= tmp.Length && tmp[..len] == HeaderedLayout(raw[..rt], pak[pp - pt..pp], raw.Length)
  {
    tmp := new Byte[rt + pt + 11](_ => 0);
    ghost var prefix, seg := raw[..rt], pak[pp - pt..pp];
    assert tmp[..0] == [] && raw[0..rt] == prefix;
    Copy(tmp, raw, 0, 0, rt);
    Copy(tmp, pak, pp - pt, rt, pt);
    ghost var body := tmp[..rt + pt];
    assert body == prefix + seg;
    var enc := pt;
    var inc := (raw.Length - pt - rt) % WORD;
    var q, hdr := Pad(tmp, rt + pt);
    ghost var padded := tmp[..q];
    len := Fields(tmp, q, enc, hdr, inc);
    HeaderedBuilt(prefix, seg, raw.Length, body, padded, tmp[..len], hdr, inc);
  }

  /** The bytes the headered writer assembles are the headered layout. */
  lemma HeaderedBuilt(prefix: seq<Byte>, seg: seq<Byte>, n: nat, body: seq<Byte>, padded: seq<Byte>,
                      out: seq<Byte>, hdr: nat, inc: nat)
    requires body == prefix + seg && inc == (n - |seg| - |prefix|) % WORD
    requires hdr == 8 + RoundUp4(|body|) - |body| && padded == body + Ones(hdr - 8)
    requires out == padded + LE32((|seg| + hdr) % WORD)[..3] + [hdr] + LE32((inc - hdr) % WORD)
    ensures out == HeaderedLayout(prefix, seg, n)
  {
    ModSub(n - |seg| - |prefix|, hdr);
  }

  /** `for (len = 0; len < count; len++) dst[to + len] = src[from + len];` */
  method Copy(dst: array<Byte>, src: array<Byte>, from: nat, to: nat, count: nat)
    requires dst != src && from + count <= src.Length && to + count <= dst.Length
    modifies dst
    ensures dst[..to + count] == old(dst[..to]) + src[from..from + count]
  {
    var i := 0;
    while i < count
      invariant i <= count && dst[..to + i] == old(dst[..to]) + src[from..from + i]
    {
      dst[to + i] := src[from + i];
      assert src[from..from + i + 1] == src[from..from + i] + [src[from + i]];
      i := i + 1;
    }
  }

  /** `while ((pak - pak_buffer) & 3) { *pak++ = 0xFF; hdr_len++; }` from the
      offset q, with `hdr_len` starting at 8. */
  method Pad(tmp: array<Byte>, q: nat) returns (q': nat, hdr: nat)
    requires RoundUp4(q) <= tmp.Length
    modifies tmp
    ensures q' == RoundUp4(q) && hdr == 8 + q' - q
    ensures tmp[..q'] == old(tmp[..q]) + Ones(q' - q)
  {
    q', hdr := q, 8;
    while q' % 4 != 0
      invariant q <= q' <= RoundUp4(q) && hdr == 8 + q' - q
      invariant tmp[..q'] == old(tmp[..q]) + Ones(q' - q)
      decreases RoundUp4(q) - q'
    {
      tmp[q'] := 0xFF;
      assert Ones(q' + 1 - q) == Ones(q' - q) + [0xFF];
      q' := q' + 1;
      hdr := hdr + 1;
    }
    RoundUp4Reached(q, q');
  }

  /** The three trailer stores at q: `enc_len + hdr_len` as a word whose fourth
      byte the byte `hdr_len` then overwrites, and the word `inc_len - hdr_len`. */
  method Fields(tmp: array<Byte>, q: nat, enc: nat, hdr: nat, inc: nat) returns (len: nat)
    requires q + 8 <= tmp.Length && hdr < 0x100
    modifies tmp
    ensures len == q + 8
    ensures tmp[..len] == old(tmp[..q]) + LE32((enc + hdr) % WORD)[..3] + [hdr] + LE32((inc - hdr) % WORD)
  {
    ghost var padded := tmp[..q];
    Store32(tmp, q, (enc + hdr) % WORD);
    tmp[q + 3] := hdr;
    ghost var fields := tmp[..q + 4];
    Store32(tmp, q + 4, (inc - hdr) % WORD);
    len := q + 8;
    Trailer(padded, fields, tmp[..len], (enc + hdr) % WORD, hdr, (inc - hdr) % WORD);
  }

  /** Subtracting after reducing modulo 2^32 is subtracting then reducing. */
  lemma ModSub(a: int, b: int)
    ensures (a % WORD - b) % WORD == (a - b) % WORD
  {
    var q := a / WORD;
    assert a == q * WORD + a % WORD;
    ModShift(a % WORD - b, q);
  }

  lemma ModShift(x: int, q: int)
    ensures (x + q * WORD) % WORD == x % WORD
  {
    DivUnique(x + q * WORD, WORD, x / WORD + q, x % WORD);
  }

  /** The three trailer stores: a word whose fourth byte the hdr byte then
      overwrites, and the final word. */
  lemma Trailer(padded: seq<Byte>, fields: seq<Byte>, out: seq<Byte>, e: nat, h: Byte, i: nat)
    requires e < WORD && i < WORD
    requires |fields| == |padded| + 4 && fields[..|padded| + 3] == padded + LE32(e)[..3] && fields[|padded| + 3] == h
    requires |out| == |fields| + 4 && out == fields + LE32(i)
    ensures out == padded + LE32(e)[..3] + [h] + LE32(i)
  {
    assert fields == fields[..|padded| + 3] + [h];
  }

  /** BLZ_Code: a new output buffer and its length `*new_len`, and the input
      buffer is restored to its original contents. The layout test is the one
      at line 250 as written; RoundTrip.CodeAgrees says where it gives the
      corrected CodeOutput. */
  method Code(raw: array<Byte>, best: bool) returns (buf: array<Byte>, newLen: nat)
    modifies raw
    ensures fresh(buf) && raw[..] == old(raw[..])
    ensures newLen <= buf.Length && buf[..newLen] == CodeOutputAsWritten(raw[..], best)
  {
    var pak, pp, pt, rt := Provisional(raw, best);
    ghost var P := MakePlan(raw[..], best);
    buf, newLen := Finish(raw, pak, pp, pt, rt, P.stream);
  }

  /** The layout choice and the chosen writer, for the inverted stream in
      pak[..pp] and the kept lengths pt, rt. */
  method Finish(raw: array<Byte>, pak: array<Byte>, pp: nat, pt: nat, rt: nat, ghost stream: seq<Byte>)
    returns (buf: array<Byte>, newLen: nat)
    requires raw != pak && pak.Length == raw.Length + (raw.Length + 7) / 8 + 11
    requires pp == |stream| <= pak.Length && pak[..pp] == Reversed(stream)
    requires pt <= pp && rt <= raw.Length
    modifies pak
    ensures buf == pak || fresh(buf)
    ensures newLen <= buf.Length && buf[..newLen] == LayoutAsWritten(raw[..], stream, pt, rt)
  {
    var n := raw.Length;
    if pt == 0 || n + 4 < RoundUp4(pt + rt) + 8 {
      newLen := WriteStored(raw, pak);
      buf := pak;
    } else {
      assert pak[pp - pt..pp] == pak[..pp][pp - pt..];
      buf, newLen := WriteHeadered(raw, pak, pp, pt, rt);
    }
  }

  /** The part of BLZ_Code before the layout choice: invert the input, run the
      token loop, invert the input back and invert the stream. */
  method Provisional(raw: array<Byte>, best: bool) returns (pak: array<Byte>, pp: nat, pt: nat, rt: nat)
    modifies raw
    ensures fresh(pak) && raw[..] == old(raw[..])
    ensures pak.Length == raw.Length + (raw.Length + 7) / 8 + 11
    ensures var P := MakePlan(raw[..], best);
      && pp == |P.stream| <= pak.Length && pak[..pp] == Reversed(P.stream)
      && pt == P.pakTmp && rt == P.rawTmp
  {
    ghost var s := raw[..];
    var n := raw.Length;
    pak := new Byte[n + (n + 7) / 8 + 11](_ => 0);
    pp, pt, rt := Scan(raw, pak, best);
    ghost var stream := pak[..pp];
    CompressIsPlan(s, best, stream, pt, rt);
    InvertedStart(pak[..], pp);
    Invert(pak, 0, pp);
  }

  /** The token loop over the inverted input, which is then inverted back. */
  method Scan(raw: array<Byte>, pak: array<Byte>, best: bool) returns (pp: nat, pt: nat, rt: nat)
    requires raw != pak && pak.Length == raw.Length + (raw.Length + 7) / 8 + 11
    modifies raw, pak
    ensures raw[..] == old(raw[..])
    ensures var T := Tokenize(Reversed(raw[..]), best, 0);
      var k := SplitPoint(raw.Length, T);
      && pp <= pak.Length
      && pak[..pp] == Pack(T)
      && pt == |Pack(T[..k])| && rt == raw.Length - Consumed(T[..k])
  {
    ghost var s := raw[..];
    var n := raw.Length;
    Invert(raw, 0, n);
    InvertedWhole(s);
    pp, pt, rt := Compress(raw, pak, best);
    Invert(raw, 0, n);
    InvertedWhole(Reversed(s));
    ReversedTwice(s);
  }

  /** What the token loop computes over the inverted input is the plan. */
  lemma CompressIsPlan(s: seq<Byte>, best: bool, stream: seq<Byte>, pt: nat, rt: nat)
    requires var T := Tokenize(Reversed(s), best, 0);
      var k := SplitPoint(|s|, T);
      stream == Pack(T) && pt == |Pack(T[..k])| && rt == |s| - Consumed(T[..k])
    ensures var P := MakePlan(s, best);
      stream == P.stream && pt == P.pakTmp && rt == P.rawTmp
  {
  }

  /** BLZ_Encode: the buffer of BLZ_Code when it is shorter than
      `BLZ_MAXIM + 1` bytes, otherwise no buffer and the length `BLZ_MAXIM + 1`. */
  method Encode(raw: array<Byte>, best: bool) returns (buf: array?<Byte>, len: nat)
    modifies raw
    ensures raw[..] == old(raw[..])
    ensures var r := CodeOutputAsWritten(raw[..], best);
      && (|r| <= BLZ_MAXIM ==> buf != null && len == |r| <= buf.Length && buf[..len] == r)
      && (|r| > BLZ_MAXIM ==> buf == null && len == BLZ_MAXIM + 1)
  {
    buf := null;
    var pakLen := BLZ_MAXIM + 1;
    var newBuf, newLen := Code(raw, best);
    if newLen < pakLen {
      buf := newBuf;
      pakLen := newLen;
    }
    len := pakLen;
  }

  /** Inverting the whole buffer reverses it. */
  lemma InvertedWhole(s: seq<Byte>)
    ensures InvertedRange(s, 0, |s|) == Reversed(s)
  {
    assert s[..0] == [] && s[|s|..] == [] && s[0..|s|] == s;
  }

  /** The first k bytes after inverting them. */
  lemma InvertedStart(A: seq<Byte>, k: nat)
    requires k <= |A|
    ensures InvertedRange(A, 0, k)[..k] == Reversed(A[..k])
  {
    assert A[..0] == [] && A[0..k] == A[..k];
  }
}
