/** The SEARCH macro of BLZ_Code: the longest back-reference at the current
    position of the (reversed) input, over distances 3 .. min(position, 0x1002). */
module Search {
  import opened Bytes
  import opened Tokens

  /** The largest distance SEARCH tries at consumed offset c. */
  function Window(c: nat): (w: nat)
    ensures w <= c && w <= MAX_OFFSET
  {
    if c >= MAX_OFFSET then MAX_OFFSET else c
  }

  /** `IsMatch(s, c, pos, len)`: the len bytes at c repeat the bytes pos back, and
      the source of the copy lies wholly before c. */
  predicate IsMatch(s: seq<Byte>, c: nat, pos: nat, len: nat)
    requires pos <= c
  {
    len <= pos && c + len <= |s| && Repeats(s, c, pos, len)
  }

  /** A match, byte by byte. */
  lemma IsMatchBytes(s: seq<Byte>, c: nat, pos: nat, len: nat)
    requires pos <= c && IsMatch(s, c, pos, len)
    ensures forall j :: c <= j < c + len ==> s[j] == s[j - pos]
  {
    forall j | c <= j < c + len ensures s[j] == s[j - pos] {
      RepeatsAt(s, c, pos, len, j);
    }
  }

  /** The inner loop of SEARCH for distance pos, from length len on: it stops at
      BLZ_F, at the end of the input, at the distance itself, or at a mismatch. */
  function MatchFrom(s: seq<Byte>, c: nat, pos: nat, len: nat): (r: nat)
    requires 1 <= pos <= c && c + len <= |s| && len <= MAX_CODED
    ensures len <= r <= MAX_CODED
    decreases MAX_CODED - len
  {
    if len < MAX_CODED && c + len < |s| && len < pos && s[c + len] == s[c + len - pos]
    then MatchFrom(s, c, pos, len + 1)
    else len
  }

  lemma {:induction false} MatchFromFacts(s: seq<Byte>, c: nat, pos: nat, len: nat)
    requires 1 <= pos <= c <= |s| && len <= MAX_CODED && IsMatch(s, c, pos, len)
    ensures var r := MatchFrom(s, c, pos, len);
      && IsMatch(s, c, pos, r)
      && (r == MAX_CODED || c + r == |s| || r == pos || s[c + r] != s[c + r - pos])
    decreases MAX_CODED - len
  {
    if len < MAX_CODED && c + len < |s| && len < pos && s[c + len] == s[c + len - pos] {
      MatchFromFacts(s, c, pos, len + 1);
    }
  }

  /** The length the inner loop of SEARCH reaches for distance pos. */
  function MatchLength(s: seq<Byte>, c: nat, pos: nat): (r: nat)
    requires 1 <= pos <= c <= |s|
    ensures r <= MAX_CODED
  {
    MatchFrom(s, c, pos, 0)
  }

  /** The inner loop's length is a match that cannot be extended: it has reached
      BLZ_F, the end of the input, the distance itself, or a differing byte. */
  lemma MatchLengthFacts(s: seq<Byte>, c: nat, pos: nat)
    requires 1 <= pos <= c <= |s|
    ensures var r := MatchLength(s, c, pos);
      && IsMatch(s, c, pos, r)
      && (r == MAX_CODED || c + r == |s| || r == pos || s[c + r] != s[c + r - pos])
  {
    MatchFromFacts(s, c, pos, 0);
  }

  /** The inner loop's length is the longest match at that distance, up to BLZ_F. */
  lemma MatchLengthIsLongest(s: seq<Byte>, c: nat, pos: nat, len: nat)
    requires 1 <= pos <= c <= |s| && len <= MAX_CODED && IsMatch(s, c, pos, len)
    ensures len <= MatchLength(s, c, pos)
  {
    MatchLengthFacts(s, c, pos);
    IsMatchBytes(s, c, pos, len);
  }

  /** The outer loop of SEARCH from distance pos on, with best length l at the
      first distance p reaching it; it stops early once a length reaches BLZ_F. */
  function SearchFrom(s: seq<Byte>, c: nat, pos: nat, l: nat, p: nat): (r: (nat, nat))
    requires c <= |s| && 3 <= pos && THRESHOLD <= l < MAX_CODED
    requires l > THRESHOLD ==> 3 <= p < pos && p <= Window(c) && MatchLength(s, c, p) == l
    ensures l <= r.0 <= MAX_CODED
    ensures r.0 > THRESHOLD ==> 3 <= r.1 <= Window(c) && MatchLength(s, c, r.1) == r.0
    decreases Window(c) + 1 - pos
  {
    if pos > Window(c) then (l, p)
    else
      var len := MatchLength(s, c, pos);
      if len > l then
        if len == MAX_CODED then (len, pos) else SearchFrom(s, c, pos + 1, len, pos)
      else SearchFrom(s, c, pos + 1, l, p)
  }

  /** SEARCH at consumed offset c: (length, distance). A length of 2 means no usable
      match; the distance is then meaningless (0 here; C leaves the variable as it was). */
  function BestMatch(s: seq<Byte>, c: nat): (r: (nat, nat))
    requires c <= |s|
    ensures THRESHOLD <= r.0 <= MAX_CODED
    ensures r.0 > THRESHOLD ==> 3 <= r.1 <= Window(c)
  {
    SearchFrom(s, c, 3, THRESHOLD, 0)
  }

  /** A usable match reported by SEARCH is a match: l <= p, it fits in what is
      left of the input, and the l bytes at c repeat those p back. */
  lemma BestMatchIsMatch(s: seq<Byte>, c: nat)
    requires c <= |s|
    ensures var r := BestMatch(s, c);
      r.0 > THRESHOLD ==> IsMatch(s, c, r.1, r.0)
  {
    var r := BestMatch(s, c);
    if r.0 > THRESHOLD {
      MatchLengthFacts(s, c, r.1);
    }
  }

  /** One iteration of the outer loop of SEARCH. */
  lemma SearchFromStep(s: seq<Byte>, c: nat, pos: nat, l: nat, p: nat)
    requires c <= |s| && 3 <= pos <= Window(c) && THRESHOLD <= l < MAX_CODED
    requires l > THRESHOLD ==> 3 <= p < pos && p <= Window(c) && MatchLength(s, c, p) == l
    ensures var len := MatchLength(s, c, pos);
      && (len > l && len == MAX_CODED ==> SearchFrom(s, c, pos, l, p) == (len, pos))
      && (len > l && len < MAX_CODED ==> SearchFrom(s, c, pos, l, p) == SearchFrom(s, c, pos + 1, len, pos))
      && (len <= l ==> SearchFrom(s, c, pos, l, p) == SearchFrom(s, c, pos + 1, l, p))
  {
  }

  /** No distance from 3 up to pos - 1 (within the window) matches longer than l. */
  predicate NoLonger(s: seq<Byte>, c: nat, pos: nat, l: nat)
    requires c <= |s|
  {
    forall q :: 3 <= q < pos && q <= Window(c) ==> MatchLength(s, c, q) <= l
  }
  /** Every distance below p matches shorter than l. */
  predicate FirstLongest(s: seq<Byte>, c: nat, p: nat, l: nat)
    requires c <= |s| && p <= Window(c)
  {
    forall q :: 3 <= q < p ==> MatchLength(s, c, q) < l
  }

  lemma NoLongerStep(s: seq<Byte>, c: nat, pos: nat, l: nat, len: nat)
    requires c <= |s| && 3 <= pos <= Window(c) && l <= len
    requires NoLonger(s, c, pos, l) && MatchLength(s, c, pos) <= len
    ensures NoLonger(s, c, pos + 1, len)
  {
    forall q | 3 <= q < pos + 1 && q <= Window(c) ensures MatchLength(s, c, q) <= len {
      if q < pos {
        assert MatchLength(s, c, q) <= l;
      }
    }
  }

  lemma FirstLongestStep(s: seq<Byte>, c: nat, pos: nat, l: nat, len: nat)
    requires c <= |s| && 3 <= pos <= Window(c) && l < len
    requires NoLonger(s, c, pos, l)
    ensures FirstLongest(s, c, pos, len)
  {
    forall q | 3 <= q < pos ensures MatchLength(s, c, q) < len {
      assert MatchLength(s, c, q) <= l;
    }
  }

  /** The outer loop keeps the first longest distance seen so far: for each
      distance q of the window, q matches no longer than the result, and
      strictly shorter when q is below the chosen distance. */
  lemma {:induction false} SearchFromIsLongestFirst(s: seq<Byte>, c: nat, pos: nat, l: nat, p: nat, q: nat)
    requires c <= |s| && 3 <= pos && THRESHOLD <= l < MAX_CODED && 3 <= q <= Window(c)
    requires l > THRESHOLD ==> 3 <= p < pos && p <= Window(c) && MatchLength(s, c, p) == l
    requires NoLonger(s, c, pos, l)
    requires l > THRESHOLD ==> FirstLongest(s, c, p, l)
    ensures var r := SearchFrom(s, c, pos, l, p);
      && MatchLength(s, c, q) <= r.0
      && (r.0 > THRESHOLD && q < r.1 ==> MatchLength(s, c, q) < r.0)
    decreases Window(c) + 1 - pos
  {
    if pos <= Window(c) {
      var len := MatchLength(s, c, pos);
      if len > l && len == MAX_CODED {
        SearchFromStep(s, c, pos, l, p);
        if q < pos {
          assert MatchLength(s, c, q) <= l;
        }
      } else if len > l {
        SearchFromStep(s, c, pos, l, p);
        NoLongerStep(s, c, pos, l, len);
        FirstLongestStep(s, c, pos, l, len);
        SearchFromIsLongestFirst(s, c, pos + 1, len, pos, q);
      } else {
        SearchFromStep(s, c, pos, l, p);
        NoLongerStep(s, c, pos, l, l);
        SearchFromIsLongestFirst(s, c, pos + 1, l, p, q);
      }
    } else {
      assert MatchLength(s, c, q) <= l;
    }
  }

  /** No distance in the window gives a longer match than SEARCH reports (up to
      BLZ_F), and no smaller distance gives a match as long: ties go to the
      smallest distance because the comparison is a strict `>`. */
  lemma BestMatchIsLongestFirst(s: seq<Byte>, c: nat)
    requires c <= |s|
    ensures var r := BestMatch(s, c);
      && (forall q, len: nat :: 3 <= q <= Window(c) && len <= MAX_CODED && IsMatch(s, c, q, len) ==> len <= r.0)
      && (r.0 > THRESHOLD ==> forall q :: 3 <= q < r.1 ==> !IsMatch(s, c, q, r.0))
  {
    var r := BestMatch(s, c);
    forall q, len: nat | 3 <= q <= Window(c) && len <= MAX_CODED && IsMatch(s, c, q, len)
      ensures len <= r.0
    {
      SearchFromIsLongestFirst(s, c, 3, THRESHOLD, 0, q);
      MatchLengthIsLongest(s, c, q, len);
    }
    if r.0 > THRESHOLD {
      forall q | 3 <= q < r.1
        ensures !IsMatch(s, c, q, r.0)
      {
        SearchFromIsLongestFirst(s, c, 3, THRESHOLD, 0, q);
        if IsMatch(s, c, q, r.0) {
          MatchLengthIsLongest(s, c, q, r.0);
        }
      }
    }
  }

  /** The inner loop of SEARCH: how far the bytes at c repeat those pos back. */
  method MatchAt(raw: array<Byte>, c: nat, pos: nat) returns (len: nat)
    requires 1 <= pos <= c <= raw.Length
    ensures len == MatchLength(raw[..], c, pos)
  {
    ghost var s := raw[..];
    len := 0;
    while len < MAX_CODED
      invariant len <= MAX_CODED && c + len <= raw.Length
      invariant MatchFrom(s, c, pos, len) == MatchLength(s, c, pos)
    {
      if c + len == raw.Length { break; }
      if len >= pos { break; }
      if raw[c + len] != raw[c + len - pos] { break; }
      len := len + 1;
    }
  }

  /** SEARCH over the buffer being encoded: the outer loop over distances. */
  method Search(raw: array<Byte>, c: nat) returns (l: nat, p: nat)
    requires c <= raw.Length
    ensures (l, p) == BestMatch(raw[..], c)
  {
    ghost var s := raw[..];
    l, p := THRESHOLD, 0;
    var max := if c >= MAX_OFFSET then MAX_OFFSET else c;
    var pos := 3;
    while pos <= max
      invariant max == Window(c) && 3 <= pos
      invariant THRESHOLD <= l < MAX_CODED
      invariant l > THRESHOLD ==> 3 <= p < pos && p <= Window(c) && MatchLength(s, c, p) == l
      invariant SearchFrom(s, c, pos, l, p) == BestMatch(s, c)
      decreases max + 1 - pos
    {
      var len := MatchAt(raw, c, pos);
      SearchFromStep(s, c, pos, l, p);
      if len > l {
        p := pos;
        l := len;
        if l == MAX_CODED { break; }
      }
      pos := pos + 1;
    }
  }
}
