/** Bytes, byte sequences and the small pieces of arithmetic the codec relies on:
    reversal, little-endian words, 4-byte alignment and powers of two. */
module Bytes {

  /** An unsigned char. */
  type Byte = x: int | 0 <= x < 256

  /** 2^32: the modulus of C's unsigned int arithmetic. */
  const WORD: nat := 0x1_0000_0000

  /** RAW_MAXIM: the largest raw length a 3-byte length field can describe. */
  const RAW_MAXIM: nat := 0x00FF_FFFF

  /** The sequence in reverse order. */
  function Reversed<T>(s: seq<T>): (r: seq<T>)
    ensures |r| == |s|
    ensures forall i :: 0 <= i < |s| ==> r[i] == s[|s| - 1 - i]
  {
    seq(|s|, i requires 0 <= i < |s| => s[|s| - 1 - i])
  }

  lemma ReversedTwice<T>(s: seq<T>)
    ensures Reversed(Reversed(s)) == s
  {
    var r := Reversed(s);
    var rr := Reversed(r);
    forall i | 0 <= i < |s| ensures rr[i] == s[i] {
      assert rr[i] == r[|s| - 1 - i];
    }
  }

  /** The first k elements of the reversal are the reversal of the last k elements. */
  lemma ReversedPrefix<T>(s: seq<T>, k: nat)
    requires k <= |s|
    ensures Reversed(s)[..k] == Reversed(s[|s| - k..])
    ensures Reversed(Reversed(s)[..k]) == s[|s| - k..]
  {
    var r, t := Reversed(s), s[|s| - k..];
    var a, b := r[..k], Reversed(t);
    forall i | 0 <= i < k ensures a[i] == b[i] {
      assert a[i] == r[i] == s[|s| - 1 - i];
      assert b[i] == t[k - 1 - i];
    }
    assert a == b;
    ReversedTwice(t);
  }

  /** The last k elements of the reversal are the reversal of the first k elements. */
  lemma ReversedSuffix<T>(s: seq<T>, k: nat)
    requires k <= |s|
    ensures Reversed(s)[|s| - k..] == Reversed(s[..k])
    ensures Reversed(Reversed(s)[|s| - k..]) == s[..k]
  {
    var r, t := Reversed(s), s[..k];
    var a, b := r[|s| - k..], Reversed(t);
    forall i | 0 <= i < k ensures a[i] == b[i] {
      assert a[i] == r[|s| - k + i] == s[k - 1 - i];
      assert b[i] == t[k - 1 - i];
    }
    assert a == b;
    ReversedTwice(t);
  }

  lemma Assoc<T>(a: seq<T>, b: seq<T>, c: seq<T>)
    ensures a + (b + c) == a + b + c
  {
  }

  /** X is A followed by Y, and Y is x followed by R. */
  lemma ConsRegroup<T>(A: seq<T>, x: T, X: seq<T>, Y: seq<T>, R: seq<T>)
    requires Y == [x] + R && X == A + Y
    ensures X == A + [x] + R
  {
    Assoc(A, [x], R);
  }

  /** A second store to the same place overrides the first. */
  lemma UpdateTwice<T>(A: seq<T>, i: nat, x: T, y: T)
    requires i < |A|
    ensures A[i := x][i := y] == A[i := y]
  {
  }

  /** Overwriting the element that follows a prefix P. */
  lemma UpdateAfter<T>(P: seq<T>, x: T, B: seq<T>, v: T)
    ensures (P + [x] + B)[|P| := v] == P + [v] + B
  {
  }

  /** Updating an element inside a prefix commutes with taking the prefix. */
  lemma UpdatePrefix<T>(A: seq<T>, k: nat, i: nat, v: T)
    requires i < k <= |A|
    ensures A[i := v][..k] == A[..k][i := v]
  {
  }

  /** The l bytes at c repeat the bytes d back, compared one byte at a time
      from the front. */
  predicate Repeats(s: seq<Byte>, c: nat, d: nat, l: nat)
    requires d <= c && c + l <= |s|
    decreases l
  {
    l == 0 || (Repeats(s, c, d, l - 1) && s[c + l - 1] == s[c + l - 1 - d])
  }

  lemma {:induction false} RepeatsAt(s: seq<Byte>, c: nat, d: nat, l: nat, j: nat)
    requires d <= c && c + l <= |s| && Repeats(s, c, d, l) && c <= j < c + l
    ensures s[j] == s[j - d]
    decreases l
  {
    if j < c + l - 1 {
      RepeatsAt(s, c, d, l - 1, j);
    }
  }

  lemma {:induction false} RepeatsOfBytes(s: seq<Byte>, c: nat, d: nat, l: nat)
    requires d <= c && c + l <= |s|
    requires forall j :: c <= j < c + l ==> s[j] == s[j - d]
    ensures Repeats(s, c, d, l)
    decreases l
  {
    if l > 0 {
      RepeatsOfBytes(s, c, d, l - 1);
    }
  }

  /** n zero bytes. */
  function Zeros(n: nat): (r: seq<Byte>)
    ensures |r| == n && forall i :: 0 <= i < n ==> r[i] == 0
  {
    seq(n, _ => 0)
  }

  /** n bytes of 0xFF. */
  function Ones(n: nat): (r: seq<Byte>)
    ensures |r| == n && forall i :: 0 <= i < n ==> r[i] == 0xFF
  {
    seq(n, _ => 0xFF)
  }

  /** `(x + 3) & -4`: x rounded up to a multiple of four. */
  function RoundUp4(x: nat): (r: nat)
    ensures r % 4 == 0 && x <= r < x + 4
  {
    (x + 3) / 4 * 4
  }

  /** The four bytes a little-endian store of the unsigned int x writes. */
  function LE32(x: nat): (r: seq<Byte>)
    requires x < WORD
    ensures |r| == 4
  {
    [x % 0x100, x / 0x100 % 0x100, x / 0x100 / 0x100 % 0x100, x / 0x100 / 0x100 / 0x100]
  }

  /** The unsigned int a little-endian load of p[i..i+4] yields. */
  function ReadLE32(p: seq<Byte>, i: nat): (r: nat)
    requires i + 4 <= |p|
    ensures r < WORD
  {
    (p[i] as int) + 0x100 * (p[i + 1] as int) + 0x1_0000 * (p[i + 2] as int) + 0x100_0000 * (p[i + 3] as int)
  }

  /** Loading what a store wrote gives the stored word back; the low three
      bytes alone give it back modulo 2^24. */
  lemma ReadLE32OfLE32(x: nat, q: seq<Byte>, b: Byte, i: nat)
    requires x < WORD && i + 4 <= |q|
    requires q[i..i + 4] == LE32(x)[..3] + [b]
    ensures ReadLE32(q, i) % 0x100_0000 == x % 0x100_0000
    ensures b == x / 0x100_0000 ==> ReadLE32(q, i) == x
  {
    var b0, b1, b2, b3 := x % 0x100, x / 0x100 % 0x100, x / 0x100 / 0x100 % 0x100, x / 0x100 / 0x100 / 0x100;
    assert q[i] == b0 && q[i + 1] == b1 && q[i + 2] == b2 && q[i + 3] == b;
    assert x == b0 + 0x100 * (b1 + 0x100 * (b2 + 0x100 * b3));
    var low := b0 + 0x100 * b1 + 0x1_0000 * b2;
    assert x == b3 * 0x100_0000 + low;
    DivUnique(x, 0x100_0000, b3, low);
    assert ReadLE32(q, i) == low + 0x100_0000 * b;
    DivUnique(ReadLE32(q, i), 0x100_0000, b, low);
  }

  function Pow2(k: nat): (r: nat)
    ensures r >= 1
  {
    if k == 0 then 1 else 2 * Pow2(k - 1)
  }

  lemma Pow2Byte()
    ensures Pow2(7) == 0x80 && Pow2(8) == 0x100
  {
  }

  lemma Pow2Half(k: nat)
    requires k >= 1
    ensures Pow2(k) / 2 == Pow2(k - 1)
  {
  }

  lemma {:induction false} Pow2Monotone(a: nat, b: nat)
    requires a <= b
    ensures Pow2(a) <= Pow2(b)
    decreases b
  {
    if a < b {
      Pow2Monotone(a, b - 1);
    }
  }

  /** x shifted left k times, one `<<= 1` at a time. */
  function Shl(x: nat, k: nat): nat
  {
    if k == 0 then x else 2 * Shl(x, k - 1)
  }

  lemma {:induction false} ShlBound(x: nat, a: nat, k: nat)
    requires x < Pow2(a)
    ensures Shl(x, k) < Pow2(a + k)
  {
    if k > 0 {
      ShlBound(x, a, k - 1);
    }
  }

  /** `x & mask` is nonzero, for a mask with a single bit set: x shifted right
      as often as the mask needs to reach 1, then its low bit. */
  function IsSet(x: nat, mask: nat): bool
    decreases mask
  {
    if mask <= 1 then x % 2 == 1 else IsSet(x / 2, mask / 2)
  }

  /** Shifting x left by k moves its bit j to bit j + k. */
  lemma {:induction false} IsSetShl(x: nat, j: nat, k: nat)
    ensures IsSet(Shl(x, k), Pow2(j + k)) == IsSet(x, Pow2(j))
  {
    if k > 0 {
      IsSetShl(x, j, k - 1);
      assert Shl(x, k) / 2 == Shl(x, k - 1);
      assert Pow2(j + k) / 2 == Pow2(j + k - 1);
    }
  }

  lemma MulAtLeast(a: int, d: int)
    requires d > 0
    ensures a >= 1 ==> a * d >= d
  {
    if a > 1 {
      MulAtLeast(a - 1, d);
      assert a * d == (a - 1) * d + d;
    }
  }

  lemma MulLess(a: int, b: int, c: int)
    requires 0 <= a < b && c > 0
    ensures a * c < b * c
  {
    MulAtLeast(b - a, c);
    assert (b - a) * c == b * c - a * c;
  }

  /** Euclidean division is determined by a quotient and an in-range remainder. */
  lemma DivUnique(x: int, d: int, q: int, r: int)
    requires d > 0 && 0 <= r < d && x == q * d + r
    ensures x / d == q && x % d == r
  {
    var q', r' := x / d, x % d;
    assert x == q' * d + r';
    MulAtLeast(q' - q, d);
    MulAtLeast(q - q', d);
    assert (q' - q) * d == q' * d - q * d;
    assert (q - q') * d == q * d - q' * d;
  }
}
