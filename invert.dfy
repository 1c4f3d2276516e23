/** BLZ_Invert: in-place reversal of a sub-range of a buffer. The encoder uses
    it to scan its input back to front with a forward matcher, and the decoder
    uses it to undo that reversal on the compressed segment and on the output. */
module Inversion {
  import opened Bytes

  /** Reverses a[start .. start + length] in place with two converging indices;
      everything outside the range is left alone. */
  method Invert(a: array<Byte>, start: nat, length: nat)
    requires start + length <= a.Length
    modifies a
    ensures a[..] == InvertedRange(old(a[..]), start, length)
  {
    ghost var was := a[..];
    // The sum of the two indices stays `start + (start + length - 1)`.
    var bottom: int := start + length - 1;
    var top := start;
    while top < bottom
      invariant |was| == a.Length
      invariant start <= top <= start + length && top + bottom == 2 * start + length - 1
      invariant forall i :: start <= i < top ==> a[i] == was[2 * start + length - 1 - i]
      invariant forall i :: bottom < i < start + length ==> a[i] == was[2 * start + length - 1 - i]
      invariant forall i :: 0 <= i < a.Length && !(start <= i < top) && !(bottom < i < start + length) ==> a[i] == was[i]
    {
      var ch := a[top];
      a[top] := a[bottom];
      a[bottom] := ch;
      top := top + 1;
      bottom := bottom - 1;
    }
    ghost var r := InvertedRange(was, start, length);
    forall i | 0 <= i < a.Length ensures a[i] == r[i] {
      if start <= i < start + length && top <= i <= bottom {
        assert i == 2 * start + length - 1 - i;
      }
    }
  }

  /** The buffer contents after inverting s[start .. start + length]. */
  function InvertedRange(s: seq<Byte>, start: nat, length: nat): (r: seq<Byte>)
    requires start + length <= |s|
    ensures |r| == |s|
    ensures forall i :: 0 <= i < |s| && !(start <= i < start + length) ==> r[i] == s[i]
    ensures forall i :: start <= i < start + length ==> r[i] == s[2 * start + length - 1 - i]
  {
    s[..start] + Reversed(s[start..start + length]) + s[start + length..]
  }

  /** Inverting the same range twice restores the buffer. */
  lemma InvertedRangeTwice(s: seq<Byte>, start: nat, length: nat)
    requires start + length <= |s|
    ensures InvertedRange(InvertedRange(s, start, length), start, length) == s
  {
    var t := InvertedRange(s, start, length);
    var u := InvertedRange(t, start, length);
    forall i | 0 <= i < |s| ensures u[i] == s[i] {
      if start <= i < start + length {
        assert u[i] == t[2 * start + length - 1 - i];
      }
    }
  }
}
