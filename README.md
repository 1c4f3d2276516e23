# Bottom-LZ (BLZ) codec, modelled in Dafny

This project models the Bottom-LZ ("LZ-CUE") codec for Nintendo GBA/DS
binaries in `lib/blz/blz.c`, and proves properties of the model:

- `BLZ_Invert`, the in-place reversal of part of a buffer;
- the `SEARCH` macro, which looks for the longest back-reference: distance
  3..0x1002, length up to 18;
- `BLZ_Code`, the encoder. It reverses the input and runs the token loop
  with its optional best-mode lookahead. It packs the tokens behind
  MSB-first flag bytes and keeps the running minimum `pak_tmp + raw_tmp`.
  It then writes the stored or the headered layout and reverses the input
  back;
- `BLZ_Decode`, the decoder. It checks the trailer, copies the raw prefix
  and reverses the compressed segment in place. It expands the tokens with
  byte-at-a-time overlapping copies, truncating an overrunning copy with a
  warning, and finally reverses the decoded region;
- `BLZ_Encode`, the wrapper that keeps `BLZ_Code`'s buffer when it is at
  most `BLZ_MAXIM` bytes.

Each imperative routine of the C code is a Dafny `method` over arrays with
loop invariants. Each is proved equal to a pure specification function of
its inputs, and the properties are then proved about those functions.

Modules, one per file:

- `Bytes` (bytes.dfy): bytes, sequence reversal, little-endian words,
  rounding up to a multiple of four, powers of two.
- `Inversion` (invert.dfy): `BLZ_Invert`.
- `Tokens` (tokens.dfy): the token datatype, its two-byte encoding, flag
  bytes and the packed stream.
  - `Describes` says which input bytes a token list stands for.
  - `Encodes` says what the decoder's loop reads from a stream.
- `Search` (search.dfy): `SEARCH` as a specification and as a method.
- `Encoding` (encoding.dfy): what `BLZ_Code` computes, as functions:
  - the token choice;
  - the running minimum, as the earliest least-cost split;
  - the two layouts.
- `Encoder` (encoder.dfy): `BLZ_Code` and `BLZ_Encode` as methods.
- `Decoding` (decoding.dfy): what `BLZ_Decode` computes, as functions.
- `Decoder` (decoder.dfy): `BLZ_Decode` as a method that mutates the packed
  array.
- `RoundTrip` (roundtrip.dfy): decoding undoes encoding.
- `Collision` (collision.dfy): a concrete input on which the layout test
  as written loses data.
- `Lookahead` (lookahead.dfy): a concrete input on which best mode gives a
  longer output than normal mode.

In these details the model follows the C code:

- The headered layout is chosen when `raw_len + 4 >= round_up4(pak_tmp + raw_tmp) + 8`, with
  `round_up4` applied to `pak_tmp + raw_tmp` itself (`(x + 3) & -4`). Equality
  chooses the headered layout.
- The last trailer word is `inc_len - hdr_len`, not `inc_len`.
- Decoding a stored buffer returns its first `pak_len - 4` bytes. These
  include the zero padding, so a stored round trip gives back the input
  followed by 0..3 zero bytes.
- A headered trailer whose `enc_len` is below `hdr_len` describes an empty
  segment. When its `raw_len` equals `dec_len` the decoder returns the
  `dec_len` prefix, as the C code does.
- Best mode is a one-step lookahead. It does not guarantee an output no
  longer than normal mode's: Lookahead.BestLonger gives a 17-byte input on
  which best mode writes 24 bytes and normal mode 20.
- An unconditional round trip does not hold; see "## Findings".

## Model

| member | source | states |
|---|---|---|
| Inversion.Invert | lib/blz/blz.c:296-306 | the range is reversed in place (byte i gets the old byte at start + end - 1 - i) and every byte outside it is unchanged |
| Inversion.InvertedRangeTwice | lib/blz/blz.c:296-306 | inverting the same range twice restores the buffer, which is why BLZ_Code hands the input back unchanged after lines 189 and 247 |
| Search.MatchAt | lib/blz/blz.c:170-174 | the inner SEARCH loop returns the match length MatchLength for that distance |
| Search.MatchLengthIsLongest | lib/blz/blz.c:170-174 | no match at that distance is longer than the inner loop's length, up to BLZ_F |
| Search.Search | lib/blz/blz.c:165-181 | the nested SEARCH loops return exactly BestMatch: a length in 2..18 and, when it is above 2, a distance in 3..min(c, 0x1002) |
| Search.BestMatchIsMatch | lib/blz/blz.c:165-181 | a usable result is a real match: l <= p, it ends inside the input, and every byte repeats the one p back |
| Search.BestMatchIsLongestFirst | lib/blz/blz.c:165-181 | no distance in the window gives a longer match, and no smaller distance reaches the chosen length (the strict `>` keeps the first) |
| Encoding.Choose | lib/blz/blz.c:206-221 | normal mode uses SEARCH's result; best mode only ever replaces a usable match by length 1, and keeps every usable result it does not demote |
| Encoder.Choice | lib/blz/blz.c:203-221 | the SEARCH calls and the lookahead at c + len and c + 1 compute Choose, with raw back at its position |
| Encoder.NextFlag | lib/blz/blz.c:198-201 | shifting the mask opens a new zero flag byte exactly when the open group already holds eight tokens, and the tokens written so far stay as they are |
| Encoder.PutToken | lib/blz/blz.c:224-232 | shifting the flag byte and writing the chosen token adds exactly that token to the open group, and raw advances by the bytes it stands for |
| Encoding.NextTokenDescribes | lib/blz/blz.c:224-232 | each token stands for input bytes: a literal for the byte at c, a back-reference for the longest earliest match SEARCH gives, within the window |
| Encoding.TokenizeDescribes | lib/blz/blz.c:197-238 | the token list of the main loop describes the whole reversed input and consumes exactly all of it |
| Tokens.TokenBytes | lib/blz/blz.c:228-231 | a literal is its byte; a back-reference is two bytes, the first holding len - 3 in its top four bits over the top four bits of dist - 3, the second the low eight bits of dist - 3 |
| RoundTrip.ReferenceFields | lib/blz/blz.c:118-125 | reading the two bytes of a back-reference big-endian gives back its length and distance |
| Decoding.RefLength | lib/blz/blz.c:118-120 | the decoded length lies in 3..18 |
| Decoding.RefDistance | lib/blz/blz.c:125 | the decoded distance lies in 3..0x1002 |
| Tokens.FlagByteBits | lib/blz/blz.c:240-243 | after the trailing shifts the t-th token of a group sits in bit 7 - t of its flag byte, set exactly for a back-reference |
| Tokens.PackLength | lib/blz/blz.c:197-238 | the packed stream has one flag byte per started group of eight plus the token bytes |
| Tokens.PackBound | lib/blz/blz.c:186 | the packed stream is never longer than `raw_len + (raw_len + 7) / 8`, inside the scratch buffer |
| Tokens.PackPrefixEncodes | lib/blz/blz.c:234-237 | the first `pak_tmp` bytes of the stream are the packed first k tokens, readable by the decoder's loop |
| Encoding.SplitPointIsEarliestMinimum | lib/blz/blz.c:234-237 | the kept split has the least `pak_tmp + raw_tmp` of all token boundaries, and every earlier boundary costs strictly more |
| Encoder.SplitPointStep | lib/blz/blz.c:234-237 | the running minimum moves to the new boundary exactly when it is strictly cheaper, and so stays the earliest least-cost split |
| Encoder.Compress | lib/blz/blz.c:183-243 | the token loop and trailing shifts write the packed stream of the tokens, and `pak_tmp`, `raw_tmp` are the split point's lengths |
| Encoding.MakePlan | lib/blz/blz.c:183-248 | `pak_tmp` is at most the stream's length, `pak_tmp + raw_tmp <= raw_len`, and `pak_tmp` is 0 exactly when `raw_tmp` is `raw_len` |
| Encoding.LayoutLength | lib/blz/blz.c:250-287 | a stored output has `round_up4(raw_len) + 4` bytes; a headered one has `round_up4(pak_tmp + raw_tmp) + 8`, at most `raw_len + 4` and never exactly `raw_len` |
| Encoding.LayoutLengthAsWritten | lib/blz/blz.c:250-287 | under the layout test as written, a stored output has `round_up4(raw_len) + 4` bytes and a headered one `round_up4(pak_tmp + raw_tmp) + 8`, at most `raw_len + 4`; the output is exactly `raw_len` bytes precisely when the two tests disagree, and otherwise it equals Layout |
| Encoding.EmptyInput | lib/blz/blz.c:250-259 | the empty input encodes to four zero bytes, under either layout test |
| Encoding.OutputFits | lib/blz/blz.c:139-155 | every input up to RAW_MAXIM gives an output of at most raw_len + 7 bytes, under BLZ_MAXIM, under either layout test |
| Encoder.WriteStored | lib/blz/blz.c:250-259 | the copy, the zero padding and the zero word write StoredLayout |
| Encoder.Copy | lib/blz/blz.c:263-267 | the index loops copy the prefix and the kept tail of the stream into the new buffer |
| Encoder.Pad | lib/blz/blz.c:280-283 | 0xFF bytes reach the next multiple of four and `hdr_len` becomes 8 plus their number |
| Encoder.Fields | lib/blz/blz.c:285-287 | the word `enc_len + hdr_len` keeps its low three bytes, the fourth is `hdr_len`, then the word `inc_len - hdr_len` mod 2^32 |
| Encoder.WriteHeadered | lib/blz/blz.c:261-287 | the new buffer holds HeaderedLayout of the prefix and the kept segment |
| Encoder.Finish | lib/blz/blz.c:250-290 | the layout test exactly as line 250 writes it picks the writer, and the new buffer holds LayoutAsWritten |
| Encoder.Provisional | lib/blz/blz.c:183-248 | inverting, compressing and inverting back gives MakePlan's stream and lengths, with the input restored |
| Encoder.Code | lib/blz/blz.c:158-293 | BLZ_Code returns a fresh buffer holding CodeOutputAsWritten, the output under line 250 as written, and the input buffer is unchanged on return |
| Encoder.Encode | lib/blz/blz.c:139-155 | BLZ_Encode returns BLZ_Code's buffer, CodeOutputAsWritten, when it is at most BLZ_MAXIM bytes, and otherwise no buffer and length BLZ_MAXIM + 1 |
| Decoding.ParseTrailer | lib/blz/blz.c:75-91 | one clause per exit. Too short exactly under four bytes. A zero last word gives the stored trailer of `pak_len - 4` bytes. Bad header, bad header length, bad length and bad decoded length each hold exactly when the C code's test fails, in the C code's order. A headered accept has `hdr_len` in 8..11 below `pak_len`, the wrapped `dec_len` and `raw_len` of lines 87-89 with `raw_len` at most RAW_MAXIM, and a segment of `enc_len - hdr_len` bytes (none when `enc_len` is below `hdr_len`). Every accept has its prefix and segment inside the buffer |
| Decoder.Load32 | lib/blz/blz.c:75 | the unaligned word load is the little-endian value of the four bytes |
| Decoder.ReadTrailer | lib/blz/blz.c:75-91 | reading the trailer from the array gives ParseTrailer, with each fatal exit as an error |
| Decoder.Prefix | lib/blz/blz.c:93-100 | the zeroed output buffer of `raw_len` bytes receives the first `dec_len` bytes |
| Decoding.Expand | lib/blz/blz.c:106-128 | the main loop never shrinks the output and never writes past `raw_len` |
| Decoding.ExpandAppends | lib/blz/blz.c:106-128 | the main loop only appends, keeping every byte it was given, and once it has printed the truncation warning it stops with exactly `raw_len` bytes |
| Decoding.CopyBackAppends | lib/blz/blz.c:126 | the byte-at-a-time copy keeps every byte already written |
| Decoder.ReadReference | lib/blz/blz.c:118-125 | the two bytes give the token's distance and length; the length is cut to what is left of raw, with a warning, exactly when the copy would run past raw_end |
| Decoder.Token | lib/blz/blz.c:113-127 | one iteration writes a literal or a back-reference, or stops where the segment ends inside the token or the reference reaches before the output, as ExpandToken does |
| Decoder.CopyWithin | lib/blz/blz.c:121-126 | the overlapping byte-at-a-time copy appends CopyBack and leaves the rest of the buffer alone |
| Decoder.Iteration | lib/blz/blz.c:106-127 | one pass of the loop body either stops with Expand's result at a position inside the segment, or writes at least one byte and keeps the loop invariant |
| Decoder.ExpandInto | lib/blz/blz.c:104-128 | the array loop computes Expand, and the rest of the buffer stays zero; it stops inside the segment, and an output shorter than `raw_len` means at most one byte of the segment was left unread (the breaks at lines 108, 114 and 117) |
| Decoding.Decode | lib/blz/blz.c:70-136 | every trailer error is returned as is, and the returned length is at most the declared length |
| Decoding.DecodeShape | lib/blz/blz.c:93-134 | a result starts with the first `dec_len` bytes of the packed buffer, and a result with the warning has exactly the declared `raw_len` bytes |
| Decoder.Decode | lib/blz/blz.c:70-136 | BLZ_Decode returns Decode of the packed bytes and leaves the segment inverted in the caller's buffer |
| RoundTrip.CopyBackRepeats | lib/blz/blz.c:126 | copying a back-reference byte by byte rebuilds bytes that repeat those dist back, overlap included |
| RoundTrip.ExpandReproduces | lib/blz/blz.c:106-128 | the decoder's loop over a stream the encoder packed rebuilds exactly the input bytes the tokens describe |
| RoundTrip.ZeroWordDecodes | lib/blz/blz.c:75-80 | any buffer ending in a zero word decodes to everything before that word |
| RoundTrip.StoredDecodes | lib/blz/blz.c:250-259 | decoding the stored layout gives the input followed by its zero padding |
| RoundTrip.HeaderedParses | lib/blz/blz.c:83-91 | a headered trailer (output not exactly raw_len bytes) parses back to `dec_len = raw_tmp`, a segment of `pak_tmp` bytes and `raw_len` |
| RoundTrip.TrailerTotal | lib/blz/blz.c:89 | `dec_len + enc_len + inc_len` wraps around to raw_len |
| RoundTrip.KeptExpands | lib/blz/blz.c:261-267 | expanding the kept tail of the stream after the raw prefix rebuilds the whole reversed input |
| RoundTrip.HeaderedRoundTrip | lib/blz/blz.c:261-287 | when the headered layout is chosen, decoding the encoder's output gives back the input exactly, with no warning |
| RoundTrip.StoredRoundTrip | lib/blz/blz.c:250-259 | when the stored layout is chosen, decoding the output gives back the input followed by its zero padding |
| RoundTrip.RoundTrip | lib/blz/blz.c:158-293 | for every input up to RAW_MAXIM - 4 bytes, in either mode, decoding gives back the input, plus its zero padding when stored |
| RoundTrip.CodeAgrees | lib/blz/blz.c:250 | the output of BLZ_Code as written equals the corrected output unless it is exactly `raw_len` bytes long, which happens exactly when the two layout tests disagree |
| RoundTrip.RoundTripAsWritten | lib/blz/blz.c:158-293 | for BLZ_Code as written, every input up to RAW_MAXIM - 4 bytes whose output is not exactly `raw_len` bytes long comes back from decoding, plus its zero padding when stored |
| RoundTrip.CollisionAsWritten | lib/blz/blz.c:250 | under the layout test as written, a headered output exactly raw_len bytes long decodes as stored: its first raw_len - 4 bytes |
| Collision.ZerosBestMatch | lib/blz/blz.c:165-181 | in a run of zero bytes SEARCH finds the longest allowed length at the distance equal to it |
| Collision.ZerosTokenize | lib/blz/blz.c:197-238 | twenty zero bytes give three literals, then back-references 3/3, 6/6 and 8/8 |
| Collision.ZerosCosts | lib/blz/blz.c:234-237 | their costs `pak + remaining` after each boundary are 20, 21, 21, 21, 20, 16, 10 |
| Collision.ZerosPlan | lib/blz/blz.c:234-237 | twenty zero bytes keep all six tokens: `pak_tmp` is 10 and `raw_tmp` is 0 |
| Collision.ZerosCollide | lib/blz/blz.c:250 | BLZ_Code as written turns twenty zero bytes into twenty bytes that BLZ_Decode reads back as sixteen bytes |
| Lookahead.BestMatchIs | lib/blz/blz.c:165-181 | SEARCH returns (l, p) when the match of length l at p cannot be lengthened at any distance of the window and no smaller distance reaches l |
| Lookahead.NoMatchIs | lib/blz/blz.c:165-181 | SEARCH finds no usable match when no distance of the window repeats three bytes |
| Lookahead.NormalTokenize | lib/blz/blz.c:197-238 | on the reversed input five zeros, a one and eleven zeros, normal mode writes six literals, the back-references 5/6 and 5/5 (length/distance) and a literal |
| Lookahead.BestTokenize | lib/blz/blz.c:197-238 | on the same input best mode writes six literals and 5/6, then demotes the match at offset 11 (line 218) and goes on with a literal and 5/5 |
| Lookahead.NormalCosts | lib/blz/blz.c:234-237 | normal mode's costs after each boundary are 17, 18 six times, 15, 12 and 13 |
| Lookahead.BestCosts | lib/blz/blz.c:234-237 | best mode's costs after each boundary are 17, 18 six times, 15, 15 and 13 |
| Lookahead.NormalPlan | lib/blz/blz.c:234-237 | normal mode keeps eight tokens: `pak_tmp` is 11 and `raw_tmp` is 1 |
| Lookahead.BestPlan | lib/blz/blz.c:234-237 | best mode keeps all nine tokens: `pak_tmp` is 13 and `raw_tmp` is 0 |
| Lookahead.BestLonger | lib/blz/blz.c:158-293 | eleven zeros, a one and five zeros encode to 20 bytes in normal mode and 24 in best mode, under either layout test |

## Left out

- `Memory` (calloc, and exiting on failure) is modelled as a fresh
  zero-filled array; frees are not modelled.
- The decoder's fatal `EXIT`s become error results, in the order the C code
  checks them.
- Four error results exist only in the model, for inputs on which the C code
  goes on to read or write outside its buffers:
  - `TooShort`: fewer than four bytes;
  - `BadEncodedLength`: `enc_len` above `pak_len`, where the prefix copy at
    line 100 reads before the buffer;
  - `BadIncrementLength`: a wrapped `raw_len` below `dec_len`;
  - `BadReference`: a back-reference before the start of the output.
- `BadEncodedLength` is also returned for a headered trailer with `enc_len`
  below `hdr_len` and `raw_len` above `dec_len`. The C code accepts it.
  Its `enc_len - hdr_len` wraps, so the inversion at line 102 does nothing
  and `pak_end` lies far outside the buffer. The loop then expands the
  uninverted bytes from `dec_len` on, trailer included, and can read past
  the buffer. The model rejects these inputs instead of giving that
  result.
- `printf` diagnostics: the decoder's "wrong decoded length" message is the
  returned `warned` flag.
- Unaligned host-endian word loads and stores are modelled as little-endian
  byte assembly. At line 285 the fourth byte of the store is then
  overwritten by `hdr_len`.
- `*raw++ = *(raw - pos)` at line 126 is unsequenced in C. It is modelled as
  reading `pos` bytes back from the byte being written.
- Lengths are unbounded naturals, not 32-bit unsigned ints. The trailer
  arithmetic is reduced modulo 2^32 where the C code wraps. Inputs of 2^31
  bytes or more are not modelled: `Memory` and `BLZ_Invert` take `int`
  lengths.
- `CMD_*`, the mode constants of `lib/blz/blz.h`, and `lib/blz/fuzz.c` are
  not part of this model. The cost of the search is not modelled either.
- RoundTrip.RoundTrip: stated only for inputs of at most RAW_MAXIM - 4 bytes.
  Above that, `enc_len + hdr_len` can leave its three-byte field.
- RoundTrip.RoundTrip: for a stored output the input comes back followed by
  its zero padding, because the decoder returns all `pak_len - 4` bytes.
- RoundTrip.RoundTrip: holds for the corrected layout test only; see
  "## Findings". For BLZ_Code as written, and so for Encoder.Code,
  RoundTrip.RoundTripAsWritten states it on every input whose output is not
  exactly `raw_len` bytes long.

## Findings

| source | as written | input that shows it | evidently intended | confidence | as-written member | corrected member |
|---|---|---|---|---|---|---|
| lib/blz/blz.c:250 | the headered layout is chosen whenever `raw_len + 4 >= round_up4(pak_tmp + raw_tmp) + 8`. When the two sides differ by exactly 4, the headered output is `raw_len` bytes long, its last word `inc_len - hdr_len` is 0, and BLZ_Decode (line 76) reads it as stored, returning its first `raw_len - 4` bytes | twenty zero bytes in normal mode. The tokens are three literals then 3/3, 6/6 and 8/8, so `pak_tmp` = 10 and `raw_tmp` = 0. The headered output is 20 bytes with a zero last word, and decoding gives 16 bytes | the stored layout is also chosen when the headered output would be exactly `raw_len` bytes, so that decoding gives back every input | not executed | RoundTrip.CollisionAsWritten, Collision.ZerosCollide (on Encoding.CodeOutputAsWritten, which Encoder.Code returns) | Encoding.StoredChosen, RoundTrip.RoundTrip (on Encoding.CodeOutput) |
