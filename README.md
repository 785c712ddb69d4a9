# LZW with growing codeword width and optional codebook reset

A Dafny model of the LZW compressor and expander in `LZWmod.java`.

The compressor reads bytes and extends a match while the match is in its codebook. When
the next byte ends the match, it writes the match's code at the current width `W` and
enters the longer string under the next free code. The width starts at 9 bits and grows
one bit at a time, up to 16, as the codebook fills. The capacity `L` is always `2^W`.
What happens once the codebook is full at 16 bits depends on the mode:

- in NONE mode the codebook stays as it is;
- in RESET mode it goes back to the 256 single bytes at width 9.

The mode is the first bit of the stream. Code 256 is end-of-stream.

The expander rebuilds the same codebook one step behind. It does this in an array that it
doubles whenever the width grows. Before every read it makes the compressor's check. It
also handles the one codeword it has not entered yet: that codeword can only name the
previous string followed by its own first byte.

Modules:

- `Codebook`: the vocabulary both sides share.
  - Bytes, codewords as (value, width) pairs, the mode and its bit.
  - The two seeded codebooks.
  - `Widen`, the check for a full codebook. `Update` is that check followed by the entry.
- `Encoder`: the compressor as a function of its input.
  - `EncStep` is one pass of the loop, `EncFrom` the loop over the rest of the input.
  - `Finish` covers the two final writes, `Compressed` the whole output.
- `Decoder`: the expander as a function of the codeword values it reads.
  - `Lookup` and `Advance` are one pass, `DecodeFrom` the loop, `Expanded` the whole run.
  - A stream that cannot be expanded yields `Truncated` or `InvalidCode`.
- `LZW`: the procedures themselves, as imperative code.
  - Class `Codec` holds `W` and `L`, updated in place.
  - The compressor's codebook is a `map`. The expander's codebook is an `array` that
    `UpsizeArr` copies into one twice as long.
  - Each method is proved to compute a function of `Encoder` or `Decoder`: `Compress`
    computes `Compressed`, `Absorb` `EncStep`, `Flush` `Finish`, `Expand` `Expanded`,
    `MakeRoom` `Widen`, `Resolve` `Lookup` and `Enter` `AddIfRoom`.
  - The width check and the reset, which the source repeats inline, are separate methods
    here: `Absorb`, `Flush` and `MakeRoom`.
- `RoundTrip`: the lockstep between the two sides and the round trip.
- `EofFinding`: the width at which end-of-stream is written, as the source writes it.

The bit-level reader and writer are not modelled:

- the compressor returns its mode bit and the list of (value, width) pairs it would write;
- the expander takes the mode bit and the values in order, and returns the bytes plus the
  width it read each codeword at.

The round trip states that these widths are the widths the compressor wrote. So every
codeword would be read from the bits it was written to.

Where the code and the design description disagree:

- **Empty input.** The description has empty input produce only end-of-stream. The
  compressor reads a first byte unconditionally (LZWmod.java:37), so `Compress`,
  `Compressed` and the round trip require a non-empty input, as the code does.
- **Width of end-of-stream.** Here the model departs from the code on purpose. The
  description has end-of-stream at "the then-current width" and a round trip for every
  input, and the code writes it at the current width (LZWmod.java:80). The two cannot both
  hold: see "## Findings". `Encoder.FinishAsWritten` and `Encoder.CompressedAsWritten`
  write end-of-stream as the code does. `Encoder.Finish`, `Encoder.Compressed`,
  `Codec.Flush` and `Codec.Compress` write it at the width the expander reads it at.

## Model

| member | source | states |
|---|---|---|
| Codebook.ModeOf | LZWmod.java:93-96 | the mode the expander infers gives back the bit it was read from |
| Codebook.FlagRoundTrip | LZWmod.java:31-34 | the expander recovers the compressor's mode from the leading bit (1 exactly for RESET) |
| Codebook.SeedMapFacts | LZWmod.java:26-29 | the seeded compressor codebook holds every single byte `b` under code `b` and nothing else |
| Codebook.SeedTable | LZWmod.java:88-91 | the seeded expander codebook has 257 codes: byte `b` at `b`, the empty string at 256 |
| Codebook.SeedConsistent | LZWmod.java:26-29 | the two seeded codebooks are inverse: each single byte's code names it, and none is 256 |
| Codebook.Widen | LZWmod.java:103-120 | the check before a read. Width grows by one (capacity doubles) iff the codebook is full below 16 bits, keeping the codebook. It drops to 9 with the seeded codebook iff full at 16 in RESET mode. Otherwise codebook and width are returned unchanged. The result always has room below the capacity or is unchanged |
| Encoder.Start | LZWmod.java:26-39 | after the first byte: seeded codebook, next code 257, width 9, the match is that byte, nothing written |
| Encoder.EncStep | LZWmod.java:41-77 | one pass of the loop keeps `9 <= W <= 16`, `257 <= code <= 2^W`, all codes below `code`, and every codeword written within its width and not 256. It writes at most one codeword and keeps what was written |
| Encoder.EncFrom | LZWmod.java:41-77 | the same invariant over the whole loop, and the output only grows |
| Encoder.Finish | LZWmod.java:78-80 | the final writes: the pending match's code (which names the match), then 256 at the width the expander reads it at, all within their widths |
| Encoder.FinishAsWritten | LZWmod.java:78-80 | the final writes as the source makes them: 256 at the current width |
| Encoder.CodewordsFit | LZWmod.java:41-80 | every codeword the compressor writes fits its width, the last is 256 and no other is |
| Encoder.InsertMirrorsDecoder | LZWmod.java:45-56 | an insertion by the compressor is exactly the expander's check followed by its entry |
| Encoder.WidthProtocol | LZWmod.java:48-58 | the width grows by exactly one iff a new string meets a full codebook below 16 bits. It drops, to 9, iff that happens at 16 bits in RESET mode. In every other case, including a byte that extends the match, it stays the same |
| Encoder.ResetReseeds | LZWmod.java:58-71 | a reset restores the seeded codebook and width 9 (capacity 512); the new string takes code 257 and the match restarts at the new byte |
| Encoder.FullCodebookFrozen | LZWmod.java:48-75 | in NONE mode a full codebook at 16 bits no longer changes; a string it lacks is written and the match restarts at the new byte |
| Decoder.Initial | LZWmod.java:85-99 | after the first read: seeded codebook, width 9, the first codeword's byte pending |
| Decoder.Lookup | LZWmod.java:125-127 | a codeword names a string iff it fits the width and is an assigned code, or is the next code while a string is pending. In that case the string is the pending one followed by its first byte |
| Decoder.Advance | LZWmod.java:103-131 | one pass: the check, the pending string written, the new string pending, and the width the codeword was read at recorded. The checked codebook is kept as a prefix; exactly one entry, the previous string followed by the first byte of the new one, is added iff the next code fits the width |
| Decoder.DecodeFrom | LZWmod.java:101-133 | the loop only appends to the bytes written and to the widths read |
| Decoder.FullTableFrozen | LZWmod.java:129-130 | in NONE mode a full codebook at 16 bits no longer changes |
| Decoder.FullTableReseeds | LZWmod.java:109-119 | in RESET mode a full codebook at 16 bits goes back to the seeded one at width 9, and the next string takes code 257 |
| RoundTrip.CatchUp | LZWmod.java:125-131 | one step behind the compressor, the expander reads the pending match's code as that match, including the code it has not entered yet. Afterwards it holds exactly the compressor's codebook and width |
| RoundTrip.RelatedAfterEmit | LZWmod.java:45-56 | after every codeword written and read, the expander's codebook is again one entry behind the compressor's |
| RoundTrip.Simulation | LZWmod.java:41-131 | from related states the expander turns the rest of the compressor's output into the rest of its input, reading each codeword at the width it was written at |
| RoundTrip.RoundTrip | LZWmod.java:25-136 | for every non-empty input and both modes, expanding the compressed stream gives back the input and reads every codeword at its written width |
| LZW.SeedEncoderCodebook | LZWmod.java:26-28 | the loop builds the seeded compressor codebook |
| LZW.SeedDecoderCodebook | LZWmod.java:88-91 | the loop fills codes 0..256 with the seeded codebook, returns 257 and leaves the rest of the array alone |
| LZW.UpsizeArr | LZWmod.java:138-146 | a fresh array twice as long, whose first half is the old array and whose other slots are unassigned |
| LZW.Codec.constructor | LZWmod.java:21-23 | width 9, capacity 512 |
| LZW.Codec.Compress | LZWmod.java:25-82 | returns the mode bit and exactly the compressor's output `Compressed(mode, input)`; `L == 2^W` afterwards |
| LZW.Codec.Absorb | LZWmod.java:42-76 | one pass of the loop, in place, is `EncStep` |
| LZW.Codec.Flush | LZWmod.java:78-80 | the final writes, with end-of-stream at the expander's width, are `Finish` |
| LZW.Codec.MakeRoom | LZWmod.java:103-120 | the check before a read, on the array, is `Widen`: the array stays at least `L` long and is replaced only by a fresh one |
| LZW.Codec.Resolve | LZWmod.java:125-127 | the string read is `Lookup`'s |
| LZW.Codec.Enter | LZWmod.java:129-130 | the entry made in place is `AddIfRoom`'s; the slots from the new next code on are left alone |
| LZW.Codec.Expand | LZWmod.java:84-136 | returns exactly `Expanded(flag, codes)`, so with `RoundTrip` it gives back what `Compress` was given; on success `W` is the width end-of-stream was read at |
| EofFinding.Differs | LZWmod.java:78-80 | the as-written and corrected final writes differ only in the width of end-of-stream, and only when the check would change the width |
| EofFinding.AsWrittenDiffers | LZWmod.java:78-80 | the same for a whole input |
| EofFinding.IotaStep | LZWmod.java:45-49 | on the bytes 0..255 each byte enters a new pair at width 9 |
| EofFinding.EofWidthMismatch | LZWmod.java:78-80 | on the bytes 0..255, as written, end-of-stream is written at 9 bits while the expander reads it at 10. Every other codeword is read at its written width |

## Left out

- Bit-level I/O (`BinaryStdIn`, `BinaryStdOut`) is not part of this model. Streams are lists of (value, width) pairs plus the mode bit, and the expander returns the bytes it would write.
- The ternary search tree `TSTmod` is not part of this model. The compressor's codebook is a `map` from strings to codes.
- `main` and its argument parsing are a command-line wrapper and are left out.
- MONITOR mode is a stub in the source and is left out. Its compressor writes the bit 1 but never resets, since only `mode == RESET` resets. The expander would therefore reset where the compressor does not.
- Codec.Flush: writes end-of-stream at `EofWidth`, the width the expander reads it at, not at the current `W` as LZWmod.java:80 does. The source's behaviour is `Encoder.FinishAsWritten` (see "## Findings").
- Codec.Compress: through `Codec.Flush`, its output is the corrected `Compressed`, not the source's `CompressedAsWritten`; the two differ only in the width of end-of-stream (`EofFinding.AsWrittenDiffers`).
- Codec.Compress: requires a non-empty input. On empty input the source reads a first byte that does not exist.
- Codec.Compress and Codec.Expand: require `W == 9` and `L == 512` on entry. The source sets these statics only when the class is loaded, so a second run in the same process would start from the widths the first left behind.
- Codec.Expand: a codeword that names nothing is reported as `InvalidCode`. For a codeword larger than the next code the source would fail with a null dereference. For the next code with nothing pending, `val` is the empty string and `val.charAt(0)` (LZWmod.java:127) would throw an index-out-of-bounds exception. Values of `2^W` or more cannot come out of a `W`-bit read and are reported the same way.
- Java's `char` and `String` are modelled as bytes 0..255 and sequences of them. Symbols outside that range cannot occur when input is read a byte at a time.
- The compressor's `current` buffer, which the source clears and refills in place, is a sequence value that is reassigned.

## Findings

| source | as written | input that shows it | evidently intended | confidence | as-written member | corrected member |
|---|---|---|---|---|---|---|
| LZWmod.java:78-80 | end-of-stream is written at the current width `W` with no check first | the 256 bytes 0, 1, ..., 255 in order: 255 pairs fill codes 257..511, so the codebook is exactly full at 9 bits when the input ends. End-of-stream is written in 9 bits, but the expander's check before its next read (LZWmod.java:103-107) moves it to 10 bits | write end-of-stream at the width the expander reads it at, i.e. make the check of LZWmod.java:103-120 before the final write | not executed | Encoder.FinishAsWritten, EofFinding.EofWidthMismatch | Encoder.Finish, LZW.Codec.Flush, RoundTrip.RoundTrip |
