# swizzle, modelled in Dafny

swizzle rewires a ROM image. It moves every word of the file to the slot its
reordered address bits name, and it reorders the data bits inside each word.
This project models the engine in `swizzle.c` and proves what it computes:

- `parseBits` reads a comma-separated bit list, most significant bit first,
  into the table of source bit indices (`bit_order.dfy`, on top of models of
  `strtok` and `atoi` in `tokens.dfy`).
- `swizzleWord` applies such a table to one value (`swizzle_word.dfy`).
- `swizzle` does the rest (`sizing.dfy`, `words.dfy`, `transform.dfy`):
  - it rounds the buffer size up to a power of two when address bits are
    reordered, then to whole words;
  - it derives the address bus width and rejects one outside 1 to 32;
  - it parses both lists;
  - it moves every word of the zero-padded input into a zeroed output buffer.

The C operators (`|`, `&`, `& ~`, `<<`, `>>`) are recursive functions on
naturals, in `bits.dfy`. Fatal errors and warnings are values
(`diagnostics.dfy`): a run ends in `Done(image, warnings)` or
`Failed(error, warnings)`. `permutation.dfy` defines permutations of bit
indices and their inverses.

The loops of the source are methods with loop invariants. Each is proved equal
to a specification function, and the properties are proved about those
functions:

- `ParseBits` against `ParseOrder` and `ParseWarnings`;
- `SwizzleWord` against `Swizzled`;
- `ReadWord` and `WriteWord` against `Decode` and `Encode`;
- `Relocate` and `MoveWord` against `Image` and `ImageAfter`;
- `BufferSize` against `WorkingSize` and `SizeWarnings`;
- `Swizzle` against `SwizzleSpec`.

The `-w` range check in `main` (swizzle.c:243-248) becomes the precondition
`1 <= bytesPerWord <= 4` of the engine.

The code rounds a size to whole words with a mask, `+ (bpw - 1)` then
`& ~(bpw - 1)`. That mask is right only for one-, two- and four-byte words. For
those sizes the model follows the code, and `Sizing.AlignAsWrittenAgrees`
proves the two computations equal. For three-byte words the model rounds up to
the next multiple of three. The warning printed just before the rounding
("input size is not a multiple of 3 bytes", swizzle.c:139) shows that this is
the intent. The mask is still modelled as written, in `Sizing.AlignAsWritten`;
see Findings and Left out.

## Model

| member | source | states |
|---|---|---|
| `Bits.FloorLog2` | swizzle.c:144 | the integer log2 of the word count: `2^r <= n < 2^(r+1)` |
| `WordSwizzle.SwizzleWord` | swizzle.c:80-92 | the loop computes `Swizzled(word, bits, count)`, which is below `2^count` |
| `WordSwizzle.MovedBit` | swizzle.c:86-89 | each pass ORs in bit `bits[i]` of the word moved to bit i, whether the shift goes right or left |
| `WordSwizzle.SwizzledBit` | swizzle.c:80-92 | per-bit law: bit i of the result is bit `bits[i]` of the input for i < count, and bits at count and above are clear |
| `WordSwizzle.SwizzleIdentity` | swizzle.c:80-92 | the identity order returns any value that fits in count bits unchanged |
| `WordSwizzle.SwizzleInverse` | swizzle.c:80-92 | swizzling by a permutation and then by its inverse, in either order, gives the value back |
| `WordSwizzle.SwizzleInjective` | swizzle.c:80-92 | under a permutation, distinct values below `2^count` swizzle to distinct values |
| `Tokens.Fields` | swizzle.c:55-70 | the `strtok` fields are non-empty and contain no comma |
| `Tokens.FieldsOfJoin` | swizzle.c:55-70 | splitting a comma-joined list of such fields gives the fields back |
| `Tokens.FieldsSplit` | swizzle.c:55-70 | the fields of `a,b` are the fields of a followed by those of b, so empty fields (a leading, trailing or doubled comma) yield no token |
| `Tokens.FieldsOfCommaFree` | swizzle.c:55-70 | a comma-free string is one field, or none when it is empty |
| `Tokens.DoubledComma` | swizzle.c:55-70 | `a,,b` has the same fields as `a,b` |
| `Tokens.Atoi` | swizzle.c:58 | a string that does not start with white space, a sign or a digit reads as 0 |
| `Tokens.AtoiOfDecimal` | swizzle.c:58 | atoi reads back the decimal numeral of n |
| `Tokens.AtoiPrefix` | swizzle.c:58 | atoi reads the leading numeral of n as n and ignores the text after its last digit (`"3abc"` reads as 3) |
| `Tokens.AtoiPlus` | swizzle.c:58 | a leading `+` is skipped: `+` then the numeral of n, then any non-digit text, reads as n |
| `Tokens.AtoiSpace` | swizzle.c:58 | leading white space does not change what atoi reads (`" 6"` reads as 6) |
| `Tokens.AtoiOfNegativeDecimal` | swizzle.c:58 | atoi reads `-` followed by the numeral of n as -n |
| `BitOrder.ParseBits` | swizzle.c:50-77 | the loop's result and warnings are `ParseOrder` and `ParseWarnings` of the list |
| `BitOrder.Repeats` | swizzle.c:65-66 | at most one warning per token, each a repeat warning of the list's kind naming one of the tokens |
| `BitOrder.ParseWarnings` | swizzle.c:65-66 | every warning parseBits prints is a repeat warning of its kind naming an index in range |
| `BitOrder.EmptyFieldIgnored` | swizzle.c:50-77 | a list with a doubled comma gives the same order and warnings as with a single one (`0,,1,2,3,4,5,6,7` still has 8 tokens) |
| `BitOrder.ParseOrder` | swizzle.c:50-77 | on success, count entries, each a valid index below count |
| `BitOrder.FirstInvalid` | swizzle.c:62-63 | every token before the returned position is in range, and the token at it is not |
| `BitOrder.ParseOrderErrors` | swizzle.c:62-76 | a range error occurs iff some token is out of range, and it is `InvalidBitIndex(kind, v, count)` for an out-of-range token v preceded only by valid tokens, i.e. the first bad one; a count error occurs iff all tokens are valid and their number differs from count, and it is `BitCountMismatch(kind, count, number of tokens)` |
| `BitOrder.SlotsStep` | swizzle.c:59-60 | token k fills slot count-1-k while k < count; tokens past count leave every slot unchanged |
| `BitOrder.ParsedMsbFirst` | swizzle.c:52-71 | the k-th listed index becomes the source of output bit count-1-k |
| `BitOrder.RecordStep` | swizzle.c:65-67 | the `bitsFound & (1 << index)` test holds exactly when the index was seen before; the warning is appended exactly then, and the bit joins the mask |
| `BitOrder.MaskOfBits` | swizzle.c:52-67 | bit b of `bitsFound` is set iff b is among the indices seen |
| `BitOrder.RepeatsEmptyIffDistinct` | swizzle.c:65-66 | there are no repeat warnings iff the indices are pairwise distinct |
| `BitOrder.ParsedPermutation` | swizzle.c:50-77 | after a successful parse, there are no warnings iff the order is a permutation of 0..count-1 |
| `BitOrder.ParseOrderOfListing` | swizzle.c:50-77 | listing valid indices v0,...,vk parses to them in reverse order |
| `BitOrder.BitReversalOrder` | swizzle.c:50-77 | the list `0,1,2,3,4,5,6,7` parses to the order 7,6,5,4,3,2,1,0 |
| `BitOrder.BitReversal` | swizzle.c:80-92 | that order moves bit 7-k of a byte to bit k |
| `Sizing.SeveralBitsIffNotPow2` | swizzle.c:126 | `size & (size - 1)` is nonzero iff size is positive and not a power of two (0 counts as one) |
| `Sizing.Pow2NotFlagged` | swizzle.c:126 | no power of two draws the warning |
| `Sizing.SmearFills` | swizzle.c:130-134 | below `2^32` the five shift-OR steps give `2^(floor(log2 size)+1) - 1` |
| `Sizing.Smear` | swizzle.c:130-134 | the five shift-OR steps never lower the size |
| `Sizing.RoundSize` | swizzle.c:126-136 | the power-of-two step never lowers the size, and changes it exactly when address bits are given and the size is not a power of two |
| `Sizing.SmearReachesBitZero` | swizzle.c:130-134 | a set bit at any position from 0 to 31 is carried down to bit 0 by the five steps |
| `Sizing.SmearKeepsBitZeroClear` | swizzle.c:130-134 | when bits 0 to 31 are all clear, bit 0 stays clear after the five steps |
| `Sizing.SmearFillsAbove` | swizzle.c:130-134 | strictly between `2^32` and `2^33` the five steps still give `2^33 - 1`, because a set bit at or below bit 31 is carried down to bit 0 |
| `Sizing.RoundSizeLeastPow2` | swizzle.c:126-136 | for a size from 1 up to (not including) `2^33`, address rounding gives the least power of two at or above it, which is below twice the size |
| `Sizing.RoundSizeMissesAbove` | swizzle.c:126-136 | for every odd multiple of `2^32` from `2^33 + 2^32` up, address rounding gives an odd size above it, so not a power of two |
| `Sizing.AlignUp` | swizzle.c:137-142 | rounding to words gives a multiple of bytesPerWord, at least the size and less than size + bytesPerWord |
| `Sizing.AlignUpLeast` | swizzle.c:137-142 | no smaller multiple of bytesPerWord holds the size |
| `Sizing.AlignAsWritten` | swizzle.c:137-142 | the mask as written never lowers the size and adds less than one word (it does not promise a multiple) |
| `Sizing.AlignAsWrittenAgrees` | swizzle.c:140-141 | for one-, two- and four-byte words the mask computes that rounding |
| `Sizing.AlignAsWrittenMisses` | swizzle.c:140-141 | for three-byte words the mask leaves 4 and 8 unchanged; an 8-byte buffer still passes the bus check as 2 words, and the word at offset 6 ends past byte 8; a 4-byte buffer is one word and fails the bus check, where 6 bytes would give one address bit |
| `Sizing.WorkingSize` | swizzle.c:126-142 | the buffer size is a whole number of words and at least the file size |
| `Sizing.SizeWarnings` | swizzle.c:126-142 | the non-power-of-two warning is printed exactly when the power-of-two step changes the size, and the not-a-multiple warning exactly when the word rounding does |
| `Sizing.PaddingExamples` | swizzle.c:126-142 | with address bits 3 bytes become 4, and with two-byte words 5 bytes become 6, each with its warning |
| `Sizing.AddressWidth` | swizzle.c:144-148 | an accepted width n lies in 1..32 with `2^n <= words < 2^(n+1)` |
| `Sizing.AddressWidthRange` | swizzle.c:144-148 | the width is accepted iff there are at least 2 and fewer than `2^33` words |
| `Sizing.AddressedSizeFillsBus` | swizzle.c:126-148 | with address bits, one-, two- or four-byte words and a file of fewer than `2^33` bytes, an accepted buffer is exactly `bytesPerWord * 2^n` bytes |
| `Words.ReadWord` | swizzle.c:175-181 | the OR loop yields `Decode` of the word's bytes in the chosen byte order |
| `Words.WriteWord` | swizzle.c:186-191 | the store loop puts `Encode(data)` at the output address and changes no other byte |
| `Words.DecodeEncode` | swizzle.c:175-191 | decoding the encoding of a value below `2^(8n)` gives it back |
| `Words.EncodeDecode` | swizzle.c:175-191 | encoding a decoded run of bytes gives the bytes back |
| `Words.DecodeBound` | swizzle.c:175-181 | an n-byte word decodes below `2^(8n)` |
| `Words.LeBytesAt` | swizzle.c:190-191 | little-endian byte i is `v >> (8 * i)` truncated to a byte |
| `Words.BeBytesAt` | swizzle.c:186-188 | big-endian byte i is `v >> (8 * (n - i - 1))` truncated to a byte |
| `Transform.Target` | swizzle.c:171-173 | when an address order is given, a word's output word slot is below `2^n` (its byte address is `bytesPerWord` times the slot) |
| `Transform.TargetInRange` | swizzle.c:169-173 | every word's output word slot is below the word count, and the `bytesPerWord` bytes written from byte `bytesPerWord * slot` lie inside the buffer |
| `Transform.LastWriter` | swizzle.c:169-192 | the byte's final writer is the last word targeting its slot; none when no word does |
| `Transform.ImageStep` | swizzle.c:186-191 | storing word j turns the buffer after j words into the buffer after j+1 |
| `Transform.MoveWord` | swizzle.c:171-191 | one pass of the loop turns the buffer after j words into the buffer after j+1 |
| `Transform.Relocate` | swizzle.c:169-192 | the loop over all words yields `Image` of the padded input |
| `Transform.Padded` | swizzle.c:160-167 | the input buffer has the working size, holds the file's bytes, and is zero after them |
| `Transform.ParsedOrders` | swizzle.c:154-157 | a parsed address order has n entries and a parsed data order 8 per byte; each is present iff its list was given |
| `Transform.BufferSize` | swizzle.c:126-142 | the sizing steps give `WorkingSize` and print `SizeWarnings` |
| `Transform.ParseOrders` | swizzle.c:154-157 | the two calls give `ParsedOrders`, address list first, and print `OrderWarnings` |
| `Transform.SwizzleSpec` | swizzle.c:126-192 | the size warnings come first; the bus-width error occurs iff the buffer gives no address width from 1 to 32; an image is exactly as long as the working buffer |
| `Transform.AddressIndexOutOfRange` | swizzle.c:154-157 | an address index outside [0, n) ends the run with `InvalidBitIndex(Address, v, n)` for the first such token v; the warnings are the size warnings and the repeats before it, with none from the data list |
| `Transform.Swizzle` | swizzle.c:126-192 | the whole run equals `SwizzleSpec`: sizing, bus check, both parses, then the transform loop |
| `Transform.SpecDone` | swizzle.c:159-192 | once both lists parse, the plan fits the buffer and the run yields the image of the padded input |
| `Transform.ImageOfWord` | swizzle.c:169-192 | a word that no later word overwrites appears byte for byte at its output slot |
| `Transform.UnwrittenStaysZero` | swizzle.c:160-192 | a slot that no word targets stays zero |
| `Transform.ImageInPlace` | swizzle.c:171-191 | with no address order, byte p of the output is byte `p % w` of moved word `p / w` |
| `Transform.ImageWithoutOrders` | swizzle.c:169-192 | with neither order the output equals the input buffer |
| `Transform.MovedUnchanged` | swizzle.c:175-191 | with no data order the bytes written are the bytes read |
| `Transform.PermutedWord` | swizzle.c:169-192 | under an address permutation on `2^n` words, every word j lands intact at slot `Swizzled(j)` |
| `Transform.PermutedSlotsOnce` | swizzle.c:169-192 | under an address permutation every slot below `2^n` is written by exactly one word |
| `Transform.CopyWithoutOrders` | swizzle.c:126-192 | with no bit lists the run copies the input, zero-padded to whole words, or stops for the bus width |
| `Transform.FewerThanTwoWords` | swizzle.c:144-148 | a buffer of fewer than two words is rejected before either list is read |
| `Transform.ReversedDataBits` | swizzle.c:154-192 | with one-byte words and a data list parsing to 7..0, every output byte is its input byte bit-reversed |
| `Transform.ReversesEveryByte` | swizzle.c:154-192 | `-d 0,1,2,3,4,5,6,7` reverses the bits of every byte of a file of at least two bytes |

## Left out

- File I/O is not modelled: opening, `ftell`, `fread`, `fwrite` and closing. The input is the file's bytes as a sequence, and the outcome carries the bytes that would be written.
- `main` is not modelled: option parsing, `usage` and the version banner. The `-w` check becomes the precondition `1 <= bytesPerWord <= 4`.
- Error reporting is not modelled: printing a message and exiting become `Failed(error, warnings)`, and warnings are a returned list.
- A failed `calloc` is not modelled.
- `(int)log2(...)` is modelled as the exact integer log2. Floating-point rounding near a power of two is not.
- C integer widths are not modelled. Values are unbounded naturals with the intended 32-bit meaning. Two hazards are therefore not captured:
  - `1 << index` on an `int` when the index is 31;
  - an `unsigned char << 24` that overflows into the sign bit and sign-extends into `unsigned long` when a byte of 128 or more is the top byte of a four-byte word. With data bit 31 swizzled (swizzle.c:87), those spurious high bits can reach the result.
- Sizes of `2^63` bytes or more (the range of `long`) are not modelled.
- Sizing.WorkingSize: for three-byte words this is the corrected rounding, not the code's mask. The whole run therefore differs from the program even where the program's behaviour is defined. Take a 4-byte or 5-byte file with `-w 3` and no bit lists. The mask leaves 4 as 4 and 5 as 5, a single word, so the program stops with the address-bus-width error. The model pads to 6 bytes and returns a 6-byte image (`Sizing.AlignAsWrittenMisses` states both outcomes for 4 bytes).
- Sizing.RoundSizeLeastPow2: stated only for sizes below `2^33`. The shifts 1, 2, 4, 8 and 16 carry a set bit down by at most 31 places, so from `2^33` up a size that is not a power of two and whose low 32 bits are all clear is not rounded to one. `Sizing.RoundSizeMissesAbove` proves this for every odd multiple of `2^32` from `2^33 + 2^32` up: the program rounds it to an odd size above it, which is not a power of two.
- `atoi` overflow and locale-dependent white space are not modelled. `Tokens.Atoi` reads an unbounded decimal and takes only the C-locale white space.
- `strtok` writing NUL bytes into its argument is not modelled. `Tokens.Fields` returns the fields without changing the string.
- The fixed 32-entry `addrBits`/`dataBits` arrays are modelled as sequences of exactly count entries. Their unused zero entries are never read.

## Findings

| source | as written | input that shows it | evidently intended | confidence | as-written member | corrected member |
|---|---|---|---|---|---|---|
| swizzle.c:140-141 | `inSize += bpw - 1; inSize &= ~(bpw - 1);` | an 8-byte file with `-w 3`: the mask keeps 8, which is not a multiple of 3; the bus check passes with 2 words, and the word at offset 6 reads and writes byte 8, one past both 8-byte buffers | round up to the next multiple of bytesPerWord (9) | not executed | `Sizing.AlignAsWrittenMisses` | `Sizing.AlignUp` |
