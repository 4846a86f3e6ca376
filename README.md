# crc32_combine and crc32_combine_multi, modelled in Dafny

The native add-on in `src/crc32.cc` merges the CRC-32 checksums of consecutive chunks of one stream. It never reads the data itself. It works only from each chunk's CRC and byte length.

- **CRC combination.** `crc32_combine(crc1, crc2, len2)` is zlib's algorithm. It computes CRC(A ++ B) from crc1 = CRC(A), crc2 = CRC(B) and len2 = |B|.
  - Appending a zero bit to a message moves the reflected CRC register one step (ZeroBit). The step is: shift right, then XOR in the polynomial 0xEDB88320 when the bit shifted out was set.
  - The function builds the 32×32 GF(2) matrix of that step.
  - It squares the matrix repeatedly, so that one matrix stands for 2^k zero bytes.
  - It multiplies crc1 by the square whose power of two is a set bit of len2.
  - Finally it XORs in crc2.
- **Chunk trailers.** `crc32_combine_multi` takes an array of Buffers.
  - Each Buffer ends in an 8-byte trailer (crc, len), which `get_buffer_meta` reads.
  - The function folds the pairs from left to right with `crc32_combine` and sums the lengths.
  - Any element that is not a Buffer makes the whole call return no result.

The model has six modules, one per file:

| module | contents |
|---|---|
| `Words` | 32-bit words as sequences of 32 bits: `^`, `>> 1`, `<< 1` and `1 << j`. Binary digits of numbers. |
| `Wrappers` | `Option`. |
| `GF2` | `gf2_matrix_times` and `gf2_matrix_square` as methods on `array<Word>`, proved against `Apply`, the XOR of the selected rows. Linearity of the product. |
| `Crc32` | `ZeroBit` and its n-fold iterate `ZeroBits` as the specification. The `odd`/`even` operator matrices. `crc32_combine` as a method with the do/while loop of the source. Algebraic laws of the combined CRC. |
| `Trailer` | The trailer decode `get_buffer_meta`, in two forms. `GetBufferMeta` is the decode the code evidently intends: two 4-byte little-endian fields, and failure for a non-Buffer or a Buffer under 8 bytes. `LiteralMeta` is the one-byte signed `char` read the code actually does. |
| `Batch` | The fold inside `crc32_combine_multi` as a method with its `for` loop, proved against a functional specification. The laws of the fold: sum of lengths, no overflow, regrouping. |

The names `crc` and `len`, the `uint32_t` casts and the 8-byte trailer all point to two 4-byte fields. The C code instead reads one byte at each offset. Where the two disagree, the model keeps both: `LiteralMeta` follows the code as written, and the rest of the model uses the intended decode. The table under "## Findings" records the difference.

## Model

| member | source | states |
|---|---|---|
| GF2.MatrixTimes | src/crc32.cc:10-20 | The loop that shifts `vec` and steps through the rows returns exactly the XOR of the rows whose bit is set in `vec`. It only reads rows 0..31, and it stops as soon as no set bit remains. |
| GF2.ApplyZero | src/crc32.cc:10-20 | Multiplying any matrix by the zero vector gives zero (`while (vec)` never runs). |
| GF2.ApplyLinear | src/crc32.cc:10-20 | The product is linear: m(a ^ b) == m a ^ m b. |
| GF2.ApplyUnit | src/crc32.cc:10-20 | Row j of a matrix is its product with `1 << j`, so row j is the image of bit j. |
| GF2.MatrixSquare | src/crc32.cc:22-27 | Row n of `square` becomes `mat` times row n of `mat`, for all 32 rows. Only `square` is written. |
| GF2.SquareApply | src/crc32.cc:22-27 | Multiplying by the square of m is multiplying by m twice. |
| Crc32.PolyBytes | src/crc32.cc:41 | The bits of the polynomial row are the binary digits of 0xedb88320, byte by byte. |
| Crc32.InitOdd | src/crc32.cc:40-46 | After the initialisation, `odd` holds the polynomial in row 0 and `1 << (n - 1)` in row n, for n = 1..31. |
| Crc32.OneZeroBitRepresents | src/crc32.cc:40-46 | That initial `odd` matrix is the operator for one zero bit: its product with any v equals ZeroBit(v). |
| Crc32.SquareRepresents | src/crc32.cc:48-52 | The square of the operator for n zero bits is the operator for 2n zero bits. This gives 2 and then 4 bits at lines 49 and 52, and 8·2^k bits at each square in the loop. |
| Crc32.ZeroBitsAdd | src/crc32.cc:56-77 | a zero bits followed by b zero bits are a + b zero bits. The loop relies on this to apply the powers of two one after another. |
| Crc32.SquareAndApply | src/crc32.cc:58-62 | One half of the loop body. The fresh square is the operator for twice as many bits as its source. The CRC advances over `step` more bytes exactly when the current bit of len2 is set. |
| Crc32.HalveLength | src/crc32.cc:59-67 | `len2 >>= 1` keeps the bytes already applied plus len times the current unit equal to len2. When len reaches 0, all of len2 has been applied. |
| Crc32.Combine | src/crc32.cc:29-82 | The result is crc1 when len2 <= 0. Otherwise it is crc1 advanced over 8·len2 zero bits, XOR crc2. The loop halves len2 exactly BitLength(len2) times, the count of its binary digits, and then stops. |
| Crc32.BitLengthBounds | src/crc32.cc:56-77 | A positive len2 with h binary digits lies in [2^(h-1), 2^h). So the halving count of `Crc32.Combine` is the bit length of len2 in the usual sense. |
| Crc32.HalvingsOfLong | src/crc32.cc:29 | For 0 < len2 < 2^63 (a positive `long`), the loop halves len2 at most 63 times. |
| Crc32.CombinedFromZero | src/crc32.cc:56-81 | Combining a zero crc1 with len2 > 0 gives crc2: the zeros operator maps zero to zero. |
| Crc32.CombinedLinear | src/crc32.cc:56-81 | The combined CRC is linear in (crc1, crc2) for a fixed len2. |
| Crc32.CombinedAssoc | src/crc32.cc:29-82 | Combining A with B, then C, equals combining A with the combination of B and C, over the summed length. This needs the CRC of an empty piece to be zero. |
| Trailer.GetBufferMeta | src/crc32.cc:117-137 | Decoding gives a result exactly for a Buffer of at least 8 bytes. A non-Buffer fails (lines 120-121), and so does a Buffer too short to hold the trailer. The decoded length is below 2^32. |
| Trailer.DecodeEncode | src/crc32.cc:117-137 | Any buffer that ends in the trailer encoding of (crc, len) decodes to exactly (crc, len), whatever precedes the trailer. |
| Trailer.EncodeDecode | src/crc32.cc:117-137 | Re-encoding what a buffer of 8 bytes or more decodes to gives its last 8 bytes back. |
| Trailer.LiteralMeta | src/crc32.cc:132-133 | The as-written read fails only for a non-Buffer. It reads one signed `char` at length - 8 and one at length - 4, each widened to `uint32_t`. |
| Trailer.LiteralCrcAgrees | src/crc32.cc:132 | The one-byte CRC read equals the stored CRC exactly when the three upper bytes of the CRC field are the sign extension of its lowest byte. |
| Trailer.LiteralLengthAgrees | src/crc32.cc:133 | The one-byte length read equals the stored length exactly when the three upper bytes of the length field are the sign extension of its lowest byte. |
| Trailer.LiteralSignExtends | src/crc32.cc:133 | A length byte of 0x80 or more is read as that byte plus 0xFFFFFF00. |
| Trailer.LiteralDiffers | src/crc32.cc:132-133 | The trailer 78 56 34 12 02 01 00 00 stores (0x12345678, 0x102). The one-byte read gives (0x78, 2). |
| Trailer.CrcOffsetInside | src/crc32.cc:126-132 | `length - 8` on `size_t` is an offset inside the buffer exactly when length >= 8. |
| Trailer.ShortBufferReadsOutside | src/crc32.cc:126-132 | For a 3-byte Buffer the CRC offset wraps to 2^64 - 5. |
| Batch.AllSomeFails | src/crc32.cc:157-171 | Collecting the outcomes of the chunks fails exactly when one of them failed. |
| Batch.DecodeAllValues | src/crc32.cc:168-171 | When every chunk decodes, the i-th decoded pair is what `get_buffer_meta` gives for element i. |
| Batch.CombineMultiSpec | src/crc32.cc:152-176 | There is no result exactly when the array is empty or some element does not decode. Element 0 counts here, and so does the `undefined` of `Get(0)` on an empty array. |
| Batch.CombineMulti | src/crc32.cc:152-176 | The loop's result is CombineMultiSpec: element 0, read with `arr->Get(0)` (which gives a non-Buffer on an empty array, modelled by `Batch.Get`), seeds (retCrc, retLen), elements 1.. are combined in order with `crc32_combine`, and any failure returns no result. |
| Batch.FoldLength | src/crc32.cc:174 | The combined length is l0 + l1 + … + l(n-1). |
| Batch.LengthFits | src/crc32.cc:153-174 | With fewer than 2^32 elements, each of length below 2^32, `retLen` on a 64-bit unsigned long never wraps. |
| Batch.FoldSplit | src/crc32.cc:163-175 | Folding a + b is joining the fold of a with the fold of b, provided every chunk of b is consistent: length 0 implies CRC 0, as for empty data. Under that condition chunks may be combined in groups and the groups combined afterwards, with the same result. Without it the results can differ, because a CRC of length 0 is dropped (lines 36-38). |

## Left out

- The V8/Node binding in src/crc32.cc is not part of this model. That covers argument checks, Buffer construction, the result objects and module registration (lines 89-115, 139-150, 178-206). The `NumberValue()` conversions of the arguments are left out too: the model's inputs are the values after conversion.
- index.js is not part of this model. It is a wrapper over other libraries with no logic of its own.
- `IS_BIG_ENDIAN` and `bswap_32` (lines 8, 128-130) are left out. The model is the little-endian branch, which is the one the fields are written for.
- Words are modelled as sequences of 32 bits rather than as machine integers, so the model takes crc1, crc2 < 2^32. The JavaScript entry point of `crc32_combine` does not ensure this: it converts its arguments with `NumberValue()` into a 64-bit `unsigned long` (src/crc32.cc:102-106). A crc1 of 2^32 or more makes the loop of `gf2_matrix_times` run past row 31 of `even`/`odd`, and a crc2 of 2^32 or more carries its upper bits into the result. The model captures neither. In `crc32_combine_multi` the values come from `uint32_t` casts and always fit.
- Trailer.LiteralMeta assumes `char` is signed, as on x86 compilers. It requires the buffer to hold 8 bytes, since the C code's read of a shorter one is outside the buffer. That read is undefined behaviour, and SizeSub and CrcOffsetInside show it instead.
- Batch.CombineMulti takes the array as a sequence of elements. The `int n` loop counter against the `uint32_t` length is not modelled: n would only overflow past 2^31 elements.
- The CRC of actual data is never computed by the repository. No lemma relates ZeroBits to a CRC of bytes.
- GF2.MatrixSquare requires `square` and `mat` to be different arrays, as they are at every call in the source. Squaring in place would overwrite rows that are still being read.

## Findings

| source | as written | input that shows it | evidently intended | confidence | as-written member | corrected member |
|---|---|---|---|---|---|---|
| src/crc32.cc:132-133 | `*(data + (length - 8))` and `*(data + (length - 4))` read one signed `char` each and widen it to `uint32_t` | trailer 78 56 34 12 02 01 00 00 gives (0x78, 2) instead of (0x12345678, 0x102); a byte of 0x80 or more becomes 0xFFFFFF80 or more | read two 4-byte little-endian fields | not executed | Trailer.LiteralDiffers | Trailer.DecodeEncode |
| src/crc32.cc:126-133 | no check that `length >= 8` before reading at `length - 8` | a 3-byte Buffer: `length - 8` wraps to 2^64 - 5 and the read is outside the buffer | fail for a Buffer shorter than its trailer | not executed | Trailer.ShortBufferReadsOutside | Trailer.GetBufferMeta |
