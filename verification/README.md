# Micro QR M1 encoder, modelled in Dafny

This project models `MicroQR.generateM1WithData` from the SonnetM1microQR app.
The function encodes a decimal string into the 11×11 module matrix of a
Micro QR "M1" symbol. It does this in six phases:

1. the 7×7 finder pattern;
2. the timing patterns on row 0 and column 0;
3. the fixed 15-bit format information;
4. the data bits: count field `001`, the value in radix 2 padded to 4 digits,
   terminator `000`, then zero bits up to 20;
5. placement of the data bits, column pair by column pair, into the modules
   that `isDataRegion` accepts;
6. the mask `(i + j) mod 2 == 0` on those modules.

It also models the helpers on the way:
- the GF(256) tables and multiplication (`GF256`);
- the bit packing `bitsToCodewords` / `codewordsToBits`;
- the two error-detection codewords `generateErrorDetection`;
- `padLeft`.

Modules:

| file | module | source |
|---|---|---|
| `powers.dfy` | `Powers` | `1 << i` and the shifts, as powers of two |
| `gf256.dfy` | `GF256` | `struct GF256`: `expTable`, `logTable`, `multiply`, and XOR on byte values |
| `packing.dfy` | `Packing` | `bitsToCodewords` and `codewordsToBits`, and a reference packing `PackBytes` |
| `error_detection.dfy` | `ErrorDetection` | `generateErrorDetection` |
| `data_encoding.dfy` | `DataEncoding` | phase 4 and `String.padLeft` |
| `data_region.dfy` | `DataRegion` | `isDataRegion` and the order in which the placement loop visits data modules |
| `micro_qr.dfy` | `MicroQR` | `generateM1WithData`: the matrix and its six phases |

How the source maps onto Dafny:
- The matrix is an `array2<bool>`, and each phase is a method that states
  the whole new matrix in terms of the old one. `generateErrorDetection` and
  `bitsToCodewords` keep Swift value arrays, so they become methods over `seq`
  that carry loop invariants.
- Each method is proved against a specification function:
  - `Module(bits, r, c)` is the finished symbol;
  - `Codewords` is what `bitsToCodewords` returns;
  - `ErrorCodewords` is the remainder of the polynomial division;
  - `DataBits` is the encoded data.
- The lemmas prove what those functions mean:
  - the GF(256) tables invert each other on the nonzero bytes;
  - the corrected packing and unpacking are inverses;
  - the division clears the message positions;
  - the data region holds exactly 36 modules, in a known order;
  - the value can be read back from the data modules;
  - only data modules depend on the input.

Behaviour of the code that the model follows:
- Only the data bits are placed. `allBits` (the data bits followed by the
  error-detection bits) is computed and never used.
- The rows of every column pair are visited from 10 down to 0. There is no
  alternation of direction.
- The count field is always `001`, whatever the length of the input. Nothing
  rejects long inputs.
- A 37th data bit is written to `matrix[row][-1]`, which traps. The 36 data
  modules are all visited before the loop reaches column 0, and there
  `isDataRegion(row, -1)` holds for rows 8 to 10. The model therefore requires at most 36 data bits, which
  means a value below 2^30 (`DataEncoding.DataBitsFit`).
- The generator is `[1, α^25, α^5]` as written, with α^25 = 3 and α^5 = 32.

## Model

| member | source | states |
|---|---|---|
| Powers.Pow2 | SonnetM1microQR/MicroQR.swift:166-169 | a left shift by k multiplies by 2^k, which is at least 1 |
| GF256.XorBitsBound | SonnetM1microQR/MicroQR.swift:200 | XOR of two values below 2^n stays below 2^n |
| GF256.XorSelf | SonnetM1microQR/MicroQR.swift:200 | a value XORed with itself is 0 |
| GF256.Xor | SonnetM1microQR/MicroQR.swift:200 | XOR of two bytes is a byte, and is 0 when the operands are equal |
| GF256.XorZero | SonnetM1microQR/MicroQR.swift:200 | 0 is the identity of XOR on bytes |
| GF256.XorBits | SonnetM1microQR/MicroQR.swift:200 | `^` on naturals: the parity of the result is the parity of a + b, and the result is at most a + b |
| GF256.Step | SonnetM1microQR/MicroQR.swift:10-13 | one turn of `x << 1`, reduced by `^ 0b100011101` above 255, keeps a nonzero byte a nonzero byte |
| GF256.Register | SonnetM1microQR/MicroQR.swift:7-14 | the register at every turn of the loop holds a nonzero byte |
| GF256.ExpTable | SonnetM1microQR/MicroQR.swift:5-16 | the table has 256 entries, each in 1..255 |
| GF256.ExpTableShape | SonnetM1microQR/MicroQR.swift:8-14 | entry 0 is 1, and each entry is the previous one shifted left and reduced by 0x11D |
| GF256.BuildExpTable | SonnetM1microQR/MicroQR.swift:5-16 | the loop fills the table with the register's successive values |
| GF256.AlphaPowers | SonnetM1microQR/MicroQR.swift:5-16 | α^5 = 32, α^25 = 3, α^255 = 1, and α^15, α^51, α^85 are not 1 |
| GF256.NoShortCycle | SonnetM1microQR/MicroQR.swift:5-16 | no power α^d with 1 ≤ d < 255 is 1, so the reduction polynomial is primitive |
| GF256.PowersAreDistinct | SonnetM1microQR/MicroQR.swift:5-16 | the first 255 table entries are pairwise distinct |
| GF256.PowersCount | SonnetM1microQR/MicroQR.swift:5-16 | the first n entries form a set of n elements |
| GF256.EveryNonzeroByteIsAPower | SonnetM1microQR/MicroQR.swift:5-16 | every byte 1..255 is some α^i with i < 255 |
| GF256.MemberIsPower | SonnetM1microQR/MicroQR.swift:5-16 | each member of the set of the first n powers has an exponent below n |
| GF256.LogEntryIsLastWrite | SonnetM1microQR/MicroQR.swift:20-23 | a log entry is the last loop index that wrote it, or 0 if none did |
| GF256.LogTable | SonnetM1microQR/MicroQR.swift:19-25 | the log table has 256 entries, each an exponent in 0..254 |
| GF256.BuildLogTable | SonnetM1microQR/MicroQR.swift:19-25 | the loop leaves in `log[v]` the last i < 255 with `exp[i] == v` |
| GF256.BuiltLogTableIsLogTable | SonnetM1microQR/MicroQR.swift:19-25 | the table the loop builds from the exp table is the log table |
| GF256.LogOfPower | SonnetM1microQR/MicroQR.swift:21-23 | log(α^i) = i for i < 255 |
| GF256.LogOfOne | SonnetM1microQR/MicroQR.swift:19-25 | log(1) = 0 |
| GF256.PowerOfLog | SonnetM1microQR/MicroQR.swift:19-25 | α^log(v) = v for every nonzero byte |
| GF256.Multiply | SonnetM1microQR/MicroQR.swift:28-32 | the product is a byte, and it is 0 exactly when a factor is 0 |
| GF256.MultiplyCommutes | SonnetM1microQR/MicroQR.swift:28-32 | multiplication is commutative |
| GF256.MultiplyByOne | SonnetM1microQR/MicroQR.swift:28-32 | 1 is the identity of multiplication |
| GF256.MultiplyPowers | SonnetM1microQR/MicroQR.swift:28-32 | α^i · α^j = α^((i + j) mod 255) |
| Packing.BitsValue | SonnetM1microQR/MicroQR.swift:161-167 | the value accumulated by `(v << 1) \| bit` over n bits is below 2^n |
| Packing.PadToByte | SonnetM1microQR/MicroQR.swift:168-170 | zero padding to a multiple of 8 keeps the bits as a prefix and adds fewer than 8 zeros |
| Packing.FullBytes | SonnetM1microQR/MicroQR.swift:161-167 | the first q complete bytes are q values, each in 0..255 |
| Packing.Codewords | SonnetM1microQR/MicroQR.swift:157-173 | as written: n/8 + 1 codewords when n mod 8 ≠ 0, and n/8 − 1 when n is a nonzero multiple of 8; all are bytes |
| Packing.BitsToCodewords | SonnetM1microQR/MicroQR.swift:157-173 | the loop returns `Codewords(bits)` |
| Packing.FlushStep | SonnetM1microQR/MicroQR.swift:162-166 | at a multiple of 8, the byte in progress is the next complete byte and a new byte starts with the current bit |
| Packing.ByteBoundary | SonnetM1microQR/MicroQR.swift:162 | inside the byte in progress, `index % 8 == 0` holds only at its end |
| Packing.FlushPartial | SonnetM1microQR/MicroQR.swift:168-170 | after a count that is not a multiple of 8, the flushed byte is the tail shifted to the high bits |
| Packing.FlushNone | SonnetM1microQR/MicroQR.swift:168 | after a multiple of 8, the last full byte is never appended |
| Packing.ValueSnoc | SonnetM1microQR/MicroQR.swift:166 | one more bit doubles the value and adds the bit |
| Packing.UnpackBits | SonnetM1microQR/MicroQR.swift:175-183 | each codeword yields exactly 8 bits |
| Packing.CodewordsToBits | SonnetM1microQR/MicroQR.swift:175-183 | the loop returns `UnpackBits`, and bits 8k..8k+8 are codeword k from bit 7 down to bit 0 |
| Packing.UnpackBitsAt | SonnetM1microQR/MicroQR.swift:177-180 | bit 8k + i of the output is bit 7 − i of codeword k |
| Packing.UnpackBitsChunk | SonnetM1microQR/MicroQR.swift:177-180 | the k-th group of 8 output bits is codeword k |
| Packing.BitSet | SonnetM1microQR/MicroQR.swift:179 | `c & (1 << i) != 0` is false for every c in 0..2^i − 1 |
| Packing.BitSetOfHalf | SonnetM1microQR/MicroQR.swift:179 | bit j + 1 of c is bit j of c / 2 |
| Packing.BitOfValue | SonnetM1microQR/MicroQR.swift:179 | `c & (1 << j) != 0` on the packed value of some bits gives back the j-th bit from the end |
| Packing.ByteBitsOfValue | SonnetM1microQR/MicroQR.swift:166-179 | unpacking the value of 8 bits gives back those bits |
| Packing.NibbleBitsOfValue | SonnetM1microQR/MicroQR.swift:166-179 | the 4-bit rendering of the value of 4 bits gives back those bits |
| Packing.BitsOfValue | SonnetM1microQR/MicroQR.swift:178-180 | packing the n-bit rendering of c < 2^n gives back c |
| Packing.ValueOfByteBits | SonnetM1microQR/MicroQR.swift:175-183 | packing the 8 bits of a byte gives back the byte |
| Packing.ValueOfSnoc | SonnetM1microQR/MicroQR.swift:166 | appending a bit doubles the value and adds the bit |
| Packing.ValueOfZeroPadded | SonnetM1microQR/MicroQR.swift:169 | appending m zero bits is a left shift by m |
| Packing.PackBytes | SonnetM1microQR/MicroQR.swift:157-173 | corrected packing: ⌈n/8⌉ bytes, each in 0..255 |
| Packing.UnpackFullBytes | SonnetM1microQR/MicroQR.swift:157-183 | unpacking the complete bytes of 8q bits gives back the bits |
| Packing.UnpackSnoc | SonnetM1microQR/MicroQR.swift:175-183 | unpacking distributes over appending one codeword |
| Packing.FullBytesSplit | SonnetM1microQR/MicroQR.swift:161-167 | the first q bytes are the first q − 1 bytes followed by byte q − 1 |
| Packing.PackBytesRoundTrip | SonnetM1microQR/MicroQR.swift:157-183 | unpacking the packed bits gives the bits padded with zeros to a multiple of 8 |
| Packing.PackBytesOfFullBytes | SonnetM1microQR/MicroQR.swift:157-173 | for a multiple of 8 bits, the corrected packing is exactly the complete bytes |
| Packing.RepackedByte | SonnetM1microQR/MicroQR.swift:157-183 | byte k of repacked unpacked codewords is codeword k |
| Packing.PackUnpackedBytes | SonnetM1microQR/MicroQR.swift:157-183 | packing the unpacked bytes gives back the bytes |
| Packing.CodewordsAgainstPackBytes | SonnetM1microQR/MicroQR.swift:157-173 | the code agrees with the corrected packing when n mod 8 ≠ 0; at a nonzero multiple of 8 it returns the corrected packing without its last byte |
| Packing.PartialByteKept | SonnetM1microQR/MicroQR.swift:168-170 | when n mod 8 ≠ 0 the code returns the corrected packing |
| Packing.PaddedTail | SonnetM1microQR/MicroQR.swift:169 | the last padded byte is the tail value shifted left by 8 − n mod 8 |
| Packing.AsWrittenRoundTrip | SonnetM1microQR/MicroQR.swift:157-183 | when n mod 8 ≠ 0, `codewordsToBits(bitsToCodewords(bits))` is the bits followed by zeros up to the next multiple of 8 |
| Packing.PackedLastByte | SonnetM1microQR/MicroQR.swift:157-170 | the corrected packing of a partial last byte is the complete bytes, then the last padded byte |
| Packing.FullByteDropped | SonnetM1microQR/MicroQR.swift:161-170 | at a nonzero multiple of 8 the last full byte is missing |
| Packing.FullBytesOfPrefix | SonnetM1microQR/MicroQR.swift:161-167 | the first q bytes depend only on the first 8q bits |
| Packing.DroppedByte | SonnetM1microQR/MicroQR.swift:161-170 | the 8 bits 10000000 give no codeword, where the corrected packing gives [128] |
| ErrorDetection.Generator | SonnetM1microQR/MicroQR.swift:188-189 | the generator is monic of degree 2 |
| ErrorDetection.GeneratorValues | SonnetM1microQR/MicroQR.swift:189 | the generator coefficients are [1, 3, 32] |
| ErrorDetection.Scaled | SonnetM1microQR/MicroQR.swift:198-199 | the scaled generator has 3 terms and its leading term is the lead coefficient |
| ErrorDetection.DivisionStep | SonnetM1microQR/MicroQR.swift:196-202 | one step zeroes position i and changes only positions i to i + 2 |
| ErrorDetection.DivisionStepAt | SonnetM1microQR/MicroQR.swift:196-202 | position k after a step is `r[k] ^ multiply(g[k-i], lead)` inside the window when lead ≠ 0, else unchanged |
| ErrorDetection.Divide | SonnetM1microQR/MicroQR.swift:195-203 | the division keeps the buffer length |
| ErrorDetection.DivideClears | SonnetM1microQR/MicroQR.swift:195-203 | after n steps the first n positions are 0 and the positions past n + 1 are untouched |
| ErrorDetection.Remainder | SonnetM1microQR/MicroQR.swift:191-206 | the remainder is 2 codewords |
| ErrorDetection.ErrorCodewords | SonnetM1microQR/MicroQR.swift:185-207 | the error-detection codewords are 2 bytes |
| ErrorDetection.GenerateErrorDetection | SonnetM1microQR/MicroQR.swift:185-207 | the loop returns `ErrorCodewords(message)`: 2 bytes |
| ErrorDetection.SubtractScaled | SonnetM1microQR/MicroQR.swift:198-201 | the inner loop performs exactly one division step |
| ErrorDetection.DivideZeros | SonnetM1microQR/MicroQR.swift:195-203 | dividing an all-zero buffer leaves it unchanged |
| ErrorDetection.ZeroMessage | SonnetM1microQR/MicroQR.swift:185-207 | an all-zero message has error codewords [0, 0] |
| ErrorDetection.SingleCodewordRemainder | SonnetM1microQR/MicroQR.swift:191-206 | a one-codeword message c has remainder [g1·c, g2·c] |
| ErrorDetection.SingleCodeword | SonnetM1microQR/MicroQR.swift:185-207 | a one-codeword message c has error codewords [α^25·c, α^5·c] |
| ErrorDetection.StepShift | SonnetM1microQR/MicroQR.swift:196-202 | a division step commutes with a leading zero codeword |
| ErrorDetection.DivideShift | SonnetM1microQR/MicroQR.swift:195-203 | the division commutes with a leading zero codeword |
| ErrorDetection.LeadingZero | SonnetM1microQR/MicroQR.swift:185-207 | a leading zero codeword does not change the error codewords |
| DataEncoding.DecimalValue | SonnetM1microQR/MicroQR.swift:83 | `Int(data)` on a digit string is 0 exactly when every digit is 0 |
| DataEncoding.DecimalDigit | SonnetM1microQR/MicroQR.swift:83 | a digit below 10 renders as the character that denotes it |
| DataEncoding.Decimal | SonnetM1microQR/MicroQR.swift:83 | the decimal rendering of a number is a digit string that `Int(_)` accepts |
| DataEncoding.DecimalRoundTrip | SonnetM1microQR/MicroQR.swift:83 | reading the decimal rendering of v gives v |
| DataEncoding.Binary | SonnetM1microQR/MicroQR.swift:84 | `String(value, radix: 2)` is a nonempty string of 0s and 1s, which starts with 1 when the value is positive |
| DataEncoding.PadLeft | SonnetM1microQR/MicroQR.swift:212-218 | the result has length max(toLength, count), ends with the string, and has only pad characters before it |
| DataEncoding.ToBits | SonnetM1microQR/MicroQR.swift:85 | `map { $0 == "1" }` keeps the length, and bit i is set exactly when character i is "1" |
| DataEncoding.ToBitsAppend | SonnetM1microQR/MicroQR.swift:85 | the map distributes over concatenation |
| DataEncoding.BinaryValue | SonnetM1microQR/MicroQR.swift:84-85 | the bits of the radix-2 string are the value |
| DataEncoding.BinaryLength | SonnetM1microQR/MicroQR.swift:84 | the radix-2 string of v has the minimal length: 2^(len−1) ≤ v < 2^len, for v > 0 |
| DataEncoding.ValueOfLeadingZeros | SonnetM1microQR/MicroQR.swift:212-218 | left padding with zeros does not change the value |
| DataEncoding.ValueBits | SonnetM1microQR/MicroQR.swift:84-85 | the value field has max(4, len) bits |
| DataEncoding.ValueBitsValue | SonnetM1microQR/MicroQR.swift:84-85 | the value field denotes the input value |
| DataEncoding.SmallValueBits | SonnetM1microQR/MicroQR.swift:84-85 | for a single digit (v < 16) the value field is exactly the 4-bit rendering of v |
| DataEncoding.Framed | SonnetM1microQR/MicroQR.swift:79-88 | the count, value and terminator fields are 6 bits more than the value field |
| DataEncoding.DataBits | SonnetM1microQR/MicroQR.swift:77-98 | the data bits are at least 20 |
| DataEncoding.EncodeData | SonnetM1microQR/MicroQR.swift:77-98 | the appends and the two padding loops return `DataBits(value)` |
| DataEncoding.FramedPrefix | SonnetM1microQR/MicroQR.swift:91-98 | the padding only appends after the three fields |
| DataEncoding.CountField | SonnetM1microQR/MicroQR.swift:80 | the data bits start with 001 |
| DataEncoding.ValueField | SonnetM1microQR/MicroQR.swift:82-85 | bits 3 to 3 + w of the data bits denote the value |
| DataEncoding.TrailingZeros | SonnetM1microQR/MicroQR.swift:88-98 | every bit after the value field is 0 |
| DataEncoding.DataBitsFields | SonnetM1microQR/MicroQR.swift:77-98 | the data bits are 001, the value field, then zeros: the three facts together |
| DataEncoding.SmallValueLayout | SonnetM1microQR/MicroQR.swift:77-98 | for v < 16 the data bits are 001, the 4 bits of v, 000, then ten zeros |
| DataEncoding.BinaryLengthBound | SonnetM1microQR/MicroQR.swift:84 | the radix-2 string has at most m digits exactly when v < 2^m |
| DataEncoding.DataBitsSize | SonnetM1microQR/MicroQR.swift:91-98 | the data bits are 20 when the value has at most 14 binary digits, else 6 more than its digits |
| DataEncoding.DataBitsFit | SonnetM1microQR/MicroQR.swift:77-98 | the data bits fit the 36 data modules exactly when the value is below 2^30 |
| DataEncoding.DataBitsMinimal | SonnetM1microQR/MicroQR.swift:91-98 | the data bits are exactly 20 exactly when the value is below 2^14 |
| DataRegion.IsDataRegion | SonnetM1microQR/MicroQR.swift:141-155 | a data module in the nonnegative quadrant lies off row 0 and column 0 and outside the 9×9 top-left corner; every module from row 9 and column 1 on, or from row 1 and column 9 on, is a data module |
| DataRegion.DataRegionInGrid | SonnetM1microQR/MicroQR.swift:141-155 | inside the grid, the data region is rows 1–8 of columns 9–10 plus rows 9–10 of columns 1–10 |
| DataRegion.ColumnMinusOne | SonnetM1microQR/MicroQR.swift:119 | `isDataRegion(row, -1)` holds for rows 8 and up |
| DataRegion.ScanIndex | SonnetM1microQR/MicroQR.swift:113-124 | the place of a data module in the placement order is below 36 |
| DataRegion.CellAt | SonnetM1microQR/MicroQR.swift:113-124 | the k-th module visited is a data module inside the grid |
| DataRegion.ScanIndexOfCellAt | SonnetM1microQR/MicroQR.swift:113-124 | the place of the k-th visited module is k |
| DataRegion.CellAtScanIndex | SonnetM1microQR/MicroQR.swift:113-124 | the module visited at a data module's place is that module, so the order is a bijection onto 0..35 |
| DataRegion.LeftColumnsIndex | SonnetM1microQR/MicroQR.swift:113-124 | the bijection on columns 1 to 8 |
| DataRegion.LeftPairIndex | SonnetM1microQR/MicroQR.swift:113-124 | the bijection on one column pair of rows 9–10 |
| DataRegion.CellsBelow | SonnetM1microQR/MicroQR.swift:113-124 | the modules visited before place n are data modules and include every CellAt(k), k < n |
| DataRegion.CellsBelowIndices | SonnetM1microQR/MicroQR.swift:113-124 | every module visited before place n has its place below n |
| DataRegion.CellsBelowCount | SonnetM1microQR/MicroQR.swift:113-124 | n modules are visited before place n |
| DataRegion.DataCellCount | SonnetM1microQR/MicroQR.swift:141-155 | the data region has exactly 36 modules |
| DataRegion.RankStep | SonnetM1microQR/MicroQR.swift:114-123 | a row of the scan visits column col, then col − 1, at the next places in the order; column −1 is only reached past all 36 |
| DataRegion.RankNextPair | SonnetM1microQR/MicroQR.swift:113-114 | the scan of a column pair continues where the previous pair ended |
| MicroQR.FormatBitsValue | SonnetM1microQR/MicroQR.swift:66 | the 15 format bits read as 0x4445 |
| MicroQR.FormatFirst | SonnetM1microQR/MicroQR.swift:66 | the first 5 format bits read as 17 |
| MicroQR.FormatMiddle | SonnetM1microQR/MicroQR.swift:66 | the first 10 format bits read as 546 |
| MicroQR.FormatPrefix | SonnetM1microQR/MicroQR.swift:66 | each format prefix is the previous one shifted left plus the next bit |
| MicroQR.MaskBit | SonnetM1microQR/MicroQR.swift:131 | `(i + j) % 2 == 0` holds exactly when row and column have the same parity |
| MicroQR.FixedModule | SonnetM1microQR/MicroQR.swift:38-74 | the modules phases 1–3 write; every data module is light |
| MicroQR.Module | SonnetM1microQR/MicroQR.swift:38-136 | the finished symbol: removing the mask from a data module whose place is below the bit count gives the bit at that place |
| MicroQR.AddFinder | SonnetM1microQR/MicroQR.swift:40-52 | phase 1 sets the finder ring and the 3×3 core dark and changes nothing else |
| MicroQR.AddTiming | SonnetM1microQR/MicroQR.swift:54-63 | phase 2 sets row 0 and column 0 from index 7 on to `index % 2 == 0` and changes nothing else |
| MicroQR.AddFormat | SonnetM1microQR/MicroQR.swift:65-74 | phase 3 writes format bit i − 1 to (i, 8) and bit 15 − j to (8, j), and changes nothing else |
| MicroQR.PlaceModule | SonnetM1microQR/MicroQR.swift:115-122 | one guarded write places the next bit exactly when the module is a data module and bits remain |
| MicroQR.PlacePair | SonnetM1microQR/MicroQR.swift:114-123 | one row of a column pair advances the count of placed bits to the scan's next place |
| MicroQR.PlaceData | SonnetM1microQR/MicroQR.swift:111-124 | phase 5 writes bit ScanIndex(r, c) to each data module, or leaves it light once the bits run out, and changes nothing else |
| MicroQR.OnlyModuleAt | SonnetM1microQR/MicroQR.swift:111-124 | no two data modules share a place in the order, so no module is written twice |
| MicroQR.ApplyMask | SonnetM1microQR/MicroQR.swift:126-136 | phase 6 toggles exactly the data modules with even row + column |
| MicroQR.AddFunctionPatterns | SonnetM1microQR/MicroQR.swift:38-74 | phases 1–3 on a light matrix give the input-independent modules |
| MicroQR.EncodeWithErrorDetection | SonnetM1microQR/MicroQR.swift:76-108 | phase 4 gives `DataBits(value)`, which fits 36 modules exactly when value < 2^30; `allBits` is those bits followed by the unpacked error codewords of their packing |
| MicroQR.PlaceAndMask | SonnetM1microQR/MicroQR.swift:111-136 | phases 5–6 turn the fixed modules into `Module(dataBits, r, c)` everywhere |
| MicroQR.GenerateM1WithData | SonnetM1microQR/MicroQR.swift:36-139 | the returned matrix is new, 11×11, and is `Module(DataBits(Int(data)), r, c)` at every module |
| MicroQR.FunctionPatterns | SonnetM1microQR/MicroQR.swift:40-74 | in every symbol: the finder pattern, its light separator, the alternating timing and the format bits in both L-shaped strips |
| MicroQR.OnlyDataModulesDiffer | SonnetM1microQR/MicroQR.swift:36-139 | two symbols differ only in data modules |
| MicroQR.UnplacedModule | SonnetM1microQR/MicroQR.swift:111-136 | a data module past the last bit shows only the mask |
| MicroQR.RightColumns | SonnetM1microQR/MicroQR.swift:111-136 | in columns 9–10, the module at row r shows bit 2(10 − r) + (10 − c) XOR the mask |
| MicroQR.BottomRowsCarryNoData | SonnetM1microQR/MicroQR.swift:91-136 | for a value below 2^14, rows 9–10 of columns 1–8 show only the mask |
| MicroQR.ReadData | SonnetM1microQR/MicroQR.swift:111-136 | reading n data modules in placement order and removing the mask gives n bits |
| MicroQR.ReadDataRoundTrip | SonnetM1microQR/MicroQR.swift:111-136 | reading the symbol back in placement order gives exactly the placed bits |
| MicroQR.SymbolReadsBack | SonnetM1microQR/MicroQR.swift:76-136 | for every value below 2^30 the symbol's data modules read back as count field 001 followed by the value |
| MicroQR.DigitModules | SonnetM1microQR/MicroQR.swift:82-124 | for a single digit, modules 3 to 6 in placement order carry its 4-bit rendering, which reads back as the digit |

## Findings

| source | as written | input that shows it | evidently intended | confidence | as-written member | corrected member |
|---|---|---|---|---|---|---|
| SonnetM1microQR/MicroQR.swift:161-170 | a byte is flushed only when the next bit arrives at a multiple of 8, and the final flush only runs when the count is not a multiple of 8, so the last complete byte is lost | the 8 bits 10000000 give no codeword instead of [128]; so does a data value in 2^17..2^18 − 1, whose 24 data bits give 2 codewords | every bit packed, the last byte padded with zeros | not executed | Packing.DroppedByte | Packing.PackBytesRoundTrip |

`Packing.Codewords` and `Packing.BitsToCodewords` model the code as written.
`Packing.PackBytes` is the corrected packing. `Packing.PackBytesRoundTrip` and
`Packing.PackUnpackedBytes` prove that it round-trips.
`Packing.CodewordsAgainstPackBytes` proves two things:
- the code agrees with `PackBytes` whenever the bit count is not a multiple of 8;
- otherwise the code returns `PackBytes` without its last byte.

Every input whose value is below 2^14 has 20 data bits, so the encoder's
codewords for it are the corrected ones.

## Left out

- The app's window and the view that draws the matrix
  (`ContentView.swift`, `SonnetM1microQRApp.swift`). They only display the result.
- `Int(data)!` is modelled only on strings of decimal digits. Signs, and the
  trap on text that is not a number or overflows `Int`, are not modelled:
  `IsDecimal` is a precondition.
- MicroQR.GenerateM1WithData: requires a value below 2^30. Above that, the
  source traps on `matrix[row][-1]` instead of returning.
- DataEncoding.PadLeft and DataEncoding.ToBits: strings are sequences of
  Unicode scalars, so lengths and `map` count scalars, where Swift's `count`
  and `map` count grapheme clusters. The two differ when one character is
  made of several scalars, such as `"\r\n"`. They agree on the ASCII
  radix-2 strings that the encoder passes.
- GF256.Multiply, GF256.BuildLogTable and ErrorDetection.GenerateErrorDetection
  take only byte values (nonzero bytes for `Multiply`). The Swift code accepts
  any `Int` and traps on `logTable[a]` or `log[expTable[i]]` when a value is
  out of range. Every caller inside the encoder passes bytes.
- The tables `expTable` and `logTable` are lazily initialised statics. They are
  modelled as the functions `ExpTable` and `LogTable`, and as the methods that
  build them.
- The `<< 1` and `^ 0b100011101` register of `expTable` is modelled on `bv9`.
  Its values stay below 512, so the model is exact.
- The placement loop's two guarded writes and the inner loop of
  `generateErrorDetection` are separate methods (`PlaceModule`, `PlacePair`,
  `SubtractScaled`). The phases of `generateM1WithData` are also grouped into
  helper methods. None of this changes the order of writes.
- The matrix is an `array2<bool>` rather than an array of row arrays. No row is
  shared, so nothing is lost by this.
- Packing.BitsToCodewords: its relation to the corrected packing is stated by
  `CodewordsAgainstPackBytes`, not by the method's own contract.
- `allBits` is stated by `EncodeWithErrorDetection`. The matrix never uses
  it, as in the source.
