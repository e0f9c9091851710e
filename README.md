# EdgeTX YAML bit and number codec, in Dafny

This project models `radio/src/storage/yaml/yaml_bits.cpp` from the EdgeTX
radio firmware. The firmware's YAML storage layer uses this code for two
jobs:

- It packs model and radio settings into bit fields of byte buffers.
- It turns numbers into text and back.

The model covers all three groups of functions in the file:

- **Bit packing** (`bitput.dfy`, `bitget.dfy`).
  - `yaml_put_bits` is `BitPut.PutBits`. It is a method over an `array` of
    bytes, with a base index standing for the C pointer.
  - `yaml_get_bits` is `BitGet.GetBits`, and `yaml_is_zero` is
    `BitGet.IsZero`. Both are methods over the byte sequence they read.
  - `yaml_to_signed` is `BitGet.ToSigned`, a function.
- **Parsers** (`numparse.dfy`). `yaml_str2uint(_ref)`, `yaml_str2int(_ref)`
  and `yaml_hex2uint` become methods with the source's loops. A `_ref`
  variant also returns the rest of the buffer and its length, which are
  what the C pointer and length point to after the call.
- **Writers** (`numformat.dfy`). `yaml_unsigned2str`, `yaml_signed2str`,
  `yaml_unsigned2hex` and `yaml_rgb2hex` become methods with the source's
  loops. Each returns the characters of the C string it produces.

Each method is proved against a specification function:

- `BitField.Field` is the `w`-bit field at bit offset `o`. It is defined on
  the little-endian bit image `BitSeq.Bits` of the bytes.
- `BitField.PutImage` is that bit image after a store.
- `NumText.Run` is the longest accepted prefix of a buffer.
- `NumText.Decimal`, `NumText.Magnitude`, `NumText.SignedValue` and
  `NumText.HexNumber` are the values the readers give a text.
- `NumText.DecimalText`, `NumText.SignedText` and `NumText.HexText` are the
  texts the writers produce.

Lemmas then prove the round trips between the two sides:

- a field read back after a store;
- a signed value recovered by sign extension;
- every number text read back by its parser.

Small methods then compose the operations themselves. `BitGet.PutThenGet`
and `BitGet.PutThenGetSigned` store a field and read it back.
`numroundtrip.dfy` feeds the text of each writer to its reader.

`arith.dfy`, `bitseq.dfy` and `seqs.dfy` hold the bit arithmetic and the
sequence facts. There, `Shr`, `Shl`, `Low`, `And` and `Or` are `>>`, `<<`,
masking to the low k bits, `&` and `|`, defined on unbounded naturals.

`yaml_put_bits` has one edge case, which the model keeps. When the field
starts inside the first byte (`bit_ofs > 0`) and also ends inside it, the
store clears that byte's bits above the field. It keeps only the bits below
`bit_ofs`. `PutImage` states this case, and `BitField.PutKeepsAbove` proves
which bits survive.

The `-` sign of `yaml_str2int` is also taken as written. A `-` is accepted
anywhere in the numeric prefix. Any `-` makes the result negative, and the
digits add up as if the signs were not there.

## Model

| member | source | states |
|---|---|---|
| BitPut.PutBits | radio/src/storage/yaml/yaml_bits.cpp:29-56 | Each covered byte becomes `PutByte` of its old value. The first byte keeps its bits below `bit_ofs` and takes the low bits of the masked value above them. Whole bytes of the value follow. The last partial byte keeps its bits above the field. No byte outside the covered ones changes. |
| BitPut.StoreBytes | radio/src/storage/yaml/yaml_bits.cpp:45-55 | The byte-aligned part of a store. Whole bytes of the value come low byte first. Then a last byte takes the remaining low bits and keeps its own higher bits. Every other byte is unchanged. |
| BitPut.PutBytesImage | radio/src/storage/yaml/yaml_bits.cpp:29-56 | The bytes a store leaves have the bit image `PutImage`. The bits below the field are kept, the field holds the low `bits` bits of the value, and the bits above are kept. The exception is a field that ends inside its first byte: the rest of that byte is cleared. |
| BitField.FieldOfPut | radio/src/storage/yaml/yaml_bits.cpp:29-56 | In the image of a store, the field reads as the low `bits` bits of the stored value. |
| BitField.PutKeepsBelow | radio/src/storage/yaml/yaml_bits.cpp:35 | A store keeps every bit below the field. |
| BitField.PutKeepsAbove | radio/src/storage/yaml/yaml_bits.cpp:35-54 | A store keeps every bit above the field. The exception is a field that starts at `bit_ofs > 0` and ends inside the first byte: there the rest of that byte reads as zeros. |
| BitGet.GetBits | radio/src/storage/yaml/yaml_bits.cpp:59-89 | The result is the `bits`-wide field at `bit_ofs` of the buffer, and it is below 2^bits. |
| BitField.FieldPrefix | radio/src/storage/yaml/yaml_bits.cpp:59-89 | A field depends only on the bytes that cover it. |
| BitGet.GetAfterPut | radio/src/storage/yaml/yaml_bits.cpp:29-89 | Reading a field back from the bytes a store produced gives the stored value masked to its low `bits` bits. |
| BitGet.IsZero | radio/src/storage/yaml/yaml_bits.cpp:93-119 | The result is true exactly when the field of `bits` bits at `bitoffs` reads as zero. This covers the unaligned case up to 32 bits and the aligned case of any width. |
| BitField.FieldZero | radio/src/storage/yaml/yaml_bits.cpp:93-119 | A field reads as zero exactly when none of the bits in `[bitoffs, bitoffs + bits)` is set. |
| BitGet.WordZero | radio/src/storage/yaml/yaml_bits.cpp:102-106 | When the bits before a word are clear, the range through that word is clear exactly when the 32-bit word of four bytes is zero. |
| BitGet.ByteZeroStep | radio/src/storage/yaml/yaml_bits.cpp:108-112 | When the bits before a byte are clear, the range through that byte is clear exactly when the byte is zero. |
| BitGet.BytesZero | radio/src/storage/yaml/yaml_bits.cpp:102-112 | A field made of c whole bytes is zero exactly when each of those bytes is zero. |
| BitGet.LastBitsZero | radio/src/storage/yaml/yaml_bits.cpp:114-118 | When the first bits of a range are clear, the whole range is clear exactly when its last bits, read from the current byte on, are zero. |
| BitGet.ToSigned | radio/src/storage/yaml/yaml_bits.cpp:239-246 | When bit `bits - 1` of `i` is set, the result keeps the low `bits` bits of `i` and has every bit from `bits` up to 31 set. Otherwise all 32 bits of `i` are kept. Either way the result is those 32 bits read as `int32_t`. The body tests `i & (1 << (bits - 1))` and computes `i | (0xFFFFFFFF << bits)` with the bitwise `And` and `Or`. |
| Arith.BitTest | radio/src/storage/yaml/yaml_bits.cpp:241 | `n & (1 << k)` is non-zero exactly when bit k of n is set. |
| BitGet.SignExtended | radio/src/storage/yaml/yaml_bits.cpp:241-243 | `i | (0xFFFFFFFF << bits)` fits in 32 bits, keeps the low `bits` bits of `i` and has all the bits above them set. |
| BitGet.SignFill | radio/src/storage/yaml/yaml_bits.cpp:242 | `i | (0xFFFFFFFF << bits)`, with the shift kept to 32 bits, is the low `bits` bits of `i` plus 2^32 - 2^bits. Stray bits of `i` above `bits` make no difference. |
| BitGet.OrHigh | radio/src/storage/yaml/yaml_bits.cpp:242 | Or-ing the ones above bit `bits` into a `uint32_t` keeps its low `bits` bits and sets all the others. |
| BitGet.HighMask | radio/src/storage/yaml/yaml_bits.cpp:242 | `0xFFFFFFFF << bits`, kept to 32 bits, is the 32 - bits ones shifted up by `bits`, which is 2^32 - 2^bits. |
| BitGet.ToSignedValue | radio/src/storage/yaml/yaml_bits.cpp:239-246 | On a `bits`-wide value, sign extension subtracts 2^bits exactly when bit `bits - 1` is set. |
| BitGet.TwosComplementOfToSigned | radio/src/storage/yaml/yaml_bits.cpp:239-246 | A sign-extended field lies in the signed range of `bits` bits, and its two's complement pattern is the field again. |
| BitGet.ToSignedOfTwosComplement | radio/src/storage/yaml/yaml_bits.cpp:239-246 | Sign extension recovers every value of the signed range of `bits` bits from its pattern. |
| BitGet.HighOnes | radio/src/storage/yaml/yaml_bits.cpp:242 | The 32 - bits ones shifted left by `bits` are 2^32 - 2^bits. `HighMask` uses this for the mask of line 242, and `LowOfSigned` for the bits a negative value has above its field. |
| BitGet.LowOfSigned | radio/src/storage/yaml/yaml_bits.cpp:31 | Masking a signed value, passed as `uint32_t`, to `bits` bits gives its two's complement pattern of `bits` bits. |
| BitGet.SignedRoundTrip | radio/src/storage/yaml/yaml_bits.cpp:239-246 | Take a signed value stored with `yaml_put_bits` in a field of 0 < bits <= 32. Sign-extending the field read back gives that value. |
| BitGet.PutThenGet | radio/src/storage/yaml/yaml_bits.cpp:29-89 | `yaml_put_bits` followed by `yaml_get_bits` on the same field returns the low `bits` bits of the stored value. |
| BitGet.PutThenGetSigned | radio/src/storage/yaml/yaml_bits.cpp:29-89 | A signed value in the range of `bits` bits, stored with `yaml_put_bits`, read back with `yaml_get_bits` and passed through `yaml_to_signed`, is the value stored. |
| BitGet.AsI32 | radio/src/storage/yaml/yaml_bits.cpp:245 | Converting `uint32_t` to `int32_t` keeps the value modulo 2^32. |
| BitGet.AsU32 | radio/src/storage/yaml/yaml_bits.cpp:29 | Converting `int32_t` to `uint32_t` is undone by the conversion back. |
| NumParse.Str2UintRef | radio/src/storage/yaml/yaml_bits.cpp:145-159 | The reader consumes exactly the longest run of digits within `val_len`. It returns the rest of the buffer and `val_len` minus the count consumed. The value is the decimal value of that run modulo 2^32. |
| NumParse.Str2Uint | radio/src/storage/yaml/yaml_bits.cpp:161-164 | The value is the decimal value, modulo 2^32, of the longest run of digits within `val_len`. |
| NumParse.DecimalStep | radio/src/storage/yaml/yaml_bits.cpp:151 | One `i * 10 + digit` step on a wrapping `uint32_t` gives the same result as the step on the exact value, reduced modulo 2^32. |
| NumParse.Str2IntRef | radio/src/storage/yaml/yaml_bits.cpp:121-138 | The reader consumes exactly the longest run of digits and `-` signs within `val_len`. It returns the rest of the buffer and the remaining length. The value is the decimal value of the run's digits, negated when the run holds any `-`. |
| NumParse.Str2Int | radio/src/storage/yaml/yaml_bits.cpp:140-143 | The value is that of the longest run of digits and `-` signs: its digits in decimal, negated when it holds a `-`. |
| NumParse.Hex2Uint | radio/src/storage/yaml/yaml_bits.cpp:166-187 | The value is the hexadecimal value, modulo 2^32, of the longest run of hexadecimal digits of either case within `val_len`. |
| NumParse.HexStep | radio/src/storage/yaml/yaml_bits.cpp:172-179 | A 4-bit left shift of a wrapping `uint32_t` followed by or-ing in a digit gives the exact `16 * i + digit`, reduced modulo 2^32. |
| NumParse.RunStop | radio/src/storage/yaml/yaml_bits.cpp:149-156 | A loop that consumed accepted characters and stopped at the end of `val_len`, or at a character it does not accept, consumed exactly the longest accepted prefix. |
| NumText.RunUnique | radio/src/storage/yaml/yaml_bits.cpp:149-156 | Only one prefix is made of accepted characters and also ends the text or stops at a character that is not accepted. |
| NumFormat.Unsigned2Str | radio/src/storage/yaml/yaml_bits.cpp:192-201 | The text is the last `MAX_STR - 2` digits of the decimal text of `i`: no leading zero, and "0" for zero. When `MAX_STR >= 12` it is the whole decimal text. |
| NumFormat.Signed2Str | radio/src/storage/yaml/yaml_bits.cpp:203-212 | A negative value is written as `-` in front of the digits of its magnitude, and any other value as its digits. The text is at most `MAX_STR - 1` characters long. When `MAX_STR >= 12` it is the full signed decimal text. |
| NumFormat.Unsigned2Hex | radio/src/storage/yaml/yaml_bits.cpp:219-227 | The text is the eight upper-case hexadecimal digits of `i`, most significant first. |
| NumFormat.Rgb2Hex | radio/src/storage/yaml/yaml_bits.cpp:229-237 | The text is the six upper-case hexadecimal digits of the low 24 bits of `i`, most significant first. |
| NumText.DecimalOfText | radio/src/storage/yaml/yaml_bits.cpp:192-201 | Reading the decimal text of n gives n. |
| NumText.DecimalTextU32 | radio/src/storage/yaml/yaml_bits.cpp:194-198 | A `uint32_t` has at most ten decimal digits, so with `MAX_STR >= 12` none is cut off. |
| NumText.UnsignedTextRoundTrip | radio/src/storage/yaml/yaml_bits.cpp:192-201 | `yaml_str2uint` reads back all of what `yaml_unsigned2str` wrote and returns the original value. This holds when the text ends or is followed by a non-digit. |
| NumText.SignedTextRoundTrip | radio/src/storage/yaml/yaml_bits.cpp:203-212 | `yaml_str2int` reads back all of what `yaml_signed2str` wrote. The text holds a `-` exactly for negative values, and the value read is the original value. |
| NumText.SignedTextValue | radio/src/storage/yaml/yaml_bits.cpp:203-212 | The signed text holds a `-` exactly when the value is negative, and its digits spell the magnitude of the value. |
| NumText.HexOfText | radio/src/storage/yaml/yaml_bits.cpp:219-237 | Reading n hexadecimal digits written most significant first gives the low 4n bits of the value. |
| NumText.HexTextRoundTrip | radio/src/storage/yaml/yaml_bits.cpp:219-227 | `yaml_hex2uint` reads back the eight digits `yaml_unsigned2hex` wrote and returns the original value. |
| NumText.RgbTextRoundTrip | radio/src/storage/yaml/yaml_bits.cpp:229-237 | `yaml_hex2uint` reads back the six digits `yaml_rgb2hex` wrote and returns the low 24 bits, that is the colour. |
| NumRoundTrip.UnsignedRoundTrip | radio/src/storage/yaml/yaml_bits.cpp:161-201 | `yaml_str2uint` applied to the text of `yaml_unsigned2str(n)` returns n when `MAX_STR >= 12`. |
| NumRoundTrip.SignedRoundTrip | radio/src/storage/yaml/yaml_bits.cpp:140-212 | `yaml_str2int` applied to the text of `yaml_signed2str(v)` returns v when `MAX_STR >= 12`. |
| NumRoundTrip.HexRoundTrip | radio/src/storage/yaml/yaml_bits.cpp:166-227 | `yaml_hex2uint` applied to the eight digits of `yaml_unsigned2hex(n)` returns n. |
| NumRoundTrip.RgbRoundTrip | radio/src/storage/yaml/yaml_bits.cpp:166-237 | `yaml_hex2uint` applied to the six digits of `yaml_rgb2hex(n)` returns the low 24 bits of n. |

## Left out

- The static text buffer is not modelled. Each writer returns its text as a fresh sequence. A later call overwriting the text an earlier call returned is not captured. The terminating NUL is implicit in the sequence's length.
- `MAX_STR` is defined in a header that is not part of this model, so it is the parameter `maxStr`. The decimal writers require `maxStr >= 3`, which leaves room for the sign. The hexadecimal writers need `MAX_STR >= 9` in C. They are modelled without a buffer bound.
- Buffers that are only read are sequences, starting where the C pointer points. `yaml_put_bits` writes through an array and a base index. Memory beyond the buffer is not modelled. Every access must stay within the sequence or the array.
- BitPut.PutBits: `bits == 32` is modelled as the evidently intended mask of all 32 bits. The C mask `(1UL << bits) - 1` shifts by the full width of `unsigned long` where that type is 32 bits wide, and the C standard leaves that undefined. Widths above 32 are not modelled.
- BitGet.GetBits: widths above 32 are not modelled, because their shifts leave the 32-bit accumulator.
- BitGet.IsZero: an unaligned range wider than 32 bits is excluded by its precondition. The source's own comment says the unaligned case supports at most 32 bits.
- BitGet.IsZero: the source loads an unaligned `uint32_t` for the word test. The model compares the four bytes with zero instead. A word is zero exactly when its four bytes are, whatever the byte order.
- BitGet.ToSigned: `bits == 0` is excluded, because `1 << (bits - 1)` is then undefined. `bits == 32` is modelled as the evidently intended case with no bits to extend, because `0xFFFFFFFF << 32` is undefined.
- NumParse.Str2IntRef: the `int` accumulator must not overflow. The precondition bounds the magnitude of the consumed prefix below 2^31, since overflow of a signed `int` is undefined. The same holds for NumParse.Str2Int.
- NumFormat.Signed2Str: `INT32_MIN` is excluded. Negating it overflows `int32_t`.
