# binarypack and padding helpers, modelled in Dafny

This project models two parts of a small Go utility library.

**The `binarypack` codec** (`library/binarypack/bp.go`). It converts between Go values and byte slices. The layout is given by a format: a list of tokens.

| Token | Meaning |
|---|---|
| `<` | sets little-endian order |
| `>`, `!` | set big-endian order |
| `?` | a bool, 1 byte |
| `h`, `H` | an int64, 2 bytes |
| `i`, `I`, `l`, `L` | an int64, 4 bytes |
| `q`, `Q` | an int64, 8 bytes |
| `f` | a float32 |
| `d` | a float64 |
| any token containing `s` | a fixed string of `N` bytes, `N` being the number before the `s` |

The codec has four operations:
- `CalcSize` gives the byte size of a format;
- `formatLen` counts the values a format claims;
- `Pack` writes a list of values;
- `UnPack` reads them back.

**The block-padding helpers** of `library/crypto/des.go`: PKCS#5 padding and zero padding, and their inverses.

The modules:

| Module | What it holds |
|---|---|
| `Bytes` | sequence helpers; `Reverse` |
| `Encoding` | the fixed-width layouts: two's-complement integers cut to the field width, booleans, float bit patterns, and the two byte orders |
| `Format` | the token grammar, `CalcSize`, `formatLen`, and the values and errors of the codec |
| `PackEngine` | `Pack` |
| `UnpackEngine` | `UnPack` |
| `RoundTrip` | what `UnPack` returns for what `Pack` wrote, and the reverse direction |
| `Padding` | the des.go helpers |
| `Vectors` | worked examples taken from `library/pack/bp_test.go` |

How the model is written:
- `CalcSize`, `formatLen`, `Pack`, `UnPack` and `reverse` are methods with loops, like the Go code. Each is proved equal to a specification function: `SizeOf`, `ValueSlots`, `Packed`, `Unpacked` and `Reversed`.
- The properties are proved about those specification functions.
- A Go `(value, error)` pair is an `Outcome(value, err)`.
- A value in the `[]interface{}` list is a `Value`. Values of any Go type that no token accepts (an `int`, an `int8`, a `rune`, ...) are all `Other`.

Where the code and its comments differ, the model follows the code:
- `formatLen` counts `@` and `=` as claiming no value, but `Pack`, `UnPack` and `CalcSize` treat both as unknown tokens.

`Pack` returns its named results `res` and `err` together (bp.go:33). A failing token sets `err` and returns, so the bytes already appended to `res` come back with the error (bp.go:60-61, 120-121). The model returns the same partial bytes.

## Model

| member | source | states |
|---|---|---|
| Format.Atoi | library/binarypack/bp.go:106 | a negative result comes only from a string starting with '-', and a nonzero result only from a string with a nonzero digit; a string that is neither digits nor a sign and digits gives 0, because the error is dropped |
| Format.AtoiDecimal | library/binarypack/bp.go:106 | the decimal spelling of every natural number `n` reads back as `n`, and with a '+' or '-' sign as `n` or `-n` |
| Format.StrLen | library/binarypack/bp.go:106 | the length a token declares is nonzero only when the token has a nonzero digit |
| Format.StrLenDecimal | library/binarypack/bp.go:106 | for every natural number `N`, the token made of `N`'s decimal digits and an 's' declares a fixed string of `N` bytes |
| Format.Classify | library/binarypack/bp.go:49-121 | the grammar shared by the switches of `Pack`, `UnPack` and `CalcSize` (bp.go:49-121, 150-186, 196-215): a token is unknown exactly when it is not one of the spelled-out single-character tokens and has no 's'; it is a fixed string exactly when it has an 's' and is not one of those tokens, with the length `StrLen` gives |
| Format.ClassifyFacts | library/binarypack/bp.go:49-121 | the markers are exactly "<", ">" and "!"; every fixed-string token contains an 's'; integer fields are 1, 2, 4 or 8 bytes wide; "@" and "=" are unknown tokens |
| Format.ParseWellFormed | library/binarypack/bp.go:193-219 | a parsed format is well formed (every token a marker, unknown, or a field of definite width) exactly when no string length is negative |
| Format.SizeOfFails | library/binarypack/bp.go:208-214 | `CalcSize` fails exactly when some token is outside the grammar |
| Format.SizeOfNonNegative | library/binarypack/bp.go:193-219 | without negative string lengths the size is never negative |
| Format.SizeOfConcat | library/binarypack/bp.go:193-219 | the size of two formats one after the other is the sum of their sizes, and fails exactly when either fails |
| Format.TokenSize | library/binarypack/bp.go:197-214 | the switch gives each token of the grammar its width, and fails exactly on an unknown token |
| Format.CalcSize | library/binarypack/bp.go:193-219 | the loop returns the sum of the token widths, or `(0, UnknownToken)` at the first token outside the grammar |
| Format.FormatLen | library/binarypack/bp.go:221-232 | the loop counts the tokens other than "@", "=", "<", ">" and "!" |
| Format.ValueSlotsCoverWalk | library/binarypack/bp.go:39-42 | the `formatLen` count covers every value the `Pack` walk reads; for a format `CalcSize` accepts, it equals the number of data tokens |
| Format.DataTokensAreFields | library/binarypack/bp.go:193-219 | every data token of a well-formed format that `CalcSize` accepts is a field of definite width |
| Format.ValuesReadAll | library/binarypack/bp.go:48-125 | in a format without unknown tokens, the walk reads one value per data token |
| Format.DataTokensConcat | library/binarypack/bp.go:48-125 | the data tokens of two formats one after the other are those of the first, then those of the second |
| Format.WellTypedCons | library/binarypack/bp.go:57-121 | values fit a token list headed by `t` exactly when the first value fits `t` and the rest fit the rest |
| Bytes.Reverse | library/binarypack/bp.go:309-317 | the loop writes the input back to front |
| Bytes.TrimRight | library/binarypack/bp.go:176-181 | the result is a prefix of the input; only the trimmed byte follows it; it does not end in that byte |
| Bytes.TrimLeft | library/crypto/des.go:48-53 | the left half of `bytes.TrimFunc`: the result is a suffix of the input; only the trimmed byte precedes it; it does not start with that byte |
| Bytes.TrimRightPadded | library/binarypack/bp.go:176-181 | trimming ignores any padding made of the trimmed byte |
| Encoding.Int64ToBytes | library/binarypack/bp.go:245-252 | cutting the eight bytes of `binary.Write` (the last `size` when big-endian, the first `size` when little-endian) gives the low `size` bytes of the two's-complement value, in `order` |
| Encoding.BytesToInt64 | library/binarypack/bp.go:254-275 | the field read as int8, int16, int32 or int64 is in that width's signed range |
| Encoding.BytesToInt64Encodes | library/binarypack/bp.go:245-275 | an integer field read and written back at the same width and order gives the same bytes |
| Encoding.Int64RoundTrip | library/binarypack/bp.go:245-275 | writing and reading back an int64 gives the sign extension of its low `size` bytes; a value in the width's signed range comes back exactly |
| Encoding.BoolToBytes | library/binarypack/bp.go:234-239 | true is the single byte 1 and false the single byte 0, in either order |
| Encoding.BytesToBool | library/binarypack/bp.go:241-243 | a byte reads as true exactly when, taken as an int8, it is positive (1 to 127) |
| Encoding.Float32ToBytes | library/binarypack/bp.go:277-284 | four bytes which, put back in `order`, hold the float32's bit pattern least significant byte first |
| Encoding.BytesToFloat32 | library/binarypack/bp.go:286-291 | the bit pattern whose little-endian bytes are the input put in `order` |
| Encoding.Float64ToBytes | library/binarypack/bp.go:293-300 | eight bytes which, put back in `order`, hold the float64's bit pattern least significant byte first |
| Encoding.BytesToFloat64 | library/binarypack/bp.go:302-307 | the bit pattern whose little-endian bytes are the input put in `order` |
| Encoding.FloatRoundTrip | library/binarypack/bp.go:277-307 | a float32 or float64 bit pattern written and read back in the same order is unchanged |
| Encoding.FloatBytesEncode | library/binarypack/bp.go:277-307 | four or eight bytes read as a float pattern and written back in the same order are unchanged |
| Encoding.BigEndianIsReversed | library/binarypack/bp.go:245-307 | the big-endian bytes of an integer or float field are its little-endian bytes reversed |
| PackEngine.FixedString | library/binarypack/bp.go:101-116 | an `"Ns"` slot holds exactly N bytes: little-endian, the string's first bytes and then zeros; big-endian, the zeros first and then those string bytes reversed |
| PackEngine.FixedStringBigEndian | library/binarypack/bp.go:110-116 | the big-endian string layout is the little-endian one reversed |
| PackEngine.EncodeField | library/binarypack/bp.go:57-116 | a field encodes exactly when the value has the kind its token expects, and then gives exactly the token's width in bytes |
| PackEngine.EncodeFieldBigEndian | library/binarypack/bp.go:57-116 | every field's big-endian bytes are its little-endian bytes reversed |
| PackEngine.PackField | library/binarypack/bp.go:57-121 | one token succeeds exactly when it is known and its value fits; it then writes the token's width; on failure it writes nothing |
| PackEngine.PackFromResult | library/binarypack/bp.go:48-125 | the walk succeeds exactly when no token is unknown and every data token has a value of its kind; it then writes exactly `CalcSize` bytes; it fails only with `UnknownToken` or `TypeMismatch` |
| PackEngine.PackFromSurplus | library/binarypack/bp.go:48-125 | values beyond those the walk reads do not change its result |
| PackEngine.PackFromConcat | library/binarypack/bp.go:48-125 | packing two formats one after the other: the second starts from the values the first did not use, in the byte order the first left in force, so a marker affects only the tokens after it |
| PackEngine.PackedResult | library/binarypack/bp.go:33-128 | `Pack` fails with `FormatTooLong` exactly when `formatLen` exceeds the number of values; it succeeds exactly when every token is known and every data token has a value of its kind, and the output is then `CalcSize` bytes |
| PackEngine.PackedIgnoresSurplus | library/binarypack/bp.go:39-42 | values beyond those the format claims do not change `Pack`'s result |
| PackEngine.PackToken | library/binarypack/bp.go:57-121 | each data case of the switch gives the bytes of `PackField` for the current value, or its error |
| PackEngine.Pack | library/binarypack/bp.go:33-128 | the method, with its length check and loop, returns exactly `Packed`, including the partial bytes returned with an error |
| UnpackEngine.DecodeField | library/binarypack/bp.go:156-179 | the value read for a field always has the kind the token expects |
| UnpackEngine.UnpackFromWellTyped | library/binarypack/bp.go:150-187 | each value the walk reads has the kind of its data token |
| UnpackEngine.UnpackedResult | library/binarypack/bp.go:134-190 | `UnPack` fails with `UnknownToken` exactly when `CalcSize` fails, and with the short-buffer error exactly when the message is shorter than `CalcSize`; otherwise it gives one value of the right kind per value `formatLen` counts |
| UnpackEngine.UnpackReadsPrefix | library/binarypack/bp.go:144-187 | `UnPack` reads only the first `CalcSize` bytes of the message; anything after them is ignored |
| UnpackEngine.UnpackToken | library/binarypack/bp.go:156-179 | each data case of the switch reads the token's width from the front of the message and gives the value `DecodeField` describes |
| UnpackEngine.UnPack | library/binarypack/bp.go:134-190 | the method, with its two checks and its loop, returns exactly `Unpacked` |
| RoundTrip.NormalizeFixedPoint | library/binarypack/bp.go:57-179 | the values a round trip leaves unchanged are exactly the canonical ones: integers in the field's signed range, and strings no longer than the slot that do not end in a NUL byte |
| RoundTrip.FieldRoundTrip | library/binarypack/bp.go:57-179 | one field written and read back in either order gives the normalized value |
| RoundTrip.FieldRewrite | library/binarypack/bp.go:57-179 | a field read and written back gives the same bytes, except a bool byte other than 0 or 1 |
| RoundTrip.PackUnpack | library/binarypack/bp.go:48-187 | for a format `CalcSize` accepts, and values of the kinds its data tokens expect, the walk packs them, and unpacking the bytes gives back the normalized values |
| RoundTrip.PackThenUnpack | library/binarypack/bp.go:33-190 | `UnPack` of what `Pack` returned without error gives the normalized values, one per value `formatLen` counts |
| RoundTrip.PackThenUnpackExact | library/binarypack/bp.go:33-190 | when every value is canonical, `UnPack` of `Pack` gives back the values the format claims, unchanged |
| Padding.PadLength | library/crypto/des.go:31 | the pad is 1 to `blockSize` bytes and brings the length to a multiple of the block size |
| Padding.PKCS5Padding | library/crypto/des.go:30-34 | the input, then 1 to `blockSize` bytes, each holding the pad length truncated to a byte, to a multiple of the block size |
| Padding.PKCS5UnPadding | library/crypto/des.go:36-40 | drops as many bytes from the end as the last byte says, keeping a prefix |
| Padding.PKCS5RoundTrip | library/crypto/des.go:30-40 | unpadding a padded input is always defined; it returns the input exactly when the pad length fits in a byte, so always for block sizes below 256 |
| Padding.ZeroPadding | library/crypto/des.go:42-46 | the input, then 1 to `blockSize` zero bytes, to a multiple of the block size |
| Padding.ZeroUnPadding | library/crypto/des.go:48-53 | the result is the slice of the input left when zero bytes are stripped from both ends; it neither starts nor ends with zero |
| Padding.ZeroRoundTrip | library/crypto/des.go:42-53 | zero padding is undone exactly when the input is empty or neither starts nor ends with a zero byte |
| Vectors.ClassifyExamples | library/pack/bp_test.go:17-24 | "4s" and "10s" are 4- and 10-byte strings, "s" is a 0-byte string, "a" is an unknown token |
| Vectors.SizeExample | library/pack/bp_test.go:17 | the format `I I I 4s` parses and takes 16 bytes |
| Vectors.UnpackSignedExample | library/pack/bp_test.go:135-136 | `UnPack` of the format `! h h h` and the bytes 0 0 0 5 255 251 gives 0, 5 and -5 |
| Vectors.PackStringsExample | library/pack/bp_test.go:77-78 | `Pack` of the format `> 1s 2s 10s` and the strings "a", "be", "1234567890" gives the bytes of "a", "eb" and "0987654321" |

## Left out

- I/O and reflection:
  - The `[]interface{}` type switch is modelled by the `Value` kinds.
  - Every Go type that no token accepts is a single `Other` value.
  - Error message texts are not modelled; only the kind of error is.
- Floats:
  - A float32 or float64 is modelled as its IEEE-754 bit pattern.
  - Only the byte order of the pattern is modelled, not float arithmetic or NaN comparison.
- Strings:
  - The model works on bytes. This matches the source for ASCII text.
  - `reverse` works on runes and `len` counts bytes. For non-ASCII strings the source reverses runes, replaces invalid UTF-8 with U+FFFD, and slices strings at byte offsets. None of that is modelled.
- Format.Atoi: `strconv.Atoi`'s clamping of values out of the `int` range is not modelled. The codec drops Atoi's error, so a malformed length counts as 0; that part is modelled.
- Format.CalcSize: the size is an unbounded integer, so a Go `int` overflow of the sum is not modelled.
- Negative string lengths: a token such as `"-3s"` makes the source slice with a negative bound, which panics. For that reason these members require `NonNegativeLengths`:
  - PackEngine.Pack, PackEngine.Packed;
  - UnpackEngine.UnPack, UnpackEngine.Unpacked.
  As a result, the model does not describe the errors those calls return earlier for such a format.
- UnpackEngine.UnpackToken: `UnPack`'s branch for an unknown token (bp.go:183-185) is left out. `CalcSize` has already rejected every such token, so the branch cannot be reached.
- The loops of `Pack` and `UnPack` are split into helper methods, one per token. They are `PackOne`, `PackNext` and `PackToken`, and `UnpackOne` and `UnpackToken`. The control flow is the same as in the source.
- Padding.PKCS5UnPadding: the model requires a non-empty input whose last byte is at most its length. The source panics otherwise.
- PKCS5Padding and ZeroPadding require a positive block size. The source divides by zero or panics in `bytes.Repeat` otherwise.
- PKCS5Padding, ZeroPadding: Go's `append(src, padtext...)` writes the pad into `src`'s backing array when it has spare capacity, so the result can share memory with the caller's slice. The model uses sequences, which are values, so this aliasing is not modelled.
- The DES cipher (`NewDes`, `Encrypt`, `Decrypt` in des.go) calls the Go standard library's block cipher and is not part of this model.
- `library/header/header.go` is not part of this model.
