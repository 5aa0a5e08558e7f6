# RESP codec of gored, in Dafny

This project models the codec of the `respser` package of gored. The codec
handles RESP2 (the Redis serialization protocol) and has four parts:

- the five wire types (simple string, error string, integer, bulk string,
  array) and their encoders;
- the prefix extractor `ExtractType` and its five per-type extractors. Each
  reads one value from the front of a buffer and hands back the unconsumed
  remainder.
- the whole-buffer decoder `RespDecode`. It requires the buffer to be exactly
  one value, and hands arrays to the extractor.
- the error taxonomy:
  - the five sentinels;
  - the `RespSerError` wrapper with its constructors;
  - joined errors;
  - `errors.Is` matching.

Strings are Go byte strings (`seq<char>`, one char per byte). The Go library
functions the code depends on are written out as small verified functions
with the same semantics:

- `strings.HasPrefix`, `TrimPrefix`, `Index`, `Split` and `SplitN` in
  `GoStrings`;
- `strconv.Atoi` and `Itoa` in `GoStrconv`.

Where the code departs from RESP2 as Redis defines it, the model follows
the code:

- A bulk string's payload is the text between the first and second CRLF, not
  the next *length* bytes. A payload containing CRLF therefore never reads
  back. The length must equal the payload's length, or the result is
  `DataMismatch`.
- `ExtractArray` creates the element list only in `AddElement`. A count of 0,
  or any negative count, therefore yields the null array. RESP2 reads `*0`
  as a present empty array.
  - An empty present array encodes as `*0\r\n`, which reads back as the null
    array, which re-encodes as `*-1\r\n` (`RoundTrip.EmptyArrayCollapses`).
- `$-1\r\n` followed by CRLF-free, non-empty data is `InvalidInputParts` in
  the extractor. It is not "null bulk string, remainder after the header".
  - That error names the function `decodeBulkString`, as the code does.
- `decodeBulkString` splits on every CRLF and never looks at the third piece,
  so `$3\r\nfoo\r\nxyz` is accepted.
- `decodeArray` returns the null array as soon as the count reads as -1, so
  it never reads what follows the count.
- `decodeError`, which `decodeArray` joins in front of an extraction failure,
  is not part of this model. It is the `DecodeContext` error leaf, which
  matches no sentinel kind.

Module layout, in dependency order:

| module | file | contents |
|---|---|---|
| `Wrappers` | wrappers.dfy | `Option`, `Result` |
| `GoStrings` | gostrings.dfy | byte strings, `CRLF`, the `strings` functions |
| `GoStrconv` | gostrconv.dfy | `Atoi`, `Itoa` |
| `RespErrors` | resperrors.dfy | sentinel kinds, error tree, `Unwrap`, `Is`, the constructors |
| `RespValue` | respvalue.dfy | `Value`, `Encode`, `AddElement`, `GetElements` |
| `RespExtract` | respextract.dfy | the extractors and line helpers |
| `EncodeFacts` | encodefacts.dfy | encoding shapes, read back line by line |
| `Chains` | chains.dfy | the array loop over an abstract step, and chains of extractions |
| `ExtractFacts` | extractfacts.dfy | extractor outcomes, array chains, strict-suffix remainders |
| `RespDecode` | respdecode.dfy | the decoders |
| `DecodeFacts` | decodefacts.dfy | decoder outcomes and quirks |
| `RoundTrip` | roundtrip.dfy | extract/decode of encodings, and the empty-array collapse |

## Model

| member | source | states |
|---|---|---|
| GoStrings.TrimPrefix | respser/decode.go:27 | with the prefix present, the input is the prefix followed by the result; otherwise the input is unchanged |
| GoStrings.Index | respser/extract.go:30 | the result is the first position where the separator occurs; None means it occurs nowhere |
| GoStrings.Split | respser/decode.go:28 | at least one piece, and the pieces joined with the separator give the input back |
| GoStrings.SplitPiece | respser/decode.go:28 | no piece of a split contains the separator |
| GoStrings.SplitJoin | respser/decode.go:28 | splitting CRLF-free pieces joined by CRLF gives exactly those pieces |
| GoStrings.SplitN | respser/extract.go:30 | n = 0 gives no pieces and n < 0 is `Split`; n > 0 gives 1..n pieces that rejoin to the input, every piece but the last holds no separator, and fewer than n pieces means the last holds none either |
| GoStrings.SplitNTwo | respser/extract.go:30-31 | `SplitN(s, sep, 2)` is `[s]` when there is no separator, else the text before and after its first occurrence |
| GoStrings.SplitNJoin | respser/extract.go:79 | `SplitN` with n equal to the number of pieces inverts a CRLF join whose leading pieces are CRLF-free |
| GoStrconv.Atoi | respser/extract.go:65 | succeeds exactly on an optional sign followed by one or more digits (empty input fails), with the signed decimal value |
| GoStrconv.Itoa | respser/respser.go:77 | digits of the magnitude, a `-` only for negatives, no `+` and no leading zero |
| GoStrconv.AtoiItoa | respser/respser.go:76-79 | `Atoi` reads back every number `Itoa` prints |
| GoStrconv.AtoiLeadingZeros | respser/decode.go:59-63 | leading zeros and a `+` do not change the value read |
| GoStrconv.ItoaNoCRLF | respser/respser.go:77-78 | a printed number never contains CR, so it cannot end a line early |
| RespErrors.Unwrap | respser/respser.go:30 | only a `RespSerError` unwraps, and it unwraps to its stored cause |
| RespErrors.IsUnwraps | respser/respser.go:12-30 | `errors.Is` as the tests use it: a sentinel matches only its own kind, a `RespSerError` matches exactly what its unwrapped cause matches, and only sentinels, wrapped errors and joins match anything |
| RespErrors.Wrap | respser/respser.go:20-24 | stores function and input verbatim; unwraps to the sentinel; matches that kind and no other |
| RespErrors.InvalidTypeError | respser/respser.go:32-34 | function and input verbatim; matches `InvalidType` and nothing else |
| RespErrors.InvalidInputDataError | respser/respser.go:36-38 | function and input verbatim; matches `InvalidInputData` and nothing else |
| RespErrors.DataMismatchError | respser/respser.go:40-42 | function and input verbatim; matches `DataMismatch` and nothing else |
| RespErrors.InvalidInputPartsError | respser/respser.go:44-46 | function and input verbatim; matches `InvalidInputParts` and nothing else |
| RespErrors.FailedExtractionError | respser/respser.go:48-50 | function and input verbatim; matches `FailedExtraction` and nothing else |
| RespValue.Encode | respser/respser.go:60-105 | total; every encoding starts with its variant's type byte and ends with CRLF |
| RespValue.EncodeAll | respser/respser.go:101-103 | a non-empty element list's encoding ends with CRLF; no elements encode to nothing |
| RespValue.AddElement | respser/respser.go:107-112 | the array becomes present, grows by one, and the new element is last |
| RespValue.GetElements | respser/respser.go:114-119 | stored elements for a present array, the empty sequence for a null one |
| RespValue.GetAddElement | respser/respser.go:107-119 | after adding, the elements are the earlier ones unchanged followed by the new one |
| EncodeFacts.ItoaCanonical | respser/respser.go:76-79 | the integer text is canonical: no `+`, no leading zero, no `-0` |
| EncodeFacts.EncodeSimpleStringLines | respser/respser.go:60-62 | one line: `+`, the text verbatim, CRLF, and nothing after |
| EncodeFacts.EncodeErrorStringLines | respser/respser.go:68-70 | one line: `-`, the text verbatim, CRLF, and nothing after |
| EncodeFacts.EncodeIntegerLines | respser/respser.go:76-79 | one line `:` plus a canonical decimal that `Atoi` reads as the number |
| EncodeFacts.EncodeBulkStringLines | respser/respser.go:85-90 | a header that reads as the payload's byte length, then the payload and CRLF |
| EncodeFacts.EncodeArrayLines | respser/respser.go:96-105 | a header that reads as the element count, then exactly the element encodings |
| EncodeFacts.EncodeNullLines | respser/respser.go:85-99 | null bulk string and null array are `$-1\r\n` and `*-1\r\n`: count -1, nothing after |
| EncodeFacts.EncodeAllAppend | respser/respser.go:101-103 | the elements' encodings concatenate in order: encoding `xs + ys` is encoding `xs` then `ys` |
| RespExtract.SplitFirstLine | respser/extract.go:30-31 | `SplitN(s, CRLF, 2)` has two parts exactly when there is a CRLF: the first line, then what follows it |
| RespExtract.SplitSecondLine | respser/extract.go:79 | cutting at two CRLFs is cutting at the first, then cutting the rest at its first |
| RespExtract.ExtractType | respser/extract.go:9-24 | a failure returns the input unchanged; a success leaves a shorter remainder and a value whose variant matches the first byte |
| RespExtract.ExtractSimpleString | respser/extract.go:26-39 | failures return the input; a success needs `+` and gives a simple string with a shorter remainder |
| RespExtract.ExtractErrorString | respser/extract.go:41-54 | failures return the input; a success needs `-` and gives an error string with a shorter remainder |
| RespExtract.ExtractInteger | respser/extract.go:56-73 | failures return the input; a success needs `:` and gives an integer with a shorter remainder |
| RespExtract.ExtractBulkString | respser/extract.go:75-106 | failures return the input; a success needs `$` and gives a bulk string with a shorter remainder |
| RespExtract.ExtractBulkPayload | respser/extract.go:89-105 | succeeds exactly when the header reads as -1 or as the payload's length; -1 is the null bulk string leaving the payload, CRLF and rest unconsumed; otherwise the payload is the value and the rest follows; a failure leaves the whole input |
| RespExtract.ExtractArray | respser/extract.go:108-135 | failures return the input; a success needs `*` and gives an array with a shorter remainder |
| RespExtract.ExtractElements | respser/extract.go:125-134 | a failure reports the whole array input with `FailedExtraction` joined to the cause; each element read shortens the remainder |
| Chains.LoopChain | respser/extract.go:125-134 | a successful loop of k > 0 steps read exactly k values, each from the previous remainder, appended in order |
| Chains.LoopFailure | respser/extract.go:125-129 | a failing loop read fewer than k values, then a step failed; the result is the original input plus `FailedExtraction` joined to that step's error |
| Chains.ChainLoop | respser/extract.go:125-134 | conversely, a chain of k values is what the loop returns when asked for k |
| Chains.ChainLoopFailure | respser/extract.go:125-129 | conversely, a chain of fewer than k values followed by a failing step makes the loop fail with that step's error |
| ExtractFacts.ExtractTypeUnknown | respser/extract.go:21-22 | an unknown first byte, the empty input included, is `InvalidType` with the input as remainder |
| ExtractFacts.ExtractDispatch | respser/extract.go:10-20 | each type byte selects its own extractor |
| ExtractFacts.ExtractSimpleStringErrors | respser/extract.go:26-39 | wrong byte gives `InvalidType`; no CRLF gives `InvalidInputParts`; success iff `+` and a CRLF, giving the first line's text and what follows it |
| ExtractFacts.ExtractSimpleStringOf | respser/extract.go:26-39 | `+t\r\n` followed by anything gives `t` verbatim and leaves exactly what follows |
| ExtractFacts.ExtractErrorStringErrors | respser/extract.go:41-54 | wrong byte gives `InvalidType`; no CRLF gives `InvalidInputParts`; success iff `-` and a CRLF, giving the first line's text and what follows it |
| ExtractFacts.ExtractErrorStringOf | respser/extract.go:41-54 | `-t\r\n` followed by anything gives `t` verbatim and leaves exactly what follows |
| ExtractFacts.ExtractIntegerErrors | respser/extract.go:56-73 | wrong byte is `InvalidType`, no CRLF `InvalidInputParts`, an unreadable header `InvalidInputData`; success iff the header reads, giving its number |
| ExtractFacts.ExtractIntegerOf | respser/extract.go:56-73 | `:h\r\n` followed by anything gives `Atoi(h)` and what follows, or `InvalidInputData` |
| ExtractFacts.BulkByLines | respser/extract.go:79-88 | the three-way split seen line by line: two lines, then the header and payload lines |
| ExtractFacts.ExtractBulkStringShape | respser/extract.go:89-105 | a success is null with header -1, or a CRLF-free payload whose length the header states, the input being header, payload and remainder |
| ExtractFacts.ExtractBulkStringErrors | respser/extract.go:75-101 | wrong byte `InvalidType`; a missing CRLF, or a lone line other than `$-1\r\n`, is `InvalidInputParts`; an unreadable header `InvalidInputData`; a length other than -1 and the payload's is `DataMismatch` |
| ExtractFacts.ExtractBulkStringOf | respser/extract.go:89-105 | `$h\r\np\r\n` plus a rest: unreadable h fails, -1 is null keeping `p\r\n` and the rest, another wrong length mismatches, the right length gives `p` |
| ExtractFacts.ExtractNullBulkString | respser/extract.go:80-96 | `$-1\r\n` alone is null with nothing left; followed by data with a CRLF it is null with that data left; followed by other data it is `InvalidInputParts` |
| ExtractFacts.ElementsLoop | respser/extract.go:125-132 | the element loop is the generic loop with `ExtractType` as its step |
| ExtractFacts.ExtractArrayHeader | respser/extract.go:108-120 | wrong byte `InvalidType`, no CRLF `InvalidInputParts`, an unreadable count `InvalidInputData`; otherwise the element loop over what follows the header |
| ExtractFacts.ArrayLoop | respser/extract.go:116-134 | after a good header, the array is the loop from the null array over the header's count |
| ExtractFacts.ExtractArrayElements | respser/extract.go:116-134 | a count of 0 or less is the null array; a success holds exactly n chained values; a failure is the first element that fails, reported against the whole input |
| ExtractFacts.ArrayFailureKinds | respser/extract.go:125-129 | an element failure matches `FailedExtraction` and exactly the kinds of the failing element's error |
| ExtractFacts.ArrayErrorKinds | respser/extract.go:128 | the joined array error matches `FailedExtraction` and otherwise exactly its cause's kinds |
| ExtractFacts.ExtractArrayOf | respser/extract.go:108-135 | a count header followed by a chain of that many values extracts to exactly those values and the chain's last remainder |
| ExtractFacts.LineSuffix | respser/extract.go:30-38 | the text after the first line is a strict suffix of the input |
| ExtractFacts.BulkSuffix | respser/extract.go:79-105 | a bulk string's remainder is a strict suffix of its input |
| ExtractFacts.ExtractTypeSuffix | respser/extract.go:9-135 | every successful extraction leaves a strict suffix of its input |
| ExtractFacts.ChainSuffix | respser/extract.go:125-134 | the remainder after a chain of extractions is a suffix of where it started |
| RespDecode.SplitLines | respser/decode.go:28 | `Split` on CRLF is the first line followed by the split of what follows it |
| RespDecode.DecodeLine | respser/decode.go:28-35 | a success is a CRLF-free text followed by exactly one CRLF; a failure names the decoder and its input |
| RespDecode.DecodeLineCases | respser/decode.go:28-35 | no CRLF or a second CRLF is `InvalidInputParts`; bytes after the only CRLF are `InvalidInputData`; one line gives that line |
| RespDecode.DecodeLineOf | respser/decode.go:28-35 | a CRLF-free line followed by CRLF is accepted and given back |
| RespDecode.DecodeSimpleString | respser/decode.go:26-36 | a success is the CRLF-free text of the single line after `+`; failures name `decodeSimpleString` and the input after `+` |
| RespDecode.DecodeErrorString | respser/decode.go:38-48 | a success is the CRLF-free text of the single line after `-`; failures name `decodeErrorString` and the input after `-` |
| RespDecode.DecodeInteger | respser/decode.go:50-64 | a success is the number `Atoi` reads from the single line after `:` |
| RespDecode.DecodeBulkString | respser/decode.go:66-86 | a success is a bulk string whose payload has no CRLF |
| RespDecode.DecodeArray | respser/decode.go:88-108 | a success is an array; a present one is exactly what `ExtractArray` reads with nothing left |
| RespDecode.Decode | respser/decode.go:9-24 | an unknown first byte, the empty input included, is `InvalidType` naming `RespDecode` |
| DecodeFacts.DecodeSimpleStringOf | respser/decode.go:26-36 | `+t\r\n` decodes to `t` for CRLF-free `t` |
| DecodeFacts.DecodeErrorStringOf | respser/decode.go:38-48 | `-t\r\n` decodes to `t` for CRLF-free `t` |
| DecodeFacts.DecodeIntegerOf | respser/decode.go:50-64 | `:h\r\n` decodes to `Atoi(h)`, or fails with `InvalidInputData` joined to the conversion error |
| DecodeFacts.SplitCons | respser/decode.go:68 | splitting a CRLF-free line, CRLF, and a rest gives the line, then the pieces of the rest |
| DecodeFacts.SplitThree | respser/decode.go:68 | three CRLF-free lines joined by CRLF split into exactly those three |
| DecodeFacts.SplitFourOrMore | respser/decode.go:75 | two lines and a rest that holds a CRLF split into four or more pieces |
| DecodeFacts.DecodeBulkStringOf | respser/decode.go:75-85 | three pieces: unreadable length `InvalidInputData`, wrong length `DataMismatch`, right length gives the payload whatever the last piece holds |
| DecodeFacts.DecodeBulkStringOneLine | respser/decode.go:69-74 | two pieces are accepted only as `-1` with nothing after, the null bulk string; otherwise `InvalidInputParts` |
| DecodeFacts.DecodeBulkStringNoLine | respser/decode.go:75-76 | a message with no CRLF after `$` is a single piece and is `InvalidInputParts` |
| DecodeFacts.DecodeBulkStringTooManyLines | respser/decode.go:75-77 | four or more pieces are `InvalidInputParts` |
| DecodeFacts.ArrayCountIsHeader | respser/decode.go:89-90 | the count `decodeArray` reads is the first line without its `*`, the same header the extractor reads |
| DecodeFacts.DecodeArrayCases | respser/decode.go:88-108 | unreadable count `InvalidInputData`; -1 the null array; otherwise success iff the extraction succeeds with nothing left, with its value, and an extraction leaving input over is `InvalidInputData` on the whole message |
| DecodeFacts.ContextKinds | respser/decode.go:100 | the decode context joined in front of an error adds no kind |
| DecodeFacts.DecodeArrayFailureKinds | respser/decode.go:97-101 | when an element fails, the decode error matches exactly the extraction error's kinds, `FailedExtraction` among them |
| DecodeFacts.DecodeNullArray | respser/decode.go:94-96 | `*-1` with or without a CRLF and anything after it decodes to the null array |
| DecodeFacts.DecodeNullLine | respser/decode.go:94-96 | `*-1\r\n` decodes to the null array |
| DecodeFacts.DecodeDispatch | respser/decode.go:10-20 | each type byte selects its own decoder |
| DecodeFacts.DecodeTypeByte | respser/decode.go:9-24 | a decoded value's variant is the one its first byte names |
| RoundTrip.EndsWithCRLFResumable | respser/respser.go:60-105 | anything following an encoding still holds a CRLF |
| RoundTrip.ExtractEncodeSimpleString | respser/extract.go:26-39 | a simple string's encoding, whatever follows, extracts to it and leaves what follows |
| RoundTrip.ExtractEncodeErrorString | respser/extract.go:41-54 | an error string's encoding, whatever follows, extracts to it and leaves what follows |
| RoundTrip.ExtractEncodeInteger | respser/extract.go:56-73 | an integer's encoding, whatever follows, extracts to it and leaves what follows |
| RoundTrip.ExtractEncodeBulkString | respser/extract.go:75-106 | a present bulk string's encoding followed by any rest extracts to it and leaves that rest; the null bulk string does so when followed by nothing or by data holding a CRLF |
| RoundTrip.ExtractEncodeNullArray | respser/extract.go:108-135 | the null array's encoding, whatever follows, extracts to it |
| RoundTrip.ExtractEncode | respser/extract.go:9-24 | a well-formed value's encoding, followed by nothing or by data holding a CRLF, extracts to the value and leaves exactly what follows |
| RoundTrip.ExtractEncodeArray | respser/extract.go:108-135 | a non-empty array of well-formed values extracts back from its encoding |
| RoundTrip.EncodeAllCons | respser/respser.go:101-103 | the element encodings are the first element's encoding followed by the rest's |
| RoundTrip.EncodeAllChain | respser/extract.go:125-132 | the concatenated element encodings form a chain of extractions giving back the elements, in order |
| RoundTrip.EncodeAllChainCons | respser/extract.go:125-132 | one more encoded element in front extends the chain by one step |
| RoundTrip.EncodeArrayCount | respser/decode.go:89-90 | the count `decodeArray` reads from an encoded array is its element count |
| RoundTrip.ExtractEncodeWholeArray | respser/extract.go:108-135 | an encoded non-empty array extracts back with nothing left |
| RoundTrip.DecodeEncodeArray | respser/decode.go:88-108 | a non-empty array of well-formed values decodes back from its encoding |
| RoundTrip.DecodeEncodeNullBulkString | respser/decode.go:69-74 | `$-1\r\n` decodes to the null bulk string |
| RoundTrip.DecodeEncodeBulkString | respser/decode.go:66-86 | a CRLF-free payload, the empty one included, decodes back from its encoding |
| RoundTrip.DecodeEncodeNullArray | respser/decode.go:94-96 | the null array decodes back from its encoding |
| RoundTrip.DecodeEncode | respser/decode.go:9-24 | `RespDecode(RespEncode(v)) = v` for every value without CRLF in its texts and without an empty present array |
| RoundTrip.EncodeInjective | respser/respser.go:60-105 | distinct well-formed values have distinct encodings, so null and empty bulk strings differ |
| RoundTrip.EmptyArrayCollapses | respser/extract.go:122-134 | `*0\r\n` extracts and decodes to the null array, which re-encodes as `*-1\r\n`: the empty array does not round-trip |

## Left out

- main.go: the TCP server, per-connection goroutines, fixed-size reads, the `PING` check and logging are I/O around the codec.
- respser/respser.go:121-211: an older duplicate of `RespDecode` and the `decode*` functions with untyped errors. It is superseded by respser/decode.go.
- `RespSerError.Error()` (respser/respser.go:26-28): message formatting only. Errors are compared by structure and by `Is`.
- The `RespEncoder` interface and the methods on `*Array` and the other `*T` types: values are one immutable `Value` datatype.
  - `AddElement` returns the grown array instead of mutating the shared `*Array` in place.
  - Aliasing between arrays that share an element slice is not modelled.
- Go's `int` width: integers are unbounded. `Atoi` range errors and `Itoa` at the 64-bit extremes are not modelled.
- `errors.Join` and `*strconv.NumError` internals:
  - a join is a `Joined` list of causes;
  - the conversion error is an opaque `NumError` leaf that matches no sentinel.
- `decodeError` (respser/decode.go:100) is not part of this model. It is modelled as the `DecodeContext` leaf, which matches no sentinel kind, so `decodeArray`'s failure matches exactly what the extractor's error matches.
- UTF-8 and runes: strings are byte strings. A `char` stands for a byte and no byte range is enforced.
- GoStrings.Split: `strings.Split` and `SplitN` with an empty separator are not modelled. They require a non-empty separator, and the codec always passes CRLF.
- RoundTrip.DecodeEncode: the round trip is stated only for well-formed values (no CRLF in any text, no empty present array at any depth). `RoundTrip.EmptyArrayCollapses` shows why the second condition is needed.
- RoundTrip.ExtractEncode: the value must be followed by nothing or by data holding a CRLF. A non-empty, CRLF-free tail after a null bulk string (`$-1\r\n`), alone or inside an array, makes the extractor fail with `InvalidInputParts`; a present bulk string extracts whatever follows it.
