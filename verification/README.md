# NFC card scanner: EMV TLV decoding and the card-read decisions

This project models the logic of react-native-nfc-card-scanner that does not
depend on the NFC hardware:

- **The number-string helpers** (`src/emv/utils.ts`). These are the alphabet
  checks, zero padding and unpadding, and the six radix converters with their
  `0` sentinel, modelled here as `None`. Also `Hex2Ascii` and `replaceAt`.
- **The BER-TLV decoder** (`src/emv/index.ts`):
  - `parse`, which reads identifier octets, including the high-tag-number
    form, then short- or long-form length octets, slices the value and
    decodes constructed values recursively;
  - the filters `getValue` and `getElement`;
  - the dictionary lookup `lookupKernel`, over a tag table given as a
    parameter;
  - the annotation pass `describeKernel`.
  Every callback in this module is called synchronously, so each is modelled
  as a return value.
- **The pure decisions of the card reader** (`src/scanner.ts`):
  - hex/byte conversion;
  - the regular-expression scan for AIDs in the PPSE answer;
  - the AID-to-scheme classifier;
  - the SELECT command;
  - the flat (`70`) and nested (`77`) record extractors and the dispatch on
    the last answer;
  - reconciling the two records, and the error order of `readCardData` and
    `scanNfc`.
  The card's answers are inputs, not effects.
- **The records of `src/types.ts`.**

The model follows the code as written, including its quirks:

- **Tags lose leading zero nibbles.** The tag text is the upper-case hex
  rendering of the identifier's numeric value, so octet `00` becomes `0`.
  Later offsets are computed from that shortened text (`TlvProps.LeadingZeroTag`).
- **Only `8` as the first length digit selects the long form.** The number of
  further octets is the second digit, read as hex.
- **Truncated input never fails.** A length that runs past the end gives a
  shorter value slice, and `parse` returns a list for every string.
- **No decoding error exists.** ITU-T X.690 (section 8.1.3) reads any length
  octet with the top bit set as the long form, and a strict decoder would
  reject truncated or non-hex input. The code does neither, so the model has
  no malformed-input outcome; the well-formed subset is stated separately as
  `TlvCodec.Encodable`, and on it decoding undoes encoding.
- **Tags are compared exactly.** `getValue`, `getElement` and `lookupKernel`
  compare tags case-sensitively; only the kernel name in `lookupKernel` is
  compared without case.
- **The AID scan works on characters, not octets.** It takes the leftmost
  `4F`/`4f` at any position. The greedy `[A-Fa-f0-9]+` swallows the rest of
  a hex answer, so a hex answer gives at most one candidate
  (`ScannerProps.AidScanOnHex`).
- **An odd-length AID gives a fractional length.** The SELECT command's length
  is `(n / 2).toString(16)`, so an odd AID writes a fraction `.8` into the
  command (`ScannerProps.OddSelectCommand`).
- **The Discover prefixes are case-sensitive.** The other five schemes are
  matched on the upper-cased AID; the Discover prefixes are compared without
  upper-casing.
- **JavaScript built-ins are modelled with their edge cases** (module `Js`),
  counting characters where JavaScript counts UTF-16 code units (see
  "Left out"):
  - `substring` clamps both indices and swaps them when reversed;
  - `substr` and `slice` count negative starts from the end;
  - `split` on one character;
  - `parseInt(s, 16)` skips whitespace, accepts a sign and a `0x`, and reads
    the longest hex prefix;
  - `String.fromCharCode` reduces modulo 2^16.

Modules:

| module | file | contents |
|---|---|---|
| `Types` | types.dfy | `EmvObject` (value `Prim` hex text or `Cons` children), `CardScheme`, `NfcCardResult`, `NfcError` |
| `Options` | options.dfy | `Option` and `Result` |
| `Arith`, `Text`, `Radix` | arith.dfy, text.dfy, radix.dfy | powers, ASCII case mapping, digit strings and `toString(radix)` |
| `Js` | js.dfy | the string and number built-ins |
| `EmvUtils` | emv_utils.dfy | `src/emv/utils.ts` |
| `Tlv` | tlv.dfy | `src/emv/index.ts` |
| `TlvTags` | tlv_tags.dfy | the tag text as a number: what the bit-string manipulation of `parse` computes |
| `TlvProps` | tlv_props.dfy | properties of `parse` and `describeKernel` |
| `TlvCodec` | tlv_codec.dfy | an encoder for well-formed elements and the round trip `Parse(Encode(objs)) == objs` |
| `TlvExamples` | tlv_examples.dfy | the decoder's test vectors and the quirks on concrete input |
| `Scanner` | scanner.dfy | `src/scanner.ts` |
| `ScannerProps` | scanner_props.dfy | byte round trips, the scheme test vectors, the AID scan, the SELECT command, expiry and track 2 |
| `ScannerRecords` | records.dfy | extraction of well-formed card answers end to end, and the error order of `readCardData` |

## Model

Operations of the core and the properties proved about them.

| member | source | states |
|---|---|---|
| EmvUtils.CheckAlphabets | src/emv/utils.ts:4-16 | each check accepts exactly the strings of 1 to 64 characters over its alphabet; a binary string passes all three checks; the empty string passes none |
| EmvUtils.Pad | src/emv/utils.ts:19-22 | the result is the input preceded by just enough zeros to reach the width, and is the input itself when it is already that long |
| EmvUtils.Unpad | src/emv/utils.ts:25-27 | the result does not start with `0` and the input is a run of zeros followed by the result |
| EmvUtils.UnpadZeros | src/emv/utils.ts:25-27 | any run of zeros put in front of a string without a leading zero is removed again, and nothing else is |
| EmvUtils.Dec2Bin | src/emv/utils.ts:30-35 | a result exactly when the decimal check passes; it is the binary rendering of the same number, without leading zeros |
| EmvUtils.Dec2Hex | src/emv/utils.ts:38-43 | a result exactly when the decimal check passes; it is the lower-case hex rendering of the same number |
| EmvUtils.Bin2Dec | src/emv/utils.ts:46-51 | a result exactly when the binary check passes; it is the decimal rendering of the same number |
| EmvUtils.Bin2Hex | src/emv/utils.ts:54-59 | a result exactly when the binary check passes; it is the hex rendering of the same number |
| EmvUtils.Hex2Bin | src/emv/utils.ts:62-67 | a result exactly when the hex check passes (either case); it is the binary rendering of the same number |
| EmvUtils.Hex2Dec | src/emv/utils.ts:70-75 | a result exactly when the hex check passes; it is the decimal rendering of the same number |
| EmvUtils.Bin2HexOfHex2Bin | src/emv/utils.ts:54-67 | converting hex to binary and back gives the input lower-cased without leading zeros (`0` for zero), while the binary form fits the 64-digit check |
| EmvUtils.Bin2HexShort | src/emv/utils.ts:54-59 | any accepted binary string renders to at most 16 hex digits, which upper-case to hex digits |
| EmvUtils.Hex2Ascii | src/emv/utils.ts:78-85 | one character per two input characters, the last one for a single leftover character |
| EmvUtils.ChunkCode | src/emv/utils.ts:82 | the code of a chunk is a 16-bit code unit outside the surrogate range, and the chunk's value when the chunk is hex |
| EmvUtils.Hex2AsciiOfHex | src/emv/utils.ts:78-85 | on hex input, character i has the code of hex characters 2i and 2i+1, or of the last single character |
| EmvUtils.ReplaceAt | src/emv/utils.ts:88-95 | the string up to the index, then the replacement, then the string after the replaced span; when the span fits, the length is kept and only that span changes |
| Js.Substring | src/emv/index.ts:59-119 | `substring` as the decoder uses it: never longer than the string, the plain slice for in-range ordered indices, and the clamped distance otherwise |
| Js.SubstringParts | src/emv/index.ts:107-119 | three consecutive `substring` pieces put back together give the string |
| Js.SubstringFrom | src/emv/index.ts:119 | `substring(start)` is the suffix from the clamped start |
| Js.Substr | src/emv/utils.ts:82-94 | `substr(start, length)` is never longer than the string and is the plain slice when start and length fit |
| Js.SubstrFrom | src/emv/utils.ts:94 | `substr(start)` is the suffix from an in-range start |
| Js.Slice | src/scanner.ts:34 | `slice` is never longer than the string |
| Js.SliceFrom | src/scanner.ts:98 | `slice(start)` is never longer than the string |
| Js.IndexOf | src/scanner.ts:96 | the position of the first occurrence of the separator |
| Js.Split | src/scanner.ts:96 | the parts contain no separator and, joined by it, give the string back; there is a single part exactly when the separator does not occur |
| Js.WhitespaceIsNotText | src/scanner.ts:24 | no character `parseInt` skips as whitespace is a hex digit or a sign |
| Js.HexPrefixSpec | src/scanner.ts:24 | the digits `parseInt` reads are all hex, stop at the first non-hex character, and are the whole string when it is all hex |
| Js.ParseInt16 | src/scanner.ts:24 | `parseInt(s, 16)` is the hex value on hex input, and a number from -15 to 255 on at most two characters |
| Js.ParseTrimmed | src/scanner.ts:24 | the same after leading whitespace |
| Js.CodeUnit | src/emv/utils.ts:82 | `fromCharCode` receives a 16-bit code unit |
| Tlv.FirstOctet | src/emv/index.ts:59-63 | the first identifier octet is below 256 (0 when the first two characters are not hex) |
| Tlv.TagLimitFrom | src/emv/index.ts:70-80 | the do-while loop ends at least one octet after where it starts |
| Tlv.OctetWithin | src/emv/index.ts:73-75 | the octet the loop examines has at most two characters, and two only inside the data |
| Tlv.TopBitSet | src/emv/index.ts:80 | the loop can go on only after a full two-character octet |
| Tlv.ShortOctetLow | src/emv/index.ts:76-80 | a truncated octet stops the loop |
| Tlv.OctetLead | src/emv/index.ts:73-80 | the loop condition holds exactly for two hex digits worth at least 0x80 |
| Tlv.TagLimitStep | src/emv/index.ts:71-80 | one round of the loop: it continues exactly after an octet with the top bit set |
| Tlv.TagEnd | src/emv/index.ts:70-80 | the end of the identifier read on octet values, at least one octet on |
| Tlv.TagLimitIsTagEnd | src/emv/index.ts:70-80 | the loop on bit strings ends where the octet-value reading says |
| Tlv.TagLimitEven | src/emv/index.ts:70-80 | the identifier ends on an octet boundary |
| Tlv.TagEndEven | src/emv/index.ts:70-80 | the octet-value reading ends on an octet boundary |
| Tlv.PaddedOctet | src/emv/index.ts:59-63 | `pad(Hex2Bin(o), 8)` of a hex octet is its eight-bit binary form |
| Tlv.FixedTop | src/emv/index.ts:80 | the first bit of the eight-bit form is `1` exactly for values of 0x80 and above |
| Tlv.ReadTag | src/emv/index.ts:59-90 | the tag text is upper-case hex of at most 16 characters |
| Tlv.ReadLength | src/emv/index.ts:91-105 | the value starts after the tag and at least one length octet, and never ends before it starts |
| Tlv.Parse | src/emv/index.ts:54-123 | the empty string decodes to no elements and every other string to at least one; there are never more elements than octets, because each consumes at least two characters |
| Tlv.GetValue | src/emv/index.ts:28-38 | the values passed to the callback are exactly the values of the top-level elements with that tag |
| Tlv.GetElement | src/emv/index.ts:41-51 | the elements passed to the callback are exactly the top-level elements with that tag |
| Tlv.LookupKernel | src/emv/index.ts:15-25 | a name exactly when some entry has the tag (case-sensitive) and the kernel (case-insensitive); it is the name of the first such entry |
| Tlv.DescribeKernel | src/emv/index.ts:126-158 | the same elements as `parse`, in order, with the same tags and length fields |
| Tlv.Describe | src/emv/index.ts:135-151 | the description changes only to a non-empty name of a table entry with the element's tag and the kernel (ignoring case), and stays when no entry matches |
| Tlv.Annotate | src/emv/index.ts:135-152 | one element and its direct children keep their tags, length fields and values; only their descriptions are set, as `Describe` says |
| TlvTags.InitialBits | src/emv/index.ts:59-63 | the initial bit string is the first octet in eight binary digits |
| TlvTags.OctetFields | src/emv/index.ts:64-67 | class and constructed bits are the top three bits; the constructed bit is bit 0x20; the number field is the low five bits, and it is `11111` exactly when they are all set |
| TlvTags.ReadTagConstructed | src/emv/index.ts:64-67 | an element is decoded as constructed exactly when bit 0x20 of the first octet is set |
| TlvTags.ReadTagValue | src/emv/index.ts:59-90 | the tag text is the upper-case hex rendering of the identifier's numeric value |
| TlvTags.TagBitsValue | src/emv/index.ts:59-89 | `Bin2Hex` of the assembled bit string renders the identifier's value |
| TlvTags.LowTagBits | src/emv/index.ts:64-89 | without the high-tag-number form the bit string is the first octet's eight bits |
| TlvTags.HighTagBitsOf | src/emv/index.ts:81-89 | with the high-tag-number form the bit string is the class and constructed bits followed by the remaining bits of all consumed octets |
| TlvTags.TagConstructedBit | src/emv/index.ts:66-90 | for tags of at least two characters, bit 0x20 of the emitted tag text agrees with the constructed decision |
| TlvTags.TagTextPrefix | src/emv/index.ts:81-90 | the first two characters of the emitted tag carry the first octet's constructed bit |
| TlvProps.ParseWellTyped | src/emv/index.ts:112-116 | every decoded element, and every child, has a list value exactly when its tag says constructed |
| TlvProps.ParseUndescribed | src/emv/index.ts:118 | `parse` fills in no description, at any depth |
| TlvProps.DescribeKernelSpec | src/emv/index.ts:126-158 | the annotation pass changes only descriptions, at depth 0 and 1, each to the name the table gives for the tag when it is non-empty |
| TlvProps.DescribeKernelWellTyped | src/emv/index.ts:126-158 | annotation keeps every element's value kind matched to its tag |
| TlvProps.GetElementConcat | src/emv/index.ts:41-51 | filtering a concatenation is filtering each part, in order |
| TlvProps.GetValueOfElements | src/emv/index.ts:28-51 | `getValue` reports the values of what `getElement` reports, in the same order |
| TlvProps.LowOctetTag | src/emv/index.ts:89-90 | a first octet below 0x10 gives a one-character tag and a primitive element |
| TlvProps.LeadingZeroTag | src/emv/index.ts:89-91 | input `0X…` gives the one-character tag `X` and the length is read from the second character on |
| TlvCodec.TagLimitWellFormed | src/emv/index.ts:70-80 | on a well-formed multi-octet identifier the loop stops exactly at its end, whatever follows |
| TlvCodec.TagEndWellFormed | src/emv/index.ts:70-80 | the same for the octet-value reading |
| TlvCodec.OctetAt | src/emv/index.ts:80 | inside a well-formed identifier the top bit marks exactly the octets that are not last |
| TlvCodec.FirstOctetWellFormed | src/emv/index.ts:59-63 | the first octet read is the identifier's first octet |
| TlvCodec.TagValueWellFormed | src/emv/index.ts:59-90 | the value read for a well-formed identifier is the identifier's own value, whatever follows |
| TlvCodec.HighTagValueOf | src/emv/index.ts:81-86 | with the high-tag-number form, the octets read give back the identifier's value |
| TlvCodec.ReadTagWellFormed | src/emv/index.ts:59-90 | an upper-case well-formed identifier is read back as itself, constructed exactly when bit 0x20 says so |
| TlvCodec.NumberOfHex | src/emv/index.ts:94-95 | `Number(Hex2Dec(x))` is the value of `x` when it is hex, and 0 otherwise |
| TlvCodec.ReadLengthWellFormed | src/emv/index.ts:91-105 | a well-formed length field is read back as itself, with the value starting after it and running for twice the length it announces |
| TlvCodec.ParseHead | src/emv/index.ts:107-119 | a well-formed identifier and length decode to one element whose value is the announced slice (cut at the end of input), followed by the decoding of the rest |
| TlvCodec.HeadFields | src/emv/index.ts:107-119 | once tag and length are known, the element's value is the announced slice of what follows and decoding continues after it |
| TlvCodec.ParseElement | src/emv/index.ts:107-119 | a well-formed element with a value of exactly the announced length, in front of any text |
| TlvCodec.ParsePrimitive | src/emv/index.ts:107-119 | a primitive well-formed element is decoded to its tag, length and value, followed by the decoding of the rest |
| TlvCodec.ElementRoundTrip | src/emv/index.ts:107-119 | an element whose value text decodes to its children decodes back to itself |
| TlvCodec.RoundTripStep | src/emv/index.ts:58-120 | one element of the round trip, given the round trip of its children and of the rest |
| TlvCodec.RoundTrip | src/emv/index.ts:54-123 | decoding the encoding of well-formed elements (upper-case identifiers without a leading zero octet, consistent length fields, value kinds matching the tags) gives the same elements back, recursively |
| Scanner.PairBytes | src/scanner.ts:23-28 | at most one number per character, each from -15 to 255 |
| Scanner.PairHead | src/scanner.ts:24-27 | one pair gives at most one number, from -15 to 255, and nothing when it does not parse |
| Scanner.PairHeadHex | src/scanner.ts:24-27 | a hex pair gives its value |
| Scanner.ParsePair | src/scanner.ts:24 | the hex value of a pair of one or two hex digits, and always a number from -15 to 255; `ScannerProps.ParsePairIsParseInt` shows it is `parseInt(pair, 16)` |
| Scanner.PairsOfHex | src/scanner.ts:23-28 | an even hex string gives one octet per pair: the value of characters 2i and 2i+1 |
| Scanner.PairBytesConcat | src/scanner.ts:23-28 | the loop over two strings, the first of even length, is the loop over each in turn |
| Scanner.ReadPairsFrom | src/scanner.ts:23-28 | bounds that hold for each pair hold for the whole result |
| Scanner.ToByteArray | src/scanner.ts:19-30 | at most one number per character, plus the added leading zero |
| Scanner.ByteArrayRange | src/scanner.ts:19-30 | every number is from -15 to 255; on hex input there is one octet per two characters, rounded up |
| Scanner.ByteHex | src/scanner.ts:34 | each number is written as exactly two characters |
| Scanner.ToHexString | src/scanner.ts:32-37 | two characters per number |
| Scanner.FindMatch | src/scanner.ts:40-43 | `exec` finds the leftmost match at or after its start, or reports none when there is none |
| Scanner.ExtractFrom | src/scanner.ts:43-47 | every candidate is hex, and a hex string yields at most one |
| Scanner.ExtractAidTags | src/scanner.ts:39-49 | every candidate is hex, and a hex answer yields at most one |
| Scanner.DiscoverUpper | src/scanner.ts:68-72 | a Discover AID is at least ten characters long and has a non-zero eighth digit, which upper-casing keeps |
| Scanner.GetCardSchemeFromAid | src/scanner.ts:51-76 | each scheme exactly when its prefix matches: the five upper-cased prefixes for Visa, Mastercard, JCB, Amex and UnionPay, and the three case-sensitive prefixes for Discover |
| Scanner.HalfText | src/scanner.ts:188-189 | for an even length, the canonical hex rendering of half of it; for an odd one, that of the integer half followed by `.8` |
| Scanner.PadStart2 | src/scanner.ts:190 | the input behind as many zeros as bring it to two characters; an input of two or more characters is kept as it is |
| Scanner.SelectAidHex | src/scanner.ts:188-190 | the command text starts with the header `00A40400`, ends with the AID and holds a length field of at least two characters between them; `ScannerProps.SelectCommand` gives its octets |
| Scanner.Find | src/scanner.ts:106-115 | `find` returns an element exactly when one satisfies the predicate, and then the first such |
| Scanner.FindTail | src/scanner.ts:87-93 | `find` skips an element that fails the predicate |
| Scanner.Expiry | src/scanner.ts:116-120 | the displayed expiry always contains `/` |
| Scanner.FlatTlvParser | src/scanner.ts:105-125 | a record exactly when there is a non-empty `70` template; its expiry has the separator and at most five characters |
| Scanner.NestedTlvParser | src/scanner.ts:86-103 | a record only when there is a non-empty `77` template; its card number holds no `D` and its expiry has the separator |
| Scanner.ExtractRecord | src/scanner.ts:146-162 | a record only when the last answer decodes to a first element `70` or `77`, and its expiry has the separator |
| Scanner.Reconcile | src/scanner.ts:197 | one of the two records: the flat one when it has a card number and an expiry with the separator, the nested one when the flat one is missing or has no card number; `ScannerRecords.ReconcileByCard` shows these cases are all |
| Scanner.ReadCardData | src/scanner.ts:165-207 | `AID_NOT_FOUND` exactly when there is no first candidate or it is empty; `UNSUPPORTED_CARD_SCHEME` exactly when the first candidate has no scheme; otherwise a result with that scheme and a non-empty card number, or `CARD_READ_FAILED` |
| Scanner.ScanNfc | src/scanner.ts:209-249 | `NFC_NOT_SUPPORTED`, `NFC_NOT_ENABLED` and `SCAN_TIMEOUT` in that order exactly when their conditions hold; otherwise the outcome of `readCardData` |
| ScannerProps.ByteHexOfByte | src/scanner.ts:34 | a byte is written as its two upper-case hex digits |
| ScannerProps.PairOfByte | src/scanner.ts:24-34 | the two digits written for a byte read back as that byte |
| ScannerProps.BytesRoundTrip | src/scanner.ts:19-37 | bytes written by `toHexString` are read back by `toByteArray` |
| ScannerProps.HexRoundTrip | src/scanner.ts:19-37 | even-length hex read as bytes and written back comes out upper-cased and otherwise unchanged |
| ScannerProps.OddHex | src/scanner.ts:21-22 | odd-length hex reads as its first digit alone, then the pairs of the rest |
| ScannerProps.HexStringIsUpper | src/scanner.ts:32-37 | what `toHexString` writes for bytes is upper-case hex |
| ScannerProps.ParsePairIsParseInt | src/scanner.ts:24 | the pair reading used here agrees with `parseInt(pair, 16)` on every string of at most two characters |
| ScannerProps.UpperStarts | src/scanner.ts:52-67 | an AID whose first ten characters upper-case to a prefix matches it after upper-casing |
| ScannerProps.NoRid | src/scanner.ts:51-76 | an AID that is empty or does not start with `A` or `a` has no scheme |
| ScannerProps.MatchOnHex | src/scanner.ts:40 | on hex text the pattern matches exactly where `4F` or `4f` has at least three more characters after it |
| ScannerProps.AidScanNone | src/scanner.ts:39-49 | no match, no candidate |
| ScannerProps.AidScanOnHex | src/scanner.ts:39-49 | on hex text the only candidate comes from the leftmost match: the text after the two length characters, cut to twice that length |
| ScannerProps.AidOfAnswer | src/scanner.ts:39-49 | an answer `4F`, a length, an AID of exactly that many octets and any further hex gives that AID |
| ScannerProps.SelectHeader | src/scanner.ts:188 | the command header reads as class 00, instruction A4, P1 04 and P2 00 |
| ScannerProps.SelectLength | src/scanner.ts:188-190 | a length below 256 is written as two lower-case hex digits that read back as the length |
| ScannerProps.SelectCommand | src/scanner.ts:188-191 | the SELECT command for an even-length hex AID of at most 255 octets is the header, the AID's length in octets, and the AID's octets |
| ScannerProps.OddSelectCommand | src/scanner.ts:188-190 | for an odd-length AID the length field contains a `.`, so it is not two hex digits |
| ScannerProps.ExpiryOfDate | src/scanner.ts:116-120 | the date `YYMM…` is shown as `MM/YY` |
| ScannerProps.ExpiryReadsBack | src/scanner.ts:120 | splitting `MM/YY` at the separator and swapping the halves gives the date back |
| ScannerProps.SplitAt | src/scanner.ts:96 | `split` cuts at the first separator |
| ScannerProps.TrackTwo | src/scanner.ts:96-97 | in track 2 data `PAN D YYMM…` the card number is the text before the first `D` and the date the four characters after it |
| ScannerProps.TakeFirstPart | src/scanner.ts:96 | the first part of a split keeps any prefix free of the separator |
| ScannerRecords.FindFirst | src/scanner.ts:106-115 | `find` returns the first element that satisfies the predicate |
| ScannerRecords.DescribedEncoding | src/emv/index.ts:126-158 | the annotation pass over well-formed encoded elements returns their tags and values, and their children's |
| ScannerRecords.FlatRecordRead | src/scanner.ts:105-125 | an answer encoding a `70` template: the record is the first `5A` value and the first `5F24` date as `MM/YY` |
| ScannerRecords.NestedRecordRead | src/scanner.ts:86-103 | an answer encoding a `77` template with track 2 data: the record is its card number and its date as `MM/YY` |
| ScannerRecords.NestedTemplate | src/scanner.ts:86-103 | the nested extractor on a decoded `77` template |
| ScannerRecords.FlatWithoutPan | src/scanner.ts:110-122 | a `70` template without a `5A` child still gives a record, with the empty card number |
| ScannerRecords.FlatWithoutExpiry | src/scanner.ts:113-123 | a `70` template without a `5F24` child gives the bare separator `/` as the expiry |
| ScannerRecords.NestedWithoutSeparator | src/scanner.ts:95-98 | track 2 text without a `D` is the whole card number, with the bare separator `/` as the expiry |
| ScannerRecords.NestedFound | src/scanner.ts:86-103 | the nested extractor gives a record exactly when the first non-empty `77` template has a `57` child with a non-empty value |
| ScannerRecords.ReconcileByCard | src/scanner.ts:197 | the flat record is taken exactly when it exists with a card number, because its expiry is never empty |
| ScannerRecords.ReadFailedIff | src/scanner.ts:197-201 | `CARD_READ_FAILED` exactly when AID and scheme pass and the chosen record is missing or has no card number |
| ScannerRecords.ReadSucceeds | src/scanner.ts:176-203 | with an AID, its scheme and a chosen record with a card number, the result is that record with that scheme |
| ScannerRecords.ReadFlatCard | src/scanner.ts:165-207 | a read end to end: an answer naming an AID with a scheme and an answer encoding a `70` template give the card number, the `MM/YY` date and the scheme |
| ScannerRecords.CastsHold | src/scanner.ts:91-116 | on the decoder's output, the casts to a child list and to a string always hold for the elements the extractors read |

## Test vectors

The repository's own test cases and other concrete inputs, evaluated in the model.

| member | source | states |
|---|---|---|
| EmvUtils.CheckExamples | src/__tests__/emv-utils.test.ts:17-44 | the check test inputs: `0101`, `1111`, `123`, `0`, `FF`, `0a` and `123abc` pass their checks, and `2`, `abc` and `GG` fail them |
| EmvUtils.OctetRenderings | src/emv/utils.ts:34-74 | 255 renders as `11111111`, `ff` and `255`, 16 as `16` and `10`, and 0 as `0` |
| EmvUtils.DecimalExamples | src/__tests__/emv-utils.test.ts:46-63 | `Dec2Bin('255')` is `11111111`, `Dec2Bin('0')` is `0`, `Dec2Hex('255')` is `ff` and `Dec2Hex('16')` is `10` |
| EmvUtils.OnesExamples | src/__tests__/emv-utils.test.ts:65-81 | `Bin2Dec('11111111')` is `255` and `Bin2Hex('11111111')` is `ff` |
| EmvUtils.HexExamples | src/__tests__/emv-utils.test.ts:83-99 | `Hex2Bin('FF')` is `11111111`, `Hex2Dec('FF')` is `255` and `Hex2Dec('10')` is `16` |
| EmvUtils.BinaryExamples | src/__tests__/emv-utils.test.ts:65-81 | `Bin2Dec('1010')` is `10` and `Bin2Hex('10000')` is `10` |
| EmvUtils.BinaryRenderings | src/__tests__/emv-utils.test.ts:46-56 | 2, 5, 10 and 16 render in binary as `10`, `101`, `1010` and `10000` |
| EmvUtils.HexToBinaryExamples | src/__tests__/emv-utils.test.ts:46-92 | `Hex2Bin('10')` is `10000` and `Dec2Bin('10')` is `1010` |
| EmvUtils.ConverterRejects | src/__tests__/emv-utils.test.ts:53-91 | every converter returns the sentinel on input outside its alphabet, the empty string and `0x1F` included |
| EmvUtils.PadExamples | src/__tests__/emv-utils.test.ts:108-114 | padding `1` to 4 gives `0001`, `101` to 8 gives `00000101`, and `1234` to 4 is unchanged |
| EmvUtils.UnpadExamples | src/__tests__/emv-utils.test.ts:116-121 | unpadding `0001`, `00000101` and `0` gives `1`, `101` and the empty string |
| EmvUtils.Hex2AsciiExample | src/__tests__/emv-utils.test.ts:101-106 | `4E4643` decodes to `NFC` |
| EmvUtils.Hex2AsciiHello | src/__tests__/emv-utils.test.ts:101-106 | `48656C6C6F` decodes to `Hello` |
| TlvExamples.Tag5A | src/__tests__/emv-parser.test.ts:5-12 | `5A` is a well-formed primitive tag |
| TlvExamples.Tag5F24 | src/__tests__/emv-parser.test.ts:14-22 | `5F24` is a well-formed two-octet primitive tag |
| TlvExamples.Tag6F | src/__tests__/emv-parser.test.ts:24-33 | `6F` is a well-formed constructed tag |
| TlvExamples.Tag84 | src/__tests__/emv-parser.test.ts:24-33 | `84` is a well-formed primitive tag |
| TlvExamples.ShortLength | src/emv/index.ts:91-96 | a length octet not starting with `8` announces its own value |
| TlvExamples.ParsePan | src/__tests__/emv-parser.test.ts:50-69 | the PAN example decodes to one element `5A` with its sixteen digits, which `getValue` and `getElement` report |
| TlvExamples.ParsePanAndExpiry | src/__tests__/emv-parser.test.ts:14-22 | the PAN and expiry example decodes to `5A`, `5F24` with `271231`, then the two elements the trailing `0000` gives |
| TlvExamples.PanThenExpiry | src/__tests__/emv-parser.test.ts:14-22 | the PAN and expiry elements in front of any text |
| TlvExamples.PanThen | src/__tests__/emv-parser.test.ts:5-12 | the PAN element in front of any text |
| TlvExamples.ExpiryThen | src/__tests__/emv-parser.test.ts:14-22 | the expiry element in front of any text |
| TlvExamples.ParseZeros | src/emv/index.ts:89-110 | `0000` decodes to a tag `0` with length `00`, then a tag `0` with an empty length: the shortened tag shifts the offsets |
| TlvExamples.ZerosHead | src/emv/index.ts:89-105 | on `0000` the tag is `0` and the length is read from the second character |
| TlvExamples.ParseZero | src/emv/index.ts:89-110 | a lone `0` still makes one element, with empty length and value |
| TlvExamples.ParseTemplate | src/__tests__/emv-parser.test.ts:24-33 | the `6F` example decodes to one constructed element whose only child is `84` with the PPSE name |
| TlvExamples.ParseDirectoryName | src/__tests__/emv-parser.test.ts:24-33 | the inner `84` element decodes to its fourteen octets |
| TlvExamples.LookupExamples | src/__tests__/emv-parser.test.ts:36-47 | with a table holding `42`, the lookup matches the kernel case-insensitively and takes the first entry, and an unknown tag gives no name |
| ScannerProps.VisaVectors | src/__tests__/scanner.test.ts:12-15 | the Visa test AIDs are Visa, and so is the lower-case one of the test at line 46 |
| ScannerProps.MastercardVectors | src/__tests__/scanner.test.ts:17-20 | the Mastercard test AIDs are Mastercard, and so is the lower-case one of the test at line 47 |
| ScannerProps.OtherSchemeVectors | src/__tests__/scanner.test.ts:22-32 | the JCB, Amex and UnionPay test AIDs get their schemes |
| ScannerProps.DiscoverVectors | src/__tests__/scanner.test.ts:34-38 | the three Discover test AIDs are Discover |
| ScannerProps.UnknownVectors | src/__tests__/scanner.test.ts:40-43 | `B000000000` and the empty AID have no scheme |
| ScannerProps.LowerDiscoverVector | src/scanner.ts:68-72 | a lower-case Discover AID has no scheme |
| ScannerProps.AidExample | src/scanner.ts:39-49 | in `4F07A00000000310109000` the greedy run takes the status word too, and the length `07` cuts it off again |
| ScannerProps.ExpiryOfNothing | src/scanner.ts:116-120 | a missing date is shown as `/` |
| ScannerRecords.TagKinds | src/scanner.ts:14-17 | `70` and `77` are constructed and `5A`, `5F24` and `57` are primitive |

## Left out

- **NFC I/O.** `NfcManager` calls are left out: `isSupported`, `isEnabled`,
  `start`, `requestTechnology`, `transceive`, `cancelTechnologyRequest` and the
  tag-event registration. The card's answers and the support and enablement
  flags are parameters of `Scanner.ReadCardData` and `Scanner.ScanNfc`. The
  commands sent by `extractRecord`, including the SELECT PPSE and GPO/READ
  RECORD commands, are only modelled where they decide something.
- **Timers and cleanup.** The timeout race and its timer are left out, and so is
  `DEFAULT_TIMEOUT`; `timedOut` stands for the timer winning. Also left out:
  the `finally` cleanup, `stopNfc`, `isNfcEnabled` and `isNfcSupported`, which
  only forward to the native module.
- **Exceptions from native calls** other than the three the reader raises
  itself. A failing `transceive` would surface as a rejected promise.
- **The `Promise` wrapper of `getEmvInfo`** and the `if (lastResp)` and
  `if (!emvParsed)` guards. They always pass, since arrays are truthy.
- **The tag dictionary.** `src/emv/tags.ts` is not part of this model, so the
  table is a parameter. The test that looks up `42` is checked against a
  table holding that entry (`TlvExamples.LookupExamples`).
- **The example app and `src/index.ts`.**
- **Floating point.** Numbers are unbounded integers. `parseInt` and
  `Number` lose precision above 2^53; the converters accept up to 64 digits,
  so renderings of such large values differ from the model's exact ones.
- **EmvUtils.Bin2HexOfHex2Bin** is stated for values below 2^64, not 2^53,
  because floating-point rounding is not modelled.
- **UTF-16 code units.** Strings are sequences of Unicode scalar values.
  JavaScript's `length`, `substring`, `substr`, `slice`, `padStart` and the
  regular expression `.` count UTF-16 code units instead. So lengths and
  indices differ on characters outside the Basic Multilingual Plane: JavaScript
  leaves `"\u{1F600}"` unchanged when padding to two, while `EmvUtils.Pad` adds
  a `0`. Lone surrogates cannot be represented at all. The strings the card
  reader handles are ASCII hex text and EMV data.
- **Case mapping** covers ASCII letters only. `toUpperCase` on other
  characters is not modelled; the strings handled here are hex text or EMV
  data.
- **The `String(x)` conversions** that let the helpers accept numbers are left
  out; the model takes strings.
- **Casts in the extractors.** `value as EmvObject[]` and `value as string`
  are modelled as total (`TextOf`, `ChildrenOf`), falling back to an empty
  value. `ScannerRecords.CastsHold` shows the fallback is never taken on the
  decoder's output.
- **TlvCodec.RoundTrip** covers well-formed elements only: identifiers of up
  to six octets whose first octet is at least 0x10, and length fields with at
  most six further octets. Other input is decoded with the quirks above, which a round trip
  cannot undo.
- **ScannerProps.SelectCommand** covers even-length hex AIDs of at most 255
  octets; other AIDs are described by `ScannerProps.OddSelectCommand` only.
- **Scanner.NestedTlvParser** states in its own contract only that a record
  implies a non-empty `77` template; `ScannerRecords.NestedFound` gives the
  exact condition, and `ScannerRecords.NestedRecordRead` and
  `ScannerRecords.NestedWithoutSeparator` the record's content.
- **Js.Slice and Js.SliceFrom** state only the length bound; their use in
  `Scanner.Expiry` and `Scanner.ByteHex` is pinned down by
  `ScannerProps.ExpiryOfDate` and `ScannerProps.ByteHexOfByte`.
