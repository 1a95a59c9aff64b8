# A verified model of a minimal DNS message codec

This project models the codec of a small Python DNS server, following the
message layout of section 4.1 of RFC 1035. It covers:

- the header, with its flags word built from eight sub-fields by shifts and `|`;
- the question (QNAME, QTYPE, QCLASS);
- one answer record (NAME, TYPE, CLASS, TTL, RDLENGTH, RDATA);
- whole-message packing;
- the part the rest depends on: the domain-name codec.
  - `encode_name` turns a dotted string into length-prefixed labels plus a zero octet.
  - `extract_name` scans a packet buffer octet by octet from an offset.
  - The scan stops at the terminator or at a compression pointer (section 4.1.4 of RFC 1035), and follows the pointer recursively.

Each Python module is one Dafny module:

| Dafny file | Python module | form |
|---|---|---|
| `wire.dfy` | `struct.pack`/`unpack`, slicing, the exceptions | pure |
| `common_module.dfy` | `src/common_module.py` | pure specification plus the scanning loop as a method |
| `url_sequence_creator.dfy` | `src/utils/url_sequence_creator.py` | pure specification plus the label loop as a method |
| `name_round_trip.dfy` | `encode_name` against `extract_name` | lemmas |
| `header_creator.dfy` | `src/core/header_creator.py` | a class with stored flags; packing reads it |
| `header_parser.dfy` | `src/utils/header_parser.py` | pure field derivation plus a method that builds the object |
| `question_creator.dfy` | `src/core/question_creator.py` | pure |
| `question_parser.dfy` | `src/utils/question_parser.py` | pure |
| `answer_creator.dfy` | `src/core/answer_creator.py` | pure |
| `answer_parser.dfy` | `src/utils/answer_parser.py` | pure |
| `message_creator.dfy` | `src/core/message_creator.py` | pure, over a message that holds the header object |

Conventions:

- Octets are `Byte` (an `int` in `0..255`).
- Every Python exception is an `Error` constructor inside a `Result`:
  - `ValueError` from the name scan is `TruncatedName`.
  - `RecursionError` is `CompressionLoop`.
  - `struct.error` is `StructError`.
  - The parsers' own `ValueError`s are `ShortHeader`, `MissingQuestion` and `NoTerminator`.
  - `chr` and `str.encode` failures are `ChrOutOfRange` and `SurrogateLength`.
  - The `TypeError` of packing a bytes name is `NameNotText`.
- Python's unbounded `int`, its `<<` and its two's-complement `|` are modelled on Dafny's `int`. So out-of-range and negative header fields behave as in Python.
- `extract_name` has no cycle guard. Python stops it only with RecursionError. Here the `fuel` parameter bounds the number of pointers followed, and running out is `CompressionLoop`. `ExtractMoreFuel` shows that fuel matters only by running out.

Where the code departs from RFC 1035 or from what a reader might expect, the model follows the code:

- **No 63-octet label check.** Section 2.3.4 of RFC 1035 limits labels to 63 octets. `encode_name` does not check this (src/utils/url_sequence_creator.py:16-17).
  - A part of up to 127 ASCII characters still encodes to a single length octet, and the round trip (`NameRoundTrip`) holds for it.
  - Longer parts give a multi-octet UTF-8 length, exactly as `str.encode` does.
- **Short RDATA is accepted.** `answer_parser` slices RDATA silently (src/utils/answer_parser.py:24): the data is whatever octets remain, even fewer than RDLENGTH (`ShortDataAccepted`).
- **Flags are cached, not recomputed.** `flags` is computed once, in `__post_init__` (src/core/header_creator.py:72-81), and packing uses the stored word.
  - The model keeps `flags` as a field of the `DNSHeader` class.
  - `FlagsCurrent` is the condition that it still matches the fields.
- **The question parser returns only the question.** `question_parser` returns the question and not the offset after it (src/utils/question_parser.py:24). Its name is the raw octets up to the first zero octet, with pointers not followed.
  - Packing such a question again would be a `TypeError`, because `encode_name` is called on bytes (`NameNotText`).

## Model

| member | source | states |
|---|---|---|
| Wire.PackUInt | src/core/header_creator.py:111-119 | one big-endian field packs iff the value fits its width, into exactly that many octets |
| Wire.PackUIntReads | src/core/header_creator.py:111-119 | reading a packed field back gives the value |
| Wire.UnpackUInt | src/common_module.py:26 | `int.from_bytes(b, "big")` is below 256 to the power of the number of octets; UnpackBigEndian and BigEndianUnpack show it is the exact inverse of big-endian writing |
| Wire.UnpackBigEndian | src/common_module.py:26 | reading back the big-endian octets of a value that fits gives the value |
| Wire.BigEndianUnpack | src/common_module.py:26 | writing back the value read from some octets reproduces exactly those octets |
| Wire.UnpackTwo | src/common_module.py:26 | two octets read as the first times 256 plus the second |
| Wire.UnpackAt | src/utils/header_parser.py:21-22 | the fields read in order from a position: one value per field, each within its width |
| Wire.Unpack | src/utils/header_parser.py:21-22 | `struct.unpack` succeeds iff the buffer has exactly the format's size; otherwise struct.error; one in-range value per field |
| Wire.UnpackField | src/utils/header_parser.py:21-22 | field i of an unpacked buffer is the big-endian value of its own octets at the format offset |
| Wire.Pack | src/core/header_creator.py:111-119 | `struct.pack` succeeds iff every value fits its field; otherwise struct.error; the output has the format's size |
| Wire.UnpackAtPack | src/utils/answer_parser.py:20-23 | packed fields read back from wherever they sit in a larger buffer give the values |
| Wire.UnpackPack | src/core/header_creator.py:111-119 | unpacking what was packed gives back the values |
| Wire.PackUnpackAt | src/utils/header_parser.py:21-22 | packing the fields read from a position gives back the octets they were read from |
| Wire.PackUnpack | src/utils/header_parser.py:21-22 | packing what was unpacked gives back the octets |
| Wire.PackAppend | src/core/answer_creator.py:54 | packing two runs of fields is packing their concatenation |
| CommonModule.PointerOffsetBytes | src/common_module.py:25-28 | a pointer's target, the low 6 bits of its first octet times 256 plus its second octet, is the big-endian value of its two octets masked with 0x3FFF, and below 0x4000 |
| CommonModule.NameEnd | src/common_module.py:18-24 | the scan stops at the first terminator or pointer octet, or where it reaches the 4-octet margin; every octet before it is neither |
| CommonModule.Extract | src/common_module.py:7-35 | a start at or past the end of the buffer gives the empty name with count 0 and no error; extraction fails only with TruncatedName or CompressionLoop; on success the name ends at least 3 octets before the end of the buffer |
| CommonModule.ExtractTerminator | src/common_module.py:21-23 | a terminator at relative position k gives `(buf[start..start+k+1], k)` for any fuel |
| CommonModule.ExtractPointer | src/common_module.py:24-33 | a pointer at relative position k gives the octets before it plus the pointed-to name, with count k+1; errors of the pointed-to name propagate; with no fuel left it is CompressionLoop |
| CommonModule.ExtractTruncated | src/common_module.py:19-20 | with no terminator or pointer before the margin, extraction fails with TruncatedName |
| CommonModule.ExtractPlainName | src/common_module.py:18-23 | an uncompressed name followed by at least four octets extracts to itself, with its terminator's index as the count |
| CommonModule.ExtractWireEnd | src/common_module.py:21-33 | `start + count + 1` is just past the name as written: past its terminator, with no stop octet before that terminator, or past both octets of its final pointer, with no stop octet before that pointer |
| CommonModule.NameEndBeforeMargin | src/common_module.py:19-21 | octets from `len - 3` on do not change where the scan stops |
| CommonModule.ExtractIgnoresMargin | src/common_module.py:19-20 | two buffers of one length that agree before `len - 3` extract the same result from every offset |
| CommonModule.ExtractMoreFuel | src/common_module.py:29 | any result other than CompressionLoop is unchanged by more fuel |
| CommonModule.CycleNeverResolves | src/common_module.py:29 | a scan that reaches a pointer of a cycle fails with CompressionLoop for every fuel |
| CommonModule.SelfPointerLoops | src/common_module.py:29 | a pointer to its own position fails for every fuel |
| CommonModule.PointerCopiesName | src/common_module.py:29-32 | a name that is a lone pointer comes back as the name pointed to, with count 1 |
| CommonModule.BackwardChainsEnd | src/common_module.py:29 | when every pointer leads strictly backward, extraction does not fail with CompressionLoop when the fuel exceeds the position of the first pointer the scan meets |
| CommonModule.BackwardPointersTerminate | src/common_module.py:29 | when every pointer leads strictly backward, fuel equal to the buffer length never runs out, and more fuel changes nothing |
| CommonModule.ExtractName | src/common_module.py:7-35 | the octet-by-octet loop, with its remainder, counter and early exits, returns exactly `Extract` |
| CommonModule.FollowPointer | src/common_module.py:24-33 | the pointer branch of the loop (mask the two octets, recurse, prepend the octets before the pointer, count one more) returns exactly `Extract` |
| UrlSequenceCreator.Split | src/utils/url_sequence_creator.py:16 | `str.split(".")` gives at least one part and no part contains a dot |
| UrlSequenceCreator.JoinSplit | src/utils/url_sequence_creator.py:16 | joining the parts with dots gives back the domain |
| UrlSequenceCreator.SplitJoin | src/utils/url_sequence_creator.py:16 | splitting dot-free parts joined with dots gives back the parts |
| UrlSequenceCreator.LabelText | src/utils/url_sequence_creator.py:15-18 | the label text fails with ChrOutOfRange iff some part has 0x110000 characters or more; every code point is valid otherwise |
| UrlSequenceCreator.Utf8Char | src/utils/url_sequence_creator.py:19 | one code point encodes to 1-4 octets, one octet iff it is below 0x80 and then itself; surrogates fail |
| UrlSequenceCreator.Utf8Encode | src/utils/url_sequence_creator.py:19 | `str.encode` fails with SurrogateLength iff the text has a surrogate code point |
| UrlSequenceCreator.Utf8Append | src/utils/url_sequence_creator.py:19 | encoding a concatenation succeeds iff both halves encode, and is the concatenation of their encodings |
| UrlSequenceCreator.Utf8Ascii | src/utils/url_sequence_creator.py:19 | ASCII text encodes to itself |
| UrlSequenceCreator.LabelSequence | src/utils/url_sequence_creator.py:16-17 | the labels of ASCII parts are octets below 0x80 |
| UrlSequenceCreator.LabelSequenceAppend | src/utils/url_sequence_creator.py:16-17 | each part, empty parts included, adds its length octet and then its characters, in input order |
| UrlSequenceCreator.LabelTextAscii | src/utils/url_sequence_creator.py:15-18 | for ASCII parts the label text is the label sequence |
| UrlSequenceCreator.EncodedNameAscii | src/utils/url_sequence_creator.py:4-19 | for ASCII parts the encoding is the label sequence plus one zero octet, of length `len(domain) + 2` |
| UrlSequenceCreator.LabelSequenceLength | src/utils/url_sequence_creator.py:16-17 | the label sequence is one octet longer than the dotted string |
| UrlSequenceCreator.EncodedNameEndsWithZero | src/utils/url_sequence_creator.py:18 | every successful encoding ends with a zero octet |
| UrlSequenceCreator.LabelTextSurrogates | src/utils/url_sequence_creator.py:17 | the label text holds a surrogate iff some part's length is a surrogate code point |
| UrlSequenceCreator.LabelsEncode | src/utils/url_sequence_creator.py:15-19 | once every length passes `chr`, the terminated text encodes iff no part's length is a surrogate |
| UrlSequenceCreator.EncodedName | src/utils/url_sequence_creator.py:4-19 | `encode_name` succeeds iff every part is shorter than 0x110000 characters and no part's length is a surrogate; a part too long is ChrOutOfRange whatever else holds; otherwise the only failure is SurrogateLength |
| UrlSequenceCreator.GoogleExample | src/utils/url_sequence_creator.py:8-9 | `google.com` encodes to `\x06google\x03com\x00` |
| UrlSequenceCreator.EmptyDomain | src/utils/url_sequence_creator.py:16-18 | the empty domain is one empty part: `\x00\x00` |
| UrlSequenceCreator.TrailingDot | src/utils/url_sequence_creator.py:16-18 | `a.` has a trailing empty part: `\x01a\x00\x00` |
| UrlSequenceCreator.EncodeName | src/utils/url_sequence_creator.py:4-19 | the loop over the parts, with early exit on `chr` failure, returns exactly `EncodedName` |
| NameRoundTrip.HostLabelsHaveNoStop | src/utils/url_sequence_creator.py:16-17 | the labels of host parts are octets in 1..127, neither terminator nor pointer |
| NameRoundTrip.HostNameWire | src/utils/url_sequence_creator.py:4-19 | a host name encodes; the encoding is non-stop octets then one zero octet |
| NameRoundTrip.NameRoundTrip | src/common_module.py:18-23 | the encoding E of a host name, written at any offset with four octets after it, extracts to `(E, len(E) - 1)` |
| NameRoundTrip.CompressedName | src/common_module.py:24-33 | a lone pointer to the encoding of a host name extracts to that encoding with count 1 |
| HeaderCreator.Shl | src/core/header_creator.py:73-80 | `<<` keeps the sign of its operand |
| HeaderCreator.Or | src/core/header_creator.py:72-81 | Python's `|` on integers is negative iff an operand is |
| HeaderCreator.OrDisjoint | src/core/header_creator.py:72-81 | `|` of a shifted value and a smaller non-negative one is their sum |
| HeaderCreator.FlagsWord | src/core/header_creator.py:72-81 | the flags word is negative iff some field is |
| HeaderCreator.FlagsSum | src/core/header_creator.py:72-81 | for fields in their widths the flags word is the weighted sum of the fields |
| HeaderCreator.FlagsDigits | src/utils/header_parser.py:24-29 | that sum is a 16-bit word from which each field is recovered by shift and mask |
| HeaderCreator.FlagsLayout | src/core/header_creator.py:72-81 | for fields in their widths the flags word fits 16 bits and each field sits at its RFC 1035 position |
| HeaderCreator.StandardResponseFlags | src/core/header_creator.py:72-81 | qr=1, rd=1, ra=1 give `0x8180` |
| HeaderCreator.DocstringFlags | src/core/header_creator.py:24-26 | the documented example (opcode 1, rd 1, ra 1) gives `0x0980` |
| HeaderCreator.OpcodeOverflowsIntoQr | src/core/header_creator.py:73-74 | no masking: opcode 16 sets the QR bit, like qr=1 |
| HeaderCreator.DNSHeader.constructor | src/core/header_creator.py:35-81 | the object holds the given fields and a flags word computed from them |
| HeaderCreator.DNSHeader.PackHeaderToBytes | src/core/header_creator.py:83-119 | packing succeeds iff id, the stored flags and the four counts fit 16 bits; 12 octets that unpack to those six words |
| HeaderParser.ParsedFields | src/utils/header_parser.py:7-37 | parsing fails with ShortHeader iff fewer than 12 octets; otherwise the fields are in their widths and are in reply form |
| HeaderParser.ParsedFieldsIgnoreRest | src/utils/header_parser.py:21-22 | only the first 12 octets matter |
| HeaderParser.ParsedFieldsCopyWords | src/utils/header_parser.py:21-22 | id, nscount and arcount are the big-endian words at octets 0, 8 and 10 |
| HeaderParser.ParsedFlagFields | src/utils/header_parser.py:21-37 | OPCODE, AA, TC, RD, RA and Z are the shifts and masks of the big-endian word at octets 2-3; QR, QDCOUNT, ANCOUNT are 1 and RCODE is 0 for a standard query, 4 otherwise |
| HeaderParser.PackThenParse | src/utils/header_parser.py:21-37 | parsing a packed, consistent header gives its reply form |
| HeaderParser.ReplyRoundTrip | src/utils/header_parser.py:21-37 | a reply header survives pack then parse unchanged |
| HeaderParser.ParseHeader | src/utils/header_parser.py:7-37 | fails iff fewer than 12 octets; otherwise a fresh header object with the parsed fields, consistent flags, which packs |
| QuestionCreator.PackQuestionToBytes | src/core/question_creator.py:41-63 | a bytes name is a TypeError; a text name packs iff it encodes and QTYPE, QCLASS fit 16 bits; the output is the encoded name then the two words |
| QuestionCreator.DefaultQuestionBytes | src/core/question_creator.py:37-39 | the default question packs to `\x06google\x03com\x00\x00\x01\x00\x01` |
| QuestionCreator.OneOneWords | src/core/question_creator.py:63 | QTYPE 1 and QCLASS 1 pack to `\x00\x01\x00\x01` |
| QuestionParser.FirstZero | src/utils/question_parser.py:20 | `bytes.index(b"\x00")`: a zero octet with none before it, or the length when there is none |
| QuestionParser.ParseQuestion | src/utils/question_parser.py:7-24 | nothing after the header is MissingQuestion, no zero octet is NoTerminator, fewer than 4 octets after it is struct.error; the name is the raw octets up to the zero octet and the two words follow it |
| QuestionParser.FirstZeroAt | src/utils/question_parser.py:20 | a zero octet with no zero before it is what `index` finds |
| QuestionParser.QuestionRoundTrip | src/utils/question_parser.py:17-24 | a header, a packed host-name question and anything after parse back to the question with its name encoded |
| QuestionParser.ParsedQuestion | src/utils/question_parser.py:17-24 | a name ending in the first zero octet after the header, followed by two packed words, parses to the question with that raw name and those words |
| AnswerCreator.PackAnswerToBytes | src/core/answer_creator.py:50-56 | packing succeeds iff TYPE, CLASS, RDLENGTH fit 16 bits and TTL 32 bits; the name unchanged, the fixed fields, then the data; length `len(name) + 10 + len(data)` |
| AnswerCreator.LengthNotChecked | src/core/answer_creator.py:47-55 | RDLENGTH is not compared with the data: any in-range value packs |
| AnswerCreator.ExampleFixedFields | src/core/answer_creator.py:54 | A, IN, TTL 69, RDLENGTH 4 pack to `\x00\x01\x00\x01\x00\x00\x00\x45\x00\x04` |
| AnswerCreator.TtlLengthWords | src/core/answer_creator.py:54 | TTL 69 and RDLENGTH 4 pack to `\x00\x00\x00\x45\x00\x04` |
| AnswerParser.ParseAnswer | src/utils/answer_parser.py:8-28 | name errors propagate; fixed fields are read just past the name on the wire and fail unless 10 octets remain; the data is the available prefix of RDLENGTH octets |
| AnswerParser.AnswerRoundTrip | src/utils/answer_parser.py:19-28 | a record with an uncompressed name and data matching RDLENGTH parses back from its offset |
| AnswerParser.RecordRoundTrip | src/utils/answer_parser.py:19-28 | the same round trip over the record's parts: name, ten octets that unpack to its fields, data |
| AnswerParser.ParsedAnswer | src/utils/answer_parser.py:19-28 | a buffer whose name extracts whole, followed by the fixed fields and the data cut at the buffer's end, parses to exactly that record |
| AnswerParser.ShortDataAccepted | src/utils/answer_parser.py:24 | a buffer ending before RDLENGTH octets of data still parses, with fewer data octets than the length says |
| AnswerParser.CompressedAnswerName | src/utils/answer_parser.py:19-23 | a name that is a lone pointer comes back expanded while the fixed fields are read just past the two pointer octets |
| MessageCreator.PackMessageToBytes | src/core/message_creator.py:36-60 | the message packs iff every section does, the first failure is reported; header, question and answer octets in order, length `12 + len(question) + len(answer)` |
| MessageCreator.MessageHeaderParses | src/core/message_creator.py:57-60 | the first 12 octets of a packed message parse to the reply form of its header |
| MessageCreator.MessageQuestionParses | src/core/message_creator.py:58-60 | parsing a packed message's question at offset 12 recovers the encoded name, QTYPE and QCLASS |
| MessageCreator.MessageAnswerParses | src/core/message_creator.py:59-60 | parsing just past the packed question recovers the answer |
| MessageCreator.EndToEnd | src/core/message_creator.py:57-60 | the default question packs to `\x06google\x03com\x00\x00\x01\x00\x01`, and the `google.com` record with data `\x08\x08\x08\x08` (the static reply of src/main.py:23-25, with A, IN, TTL 69 and RDLENGTH 4 chosen because that reply gives none) packs to its name followed by `\x00\x01\x00\x01\x00\x00\x00\x45\x00\x04\x08\x08\x08\x08`, after the header's octets |

## Left out

- `src/utils/resolver.py`, `src/main.py` and `src/core/connection_binder.py` are not part of this model. They hold UDP sockets, the server loop, address parsing and process exit. That is I/O and process control, with no codec logic of their own.
- `src/core/__init__.py` only re-exports, so it has nothing to model.
- Extract: a negative `start_index` (Python's negative slice indices) is not modelled; `start` is a `nat`, because the codec only ever passes offsets it computed.
- ExtractName: Python's recursion limit is replaced by `fuel`, which counts the pointers followed; the exact stack depth at which RecursionError occurs is not modelled.
- EncodeName: strings are Dafny `string`s, which cannot hold lone surrogate characters, so `str.encode` failures on the text of a part are not modelled; only the failures caused by the length characters are.
- NameRoundTrip: proved for host names (non-empty, NUL-free ASCII parts under 128 characters); other names encode to octets that may contain stop octets and are not claimed to round-trip.
- QuestionRoundTrip: stated for host names only, for the same reason; the parsed name is the raw encoded octets, as in the code.
- AnswerRoundTrip: stated for uncompressed names ending in a terminator; compressed names are covered separately by CompressedAnswerName.
- MessageAnswerParses: requires the data to be no longer than RDLENGTH, since the packer does not enforce it and a longer data field is read back cut short.
- EndToEnd: the header octets are left symbolic, and the record's type, class, TTL and length are chosen for the statement, since the static reply of src/main.py:23-25 does not give them; the question and answer sections are stated as octet literals.
- DNSHeader: assigning a field after construction is not modelled as an operation; `FlagsCurrent` records whether the stored flags match the fields.
