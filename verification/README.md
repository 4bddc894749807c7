# An SMPP server's protocol logic in Dafny

A Dafny 4.11 model of the protocol logic of an SMPP v3.4 server written in Go, and proofs about it. The loops and
state-changing methods that are modelled are Dafny methods and classes, proved equal to specification functions; the
main results are theorems about those functions, over every input, every run or every order of arrival.
`dafny verify dfyconfig.toml` checks the project.

## What is modelled

**Strings** (`GoStrings.dfy`). A Go string is any byte sequence; `[]rune(s)`, `string(runes)` and
`utf8.ValidString` are written out, malformed bytes included.

**Codecs** (`Gsm7.dfy`, `Ucs2.dfy`, `TextEncoding.dfy`, `Chunking.dfy`). The GSM 7-bit tables (sections 6.2.1 and
6.2.1.1 of 3GPP TS 23.038, one octet per septet as in the code), the reverse tables that the package initialiser
builds in map order, UTF-16 with surrogate pairs, and the text chunkers.

**Long messages** (`Messages.dfy`, `Segmentation.dfy`, `Sorting.dfy`, `Reassembly.dfy`, `RoundTrip.dfy`). `ProcessLongSMS` cuts a
text between runes, encodes each piece and prefixes the code's own 6-octet header, which has a 2-octet reference.
`ConcatenateSMSParts` parses the headers, exchange-sorts the parts in place, checks completeness, decodes, joins and
re-encodes. Reassembly accepts exactly complete sets, told from the octets of the parts, whatever the order of arrival;
segmenting and then reassembling gives the message back exactly for the texts `LosslessExactly` describes.

**The second splitter** (`Splitter.dfy`, `Validation.dfy`, `Routing.dfy`). `DefaultMessageSplitter` has its own limits, chunkers
and encoder, and feeds the same reassembler. What validation accepts never exceeds 42 parts.

**Over the wire** (`OverTheWire.dfy`, `PartHandling.dfy`). The parts of either splitter in `submit_sm` and `deliver_sm`
bodies: encoded, streamed, read back and reassembled in any order, with the exact conditions for both the stream and
the text. These bodies carry a part whole, as a caller would have to make them; what becomes of parts in the bodies
that the code's own builders make, and in the code's own handlers, is proved beside.

**Wire format** (`Fields.dfy`, `ShortMessages.dfy`, `Codec.dfy`, `SequenceNumbers.dfy`). Fixed-width NUL-padded fields, TLVs
(section 3.2.4 of SMPP v3.4), the bodies of all PDUs the decoder can make, the 16-octet header, and reading frames off
a byte stream. `submit_sm` and `deliver_sm` have the same field layout and the same code twice, so one model serves both
(`pkg/smpp/pdu.go:924-1075` and `pkg/smpp/pdu.go:1139-1290`).

**Limiters** (`SlidingWindows.dfy`, `TokenBuckets.dfy`). Each sliding window is compared with a limiter that never
forgets a grant; the token bucket, in exact arithmetic, grants exactly what its tokens and the time allow and is
bounded by a conservation law over runs.

**State machines** (`Sessions.dfy`, `Serving.dfy`, `CircuitBreakers.dfy`). The server's loop and handlers are compared with
a function of the PDU history that knows no session state, and run on the octets of a connection; the circuit breaker
with functions of the history of runs and of the calls, which fix the outcome of every call.

**Receipts and storage** (`StringSearch.dfy`, `Receipts.dfy`, `Paths.dfy`, `FileStore.dfy`, `StoreHistory.dfy`,
`MessageSearch.dfy`). A receipt printed by the server and parsed by the client's first-occurrence searches; messages in
memory and in one file each, with the path cleaning of `filepath.Join` and with refused and torn writes, compared with
a function of the operations alone for each ID and each file; filter, sort and paging.

Time and its parsing, the outcome of authentication, handler calls, sends, writes and removals, and serialisation are
parameters. A slice expression that would panic is the error `SliceOutOfRange`.

## Where the code falls short of its promises

Each of these is a theorem with the exact condition, and most are also shown at an input.

- GSM 7-bit contains U+001B (`pkg/encoding/text.go:23`), which the decoder takes for an escape. A text survives exactly
  when it stands nowhere but at part ends (`RoundTrip.LosslessExactly`, `RoundTrip.EscapesAreLost`).
- Cutting between runes re-reads the text, so pieces concatenate to it exactly if it is valid UTF-8
  (`TextEncoding.SplitTextExactly`, `Splitter.SplitTextsExactly`, `TextEncoding.InvalidTextIsChanged`).
- `1+udhLength` is 8-bit arithmetic (`pkg/smpp/message_handler.go:1297`). A first octet of 255 gets the ordinary length
  error up to 255 octets and panics above, provided the parts before it are consistent; no message read off a PDU is
  that long (`Reassembly.PanicsExactly`, `Reassembly.OverlongPanics`).
- Only the code's own header, 06 00 03 with a 2-octet reference, is taken; the element that 3GPP TS 23.040 has for such a
  reference, 06 08 04, is refused (`Reassembly.StandardSixteenBitIsRefused`, `Reassembly.StandardPartsAreRefused`).
- The second splitter sends raw UTF-8 in the default coding and only 16 bits per rune in UCS2. Any other data coding
  is split but never reassembled (`Splitter.SplitReassemble`, `Splitter.DefaultCodingIsLossy`,
  `Splitter.SupplementaryIsTruncated`).
- Segments of `ProcessLongSMS` can be too long for a PDU: exactly when a piece weighs more than 248 octets
  (`OverTheWire.SegmentsOverTheWire`, `OverTheWire.EncodedWeight`, `OverTheWire.ExtensionSegmentsDoNotFit`).
- The bodies that the code's own builders make have no UDHI flag, so nothing sent in them is ever reassembled
  (`OverTheWire.BuiltAreNeverReassembled`).
- The submit and deliver handlers decode a part's header together with its text (`pkg/smpp/message_handler.go:112`,
  `pkg/smpp/message_handler.go:830`). They get past that exactly in codings 0 and 4, so never in UCS2, and what they
  record is never the part's text (`PartHandling.SplitterPartDecodesExactly`, `PartHandling.SegmentDecodesExactly`,
  `PartHandling.SplitterTextIsSpoiled`, `PartHandling.SegmentTextIsSpoiled`).
- `Unmarshal` of `submit_sm` and `deliver_sm` demands 95 octets although the fixed part has 94, so a body with neither
  message nor TLV is refused after being written (`ShortMessages.BodyRoundTrip`, `ShortMessages.NothingIsRefused`).
- `Encode` takes the command ID from the body (`pkg/smpp/codec.go:28`), so every bind becomes a transceiver bind
  (`Codec.BindsBecomeTransceiver`, `Serving.EveryBindIsTransceiver`); a `generic_nack` can be written but not read
  (`Codec.WireRoundTrip`).
- `createPDUBody` makes no body for `query_sm`, `replace_sm`, `cancel_sm`, `submit_multi` and `data_sm`, so the server's
  handlers for them are never reached: such a PDU ends the connection unanswered (`Serving.OnlySubmitsAreHandled`,
  `Serving.UndecodableEndsConnection`).
- A negative token request overfills a bucket (`TokenBuckets.SoundExactly`, `TokenBuckets.NegativeRequestOverfills`).
- An ID containing a label or a space spoils the receipt's fields (`Receipts.ReceiptExactly`, `Receipts.PlantedStatus`,
  `Receipts.SpacedID`).
- A failed write or removal leaves memory and disk apart: a refused save unless it saved nothing new, a torn one unless
  what was left reads as the message, a failed removal always (`FileStore.RefusedExactly`, `FileStore.TornExactly`,
  `FileStore.TornUpdateLoses`, `FileStore.RemovedExactly`).
- An ID with a slash can lose its message or take another's file (`Paths.FileOfExactly`, `FileStore.SavedExactly`,
  `FileStore.SlashLosesMessage`, `FileStore.DetourTakesFile`).
- The map is walked in another order each time, so separate searches are sure to rank alike, and their pages to tile,
  exactly if no two matching messages have equal sort keys (`MessageSearch.OneRankingExactly`, `MessageSearch.SeparatePagesTile`,
  `MessageSearch.TiedPagesRepeat`).

A read that times out is meant to be tried again while the connection is active (`pkg/smpp/server.go:330`), but
`DecodeFromReader` has wrapped the error by then, so that branch is never taken and every failing read ends the loop.

Two comments in the code disagree with it, and the code is followed: the second splitter's 16-bit truncation is called
UCS2/UTF-16BE (`pkg/smpp/message_routing.go:277`), and the command IDs of the bind bodies are called defaults that should be
overridden (`pkg/smpp/pdu.go:863`), which `Encode` never does.

## Model

| member | source | states |
|---|---|---|
| GoStrings.RunesOfAppend | pkg/encoding/text.go:249-264 | decoding a string made of runes stops at every rune boundary: `[]rune(string(rs) + t)` is rs followed by `[]rune(t)` |
| GoStrings.RunesOfStringOf | pkg/encoding/text.go:249-264 | a string made of runes is valid UTF-8 and reads back as exactly those runes, so cutting between runes loses nothing |
| GoStrings.StringOfRunesOf | pkg/encoding/text.go:118-121 | `string([]rune(s)) == s` exactly for the strings `utf8.ValidString` accepts |
| GoStrings.Utf8Octets | pkg/encoding/text.go:118-121 | the octets of every rune, by section 3 of RFC 3629 |
| GoStrings.DecimalReadsBack | pkg/smpp/message_handler.go:1209-1209 | the digits of a number read back as it, without leading zeros |
| GoStrings.NumberedApart | pkg/smpp/message_handler.go:1209-1209 | different part numbers behind one prefix give different IDs |
| Gsm7.ReverseTable | pkg/encoding/text.go:56-67 | the reverse of an injective table is its two-sided inverse, whatever order the map is walked in |
| Gsm7.AlphabetMatchesOracle | pkg/encoding/text.go:19-36 | the table gives every septet code exactly one rune, checked against an independent code-to-rune function |
| Gsm7.ExtendedIsExtension | pkg/encoding/text.go:39-50 | the extension table is injective, all septets, and shares no rune with the alphabet |
| Gsm7.ExtensionMatchesOracle | pkg/encoding/text.go:39-50 | the extension table holds exactly the pairs of an independent code-to-rune function |
| Gsm7.DecodeOctets | pkg/encoding/text.go:88-114 | one octet, alone or behind the escape, decodes to the rune whose code it is, and an unassigned one to a space |
| Gsm7.EncodeOneRune | pkg/encoding/text.go:70-85 | one rune encodes to its code, to the escape and its extension code, or to the code of `?` |
| Gsm7.NewAlphabet | pkg/encoding/text.go:56-67 | the initialised tables are pairwise inverse with disjoint domains, and every code below 0x80 is assigned |
| Gsm7.Encode7Concat | pkg/encoding/text.go:70-85 | encoding distributes over concatenation |
| Gsm7.Decode7Encode7 | pkg/encoding/text.go:70-114 | decoding undoes encoding exactly on texts of supported runes with U+001B nowhere but at the very end |
| Gsm7.Encode7Decode7 | pkg/encoding/text.go:70-114 | encoding undoes decoding exactly on assigned septets in which every escape that is not last precedes an extension code |
| Gsm7.DecodedLength | pkg/encoding/text.go:70-114 | substitution and swallowed escapes never lengthen a text |
| Ucs2.Utf16RoundTrip | pkg/encoding/text.go:117-151 | UTF-16 decoding undoes encoding for every sequence of scalar values, surrogate pairs included (sections 2.1 and 2.2 of RFC 2781) |
| Ucs2.DecodedWithoutPairs | pkg/encoding/text.go:136-151 | decoding keeps the number of code units only where it joined no pair |
| Ucs2.Ucs2RoundTrip | pkg/encoding/text.go:117-151 | the octets decode to the text, and encoding distributes over concatenation, so cutting between runes never breaks a pair |
| Ucs2.Utf16Octets | pkg/encoding/text.go:117-133 | the octets of every rune, by section 2.1 of RFC 2781 |
| TextEncoding.EncodeGSM7Bit | pkg/encoding/text.go:70-85 | the loop computes the concatenated codes of the runes: escape pairs for extension runes, the code of `?` for unsupported ones |
| TextEncoding.DecodeGSM7Bit | pkg/encoding/text.go:88-114 | the index loop computes the recursive decoder that the round trips are about |
| TextEncoding.EncodeUCS2 | pkg/encoding/text.go:117-133 | refuses exactly invalid UTF-8, and otherwise yields the big-endian UTF-16 octets |
| TextEncoding.DecodeUCS2 | pkg/encoding/text.go:136-151 | refuses exactly odd lengths, and otherwise yields the text of the code units |
| TextEncoding.Encode | pkg/encoding/text.go:154-165 | dispatch on the coding, the error for unknown codings included |
| TextEncoding.Decode | pkg/encoding/text.go:168-179 | dispatch on the coding, the error for unknown codings included |
| TextEncoding.SplitMessage | pkg/encoding/text.go:244-267 | the shrinking loop yields the rune pieces as strings; one piece when the byte length is within the limit |
| TextEncoding.SplitTextExactly | pkg/encoding/text.go:244-267 | the pieces concatenate to the text if and only if it was not cut or is valid UTF-8 |
| TextEncoding.InvalidTextIsChanged | pkg/encoding/text.go:244-267 | a long text whose first octet is 0xFF comes out changed |
| TextEncoding.CheckText | pkg/encoding/text.go:270-287 | the loop accepts exactly texts of supported runes in GSM 7-bit and valid UTF-8 in UCS2 |
| TextEncoding.EncodeRunesConcat | pkg/encoding/text.go:154-165 | in every coding, encoding distributes over cuts between runes |
| TextEncoding.DecodeEncodedRunes | pkg/encoding/text.go:154-179 | what decoding an encoded piece gives, per coding; it never fails |
| TextEncoding.ReadBackExactly | pkg/encoding/text.go:154-179 | decode after encode is the identity exactly on what the coding carries, and never longer than the text |
| TextEncoding.MaxLengthExactly | pkg/encoding/text.go:216-241 | the limits are as many characters as 140 octets hold, or 134 with a header; other codings have 160 either way |
| TextEncoding.CodingErrorsExactly | pkg/encoding/text.go:154-179 | exactly when encoding and decoding fail, and with which error |
| Chunking.ChunksCover | pkg/encoding/text.go:244-267 | pieces concatenate to the input, all but the last have exactly the limit, the last is within it, and their number is the rounded-up quotient |
| Chunking.SamePieces | pkg/encoding/text.go:244-267 | two lists of pieces, none longer than its counterpart, concatenate to the same text only if they are the same list |
| Messages.GenerateReferenceNumber | pkg/smpp/message_handler.go:1233-1240 | the hash, which wraps around at 32 bits, has the low 16 bits of the unbounded base-31 polynomial |
| Messages.CreateMultipartUDH | pkg/smpp/message_handler.go:1243-1259 | the 6-octet header with the 2-octet reference, most significant octet first |
| Messages.ClearUdhi | pkg/smpp/message_handler.go:1365-1366 | clears the flag and changes no other bit |
| Messages.UdhiBit | pkg/smpp/message_handler.go:1224-1224 | the flag is the bit worth 64: what reading, setting and clearing it do to the number |
| Messages.ReferenceStep | pkg/smpp/message_handler.go:1233-1240 | the reference number of an ID one octet longer is 31 times the reference plus the octet, modulo 65536 |
| Messages.UdhOctets | pkg/smpp/message_handler.go:1243-1259 | the header in numbers |
| Messages.WholeExactly | pkg/smpp/message_handler.go:1363-1374 | a reassembled message has the new ID, text, payload and a cleared flag; put back, they give the message again |
| Segmentation.ProcessLongSMS | pkg/smpp/message_handler.go:1182-1230 | the loop over parts returns the message itself, an error, or part i with its ID, text, header-prefixed payload and flag, everything else as in the message |
| Segmentation.LongIsSplit | pkg/smpp/message_handler.go:1182-1199 | a text above the single limit is cut into two or more pieces, as many as the rounded-up quotient |
| Segmentation.SegmentedCount | pkg/smpp/message_handler.go:1182-1230 | every success returns exactly EstimatePartCount messages, 2 to 255 when the text is long |
| Segmentation.SegmentTextsExactly | pkg/smpp/message_handler.go:1182-1230 | the texts of the messages concatenate to the text if and only if it was not split or is valid UTF-8 |
| Segmentation.SegmentedExactly | pkg/smpp/message_handler.go:1182-1230 | when the message is returned as it is, when it is refused and why, and how many parts there are otherwise |
| Segmentation.SegmentsExactly | pkg/smpp/message_handler.go:1207-1227 | every part is the message with its own ID, text, payload and the flag set, all else kept; its payload is the seven header octets and its text encoded; no two parts have one ID |
| Segmentation.SegmentsAreFull | pkg/smpp/message_handler.go:1190-1207 | every part but the last has exactly as many runes as fit |
| Sorting.ExchangeSort | pkg/smpp/message_handler.go:1327-1334 | the in-place exchange sort yields a permutation in ascending key order |
| Reassembly.ParseHeader | pkg/smpp/message_handler.go:1284-1304 | the header checks in order, with the 8-bit sum that makes a first octet of 255 panic |
| Reassembly.ScanIsParse | pkg/smpp/message_handler.go:1283-1325 | the scan accepts exactly the part lists whose headers all parse and share one reference and total, and reads each part on its own |
| Reassembly.ScanHeaders | pkg/smpp/message_handler.go:1279-1325 | the loop computes that scan and stops at the first error |
| Reassembly.CoverIsBijection | pkg/smpp/message_handler.go:1336-1345 | n numbers that cover 1..n are a permutation of 1..n |
| Reassembly.HeadingIsParsed | pkg/smpp/message_handler.go:1284-1304 | a flagged part whose octets are the header's length, 0x00, 0x03, reference, total, number, anything further the header has, and a payload, is parsed as what they say |
| Reassembly.ParsedIsHeading | pkg/smpp/message_handler.go:1284-1304 | and every part that is parsed has such octets |
| Reassembly.HeaderErrors | pkg/smpp/message_handler.go:1284-1304 | which error every other part gets |
| Reassembly.StandardSixteenBitIsRefused | pkg/smpp/message_handler.go:1298-1300 | the standard element with a 16-bit reference, 06 08 04, is refused |
| Reassembly.StandardPartsAreRefused | pkg/smpp/message_handler.go:1279-1300 | so no message that arrives in such parts is reassembled |
| Reassembly.OctetsAreComplete | pkg/smpp/message_handler.go:1279-1345 | parts whose octets bear one reference, their number as total and the numbers 1, 2, 3 and so on are a complete set in that order |
| Reassembly.CompleteSetInOctets | pkg/smpp/message_handler.go:1279-1345 | and every complete set has such octets |
| Reassembly.FirstBadPart | pkg/smpp/message_handler.go:1283-1325 | the first part that is malformed or does not go with the first decides the error |
| Reassembly.SetErrors | pkg/smpp/message_handler.go:1336-1345 | parts that go together are refused when the total is not their number, and then when a number is missing |
| Reassembly.SortedComplete | pkg/smpp/message_handler.go:1327-1345 | complete parts in ascending order are numbered 1, 2, 3 and so on |
| Reassembly.SortParts | pkg/smpp/message_handler.go:1327-1345 | sorting and then checking the numbers succeeds exactly when every number from 1 to the count is there, and yields the parts in that order |
| Reassembly.JoinParts | pkg/smpp/message_handler.go:1347-1361 | the builder loop appends the decoded payloads in order and stops at the first error |
| Reassembly.ConcatenateSMSParts | pkg/smpp/message_handler.go:1262-1377 | the whole method computes the specification the theorems below are about, every error included |
| Reassembly.ReassembledExactly | pkg/smpp/message_handler.go:1279-1374 | two or more parts are reassembled if and only if all headers parse, reference and total agree, the total is the number of parts, each number from 1 to it occurs exactly once, all payloads decode and the joined text re-encodes |
| Reassembly.PanicsExactly | pkg/smpp/message_handler.go:1283-1304 | the slice expression panics if and only if two or more parts were given and a part of more than 255 octets, the first of them 255, is reached behind consistent parts |
| Reassembly.OverlongPanics | pkg/smpp/message_handler.go:1291-1297 | 256 octets of 255 panic |
| Reassembly.OrderIndependent | pkg/smpp/message_handler.go:1279-1377 | success and the result are the same for every order of arrival |
| RoundTrip.PartParses | pkg/smpp/message_handler.go:1207-1225 | a built part parses back to its own number, total, reference and payload |
| RoundTrip.PartsReassemble | pkg/smpp/message_handler.go:1182-1377 | parts of one message, in any order, reassemble to that message with the text their payloads decode to |
| RoundTrip.OctetsReassemble | pkg/smpp/message_handler.go:1262-1377 | any parts whose octets make a complete set and whose payloads decode give part 1 with the joined texts, re-encoded, 64 taken off its esm_class, all else kept |
| RoundTrip.ReassembledHasOctets | pkg/smpp/message_handler.go:1262-1377 | and nothing else is reassembled |
| RoundTrip.LosslessExactly | pkg/smpp/message_handler.go:1182-1377 | what a caller can check: the texts carried are the valid UTF-8 ones, in GSM 7-bit of supported runes with U+001B only at part ends |
| RoundTrip.SegmentReassemble | pkg/smpp/message_handler.go:1182-1377 | segments in any order reassemble; the text is the original if and only if it is lossless, and then the payload is the in-order concatenation of the part payloads |
| RoundTrip.EscapesAreLost | pkg/smpp/message_handler.go:1182-1377 | a validated text of 161 times U+001B comes back changed |
| Splitter.SplitTextByBytes | pkg/smpp/message_routing.go:232-247 | the shrinking loop yields the byte pieces |
| Splitter.SplitTextByRunes | pkg/smpp/message_routing.go:250-266 | the shrinking loop yields the rune pieces as strings |
| Splitter.EncodeWithUDH | pkg/smpp/message_routing.go:269-299 | length octet, header, and the text's bytes, or for UCS2 the low 16 bits of each rune |
| Splitter.SplitMessage | pkg/smpp/message_routing.go:152-219 | the method returns the message itself, an error above 255 parts, or exactly the numbered parts |
| Splitter.SplitTextsCover | pkg/smpp/message_routing.go:152-187 | a message above the single limit is cut into at least two pieces, as many as the rounded-up quotient |
| Splitter.SplitTextsExactly | pkg/smpp/message_routing.go:232-266 | the pieces concatenate to the text: always between bytes, and between runes if and only if the text is valid UTF-8 |
| Splitter.SplitterLimits | pkg/smpp/message_routing.go:134-171 | limits and lengths in numbers |
| Splitter.SplitExactly | pkg/smpp/message_routing.go:152-190 | when the message is returned as it is, when it is refused, and how many parts there are otherwise |
| Splitter.SplitPartsExactly | pkg/smpp/message_routing.go:192-299 | every part is the message with its own ID, text, payload and the flag set, all else kept; its payload is the seven header octets and the text's bytes, or two octets of each rune in UCS2; no two parts have one ID |
| Splitter.SplitPartTexts | pkg/smpp/message_routing.go:179-197 | the texts of the parts spell the text exactly if it is cut between bytes or valid UTF-8, and all but the last are full |
| Splitter.TruncatedExactly | pkg/smpp/message_routing.go:276-286 | UTF-16 decoding undoes the 16-bit truncation exactly on BMP text |
| Splitter.PlainExactly | pkg/smpp/message_routing.go:269-299 | raw bytes read as GSM 7-bit spell themselves exactly when they are plain, and otherwise differ before either text ends |
| Splitter.SplitReassemble | pkg/smpp/message_routing.go:152-299 | its parts, in any order, are reassembled exactly for codings 0, 4 and 8; the text is the original exactly for any bytes (4), valid BMP text (8), plain bytes (0) |
| Splitter.DefaultCodingIsLossy | pkg/smpp/message_routing.go:269-299 | a validated text of 81 times U+00E9 in the default coding comes back changed |
| Splitter.SupplementaryIsTruncated | pkg/smpp/message_routing.go:276-284 | a validated text of 71 times U+1F600 in UCS2 comes back changed |
| OverTheWire.BodyFitsExactly | pkg/smpp/pdu.go:924-1075 | a body that carries a message whole survives the wire if and only if the strings fit and there are 1 to 255 octets |
| OverTheWire.BuiltAreNeverReassembled | pkg/smpp/codec.go:237-280 | two or more messages received in bodies that the code's own builders make are never reassembled: the UDHI flag is missing |
| OverTheWire.EncodedWeight | pkg/encoding/text.go:154-165 | encoding takes as many octets as the characters weigh: 1 or 2 in GSM 7-bit, 2 or 4 in UCS2, 1 to 4 in binary |
| OverTheWire.StreamExactly | pkg/smpp/codec.go:19-184 | a stream of messages reads back if and only if each of them fits |
| OverTheWire.SplitPartFits | pkg/smpp/message_routing.go:152-219 | a part of the second splitter has at most 160 octets |
| OverTheWire.SplitterOverTheWire | pkg/smpp/message_routing.go:152-299 | its parts, carried whole in submit_sm or deliver_sm bodies, encoded and streamed, read back if and only if the message's strings fit; received in any order they are reassembled exactly for codings 0, 4 and 8, to the original text exactly when lossless |
| OverTheWire.SegmentsOverTheWire | pkg/smpp/message_handler.go:1182-1377 | the same for the segments of ProcessLongSMS, which read back if and only if besides no piece weighs more than 248 octets |
| OverTheWire.ExtensionSegmentsDoNotFit | pkg/smpp/message_handler.go:1207-1225 | over 160 extension characters make segments that no PDU can carry |
| PartHandling.PartDecodesExactly | pkg/smpp/message_handler.go:111-121 | header and text of a part decode together if and only if the coding is 0 or 4; in UCS2 they are an odd number of octets |
| PartHandling.SplitterPartDecodesExactly | pkg/smpp/message_handler.go:111-121 | the handlers get past decoding a part of the second splitter if and only if its coding is 0 or 4 |
| PartHandling.SegmentDecodesExactly | pkg/smpp/message_handler.go:111-121 | and a segment of ProcessLongSMS |
| PartHandling.SplitterTextIsSpoiled | pkg/smpp/message_handler.go:111-149 | what they record is never the part's text |
| PartHandling.SegmentTextIsSpoiled | pkg/smpp/message_handler.go:111-149 | nor the segment's |
| Gsm7.DecodedIsRepresentable | pkg/encoding/text.go:88-114 | decoding yields only texts that the codec carries |
| Gsm7.PrefixLength | pkg/encoding/text.go:88-114 | octets in front of others never shorten what those decode to, stray escapes included |
| Validation.AcceptedIsSplit | pkg/smpp/message_handler.go:1021-1073 | every message that validation accepts, in any coding, is split without error into at most 42 parts |
| Validation.AcceptedExactly | pkg/smpp/message_handler.go:1021-1166 | what validation accepts: addresses, characters, length in numbers, and TON and NPI of both addresses |
| Validation.FortyTwoPartsAreReached | pkg/smpp/message_handler.go:1037-1061 | 42 parts are reached |
| Validation.BytesPerRune | pkg/smpp/message_handler.go:1044-1045 | a text has at most four bytes per rune |
| Routing.DefaultMessageRouter.RouteMessage | pkg/smpp/message_routing.go:32-61 | gateway and route of the longest prefix of the destination, or the default; priority, retry count and destination |
| Routing.BestRouteIsUnique | pkg/smpp/message_routing.go:39-46 | the order in which the map is walked does not matter |
| Fields.TrimPad | pkg/smpp/pdu.go:928-933 | a fixed-width field reads back as written exactly when the string is within the width and ends in no NUL |
| Fields.FieldOctets | pkg/smpp/pdu.go:928-933 | every octet of a fixed-width field |
| Fields.ParamOctets | pkg/smpp/pdu.go:970-975 | tag and length in two octets each, most significant first, and the value |
| Fields.UntilNulExactly | pkg/smpp/pdu.go:1092-1110 | the longest prefix without a NUL |
| Fields.UntilNulTerminated | pkg/smpp/pdu.go:1086-1110 | a NUL-terminated string reads back exactly when it contains no NUL |
| Fields.ParseMarshalledParams | pkg/smpp/pdu.go:1042-1072 | written TLVs are read back in front of whatever follows |
| Fields.ParamsAndTail | pkg/smpp/pdu.go:1042-1072 | the input is the TLVs found and a tail that starts no complete TLV |
| Fields.LongestParams | pkg/smpp/pdu.go:1042-1072 | every TLV list the input starts with is a prefix of the TLVs found |
| ShortMessages.BodyRoundTrip | pkg/smpp/pdu.go:924-1075 | a body reads back as written if and only if its strings and lengths fit and it has a message or a TLV |
| ShortMessages.BodyOctets | pkg/smpp/pdu.go:924-978 | the place of every field in the octets of a body |
| ShortMessages.NothingIsRefused | pkg/smpp/pdu.go:980-984 | a body of defaults fits, is written, and is refused when read |
| ShortMessages.Normalises | pkg/smpp/pdu.go:980-1075 | re-encoding a decoded body gives the input back up to an incomplete TLV at its end; decoding again gives the same body, or is refused exactly when it has neither message nor TLV |
| ShortMessages.ShortMessagePdu.Marshal | pkg/smpp/pdu.go:924-978 | the buffer writes yield the wire form of the fields |
| ShortMessages.ShortMessagePdu.Unmarshal | pkg/smpp/pdu.go:980-1075 | the offset-driven reads assign all fields of the decoded body, or fail on short input |
| ShortMessages.ParseLoop | pkg/smpp/pdu.go:1042-1072 | the TLV loop ends and returns all complete TLVs at the front |
| Codec.BindRoundTrip | pkg/smpp/pdu.go:786-860 | bind fields read back as written if and only if each string fits its field |
| Codec.WireRoundTrip | pkg/smpp/codec.go:19-184 | for every kind of body: it reads back under the command ID it is emitted with if and only if it fits |
| Codec.NumberOfOctets | pkg/smpp/codec.go:30-45 | big-endian octets of a number read back as the number, at any width that holds it |
| Codec.HeaderRoundTrip | pkg/smpp/codec.go:30-85 | the 16 header octets read back as the header |
| Codec.HeaderOctets | pkg/smpp/codec.go:30-45 | the 16 header octets in numbers |
| Codec.BindOctets | pkg/smpp/pdu.go:786-822 | the place of every field in the octets of a bind request |
| Codec.CommandNumbers | pkg/smpp/codec.go:151-184 | what is decoded under a command ID is of the kind it stands for, exactly fourteen IDs are decoded, and a body is emitted under an ID of its kind, but a generic_nack under one that is not decoded |
| Codec.EmptyBodies | pkg/smpp/codec.go:103-115 | a header alone gives the empty body of its kind |
| Codec.FrameErrors | pkg/smpp/codec.go:123-148 | why a read fails and where it leaves the stream: used up when octets are missing, behind the header when the length is below 16, behind the frame otherwise |
| Codec.Encode | pkg/smpp/codec.go:19-53 | overwrites length and command ID of the given PDU and returns header and body octets |
| Codec.Decode | pkg/smpp/codec.go:64-120 | the length checks, then the body of the command ID |
| Codec.Reader.ReadFull | pkg/smpp/codec.go:123-148 | takes exactly n octets off the stream, or fails and empties it |
| Codec.DecodeFromReader | pkg/smpp/codec.go:123-148 | reads one frame and leaves the stream right behind it |
| Codec.FrameOfEncoded | pkg/smpp/codec.go:19-148 | in front of any tail, an encoded PDU is read off exactly and reads back normalised if and only if its body fits |
| Codec.StreamRoundTrip | pkg/smpp/codec.go:19-184 | a stream of encoded PDUs is read back as exactly those PDUs, headers normalised, every octet used, if and only if all bodies fit |
| Codec.DecodeAll | pkg/smpp/codec.go:123-148 | calling it until the stream is used up computes the stream reader of the theorem |
| Codec.BindsBecomeTransceiver | pkg/smpp/pdu.go:862-864 | whatever its header says, a bind request is emitted and read back as bind_transceiver |
| SequenceNumbers.PDUBuilder.GetNextSequence | pkg/smpp/codec.go:521-528 | returns the current number and moves to its successor, which is never 0 |
| SequenceNumbers.PDUBuilder.SetSequenceNum | pkg/smpp/codec.go:531-536 | 0 is replaced by 1 |
| SequenceNumbers.NthClosedForm | pkg/smpp/codec.go:521-528 | the k-th number from a non-zero start has the closed form 1 + (start - 1 + k) mod (2^32 - 1) |
| SequenceNumbers.RepeatsExactly | pkg/smpp/codec.go:521-528 | two calls return the same number exactly when they are a multiple of 2^32 - 1 apart |
| SlidingWindows.Prune | internal/ratelimit/tokenbucket.go:192-197 | the filtering loop keeps exactly the times after the window start, in order |
| SlidingWindows.CountIsCardinality | internal/ratelimit/tokenbucket.go:211-232 | the count is the size of the set of places whose times lie in the window |
| SlidingWindows.PrunedTwice | internal/ratelimit/tokenbucket.go:192-197 | pruning early and pruning late is pruning late |
| SlidingWindows.GrantKeepsLimit | internal/ratelimit/tokenbucket.go:199-204 | a grant made with fewer than limit past grants in the window leaves every window within the limit |
| SlidingWindows.KeptDecides | internal/ratelimit/tokenbucket.go:182-204 | the pruned list counts exactly the past grants of the window, and keeps doing so |
| SlidingWindows.RunsAgree | internal/ratelimit/tokenbucket.go:178-208 | over every run with a non-decreasing clock the pruned list decides exactly as the whole history, and no window ever holds more than limit grants |
| SlidingWindows.SlidingWindowLimiter.Allow | internal/ratelimit/tokenbucket.go:178-208 | grants exactly when fewer than limit past grants of the key lie in the window; the limit holds of every window of every key |
| SlidingWindows.SlidingWindowLimiter.GetRemainingRequests | internal/ratelimit/tokenbucket.go:211-232 | limit minus the past grants in the window |
| SlidingWindows.FlowWindow.TryAcquire | internal/flowcontrol/window.go:63-87 | the same law with MaxOutstanding, and outstanding is grants minus releases |
| SlidingWindows.FlowWindow.Release | internal/flowcontrol/window.go:90-92 | lowers outstanding and leaves the window, and so the decisions, alone |
| TokenBuckets.TokenBucket.AllowN | internal/ratelimit/tokenbucket.go:43-55 | refill, then grant all n or nothing |
| TokenBuckets.TokenBucket.Allow | internal/ratelimit/tokenbucket.go:28-40 | the request for one token |
| TokenBuckets.TokenBucket.Refill | internal/ratelimit/tokenbucket.go:58-72 | adds the whole tokens earned, capped, and moves the clock only then |
| TokenBuckets.TokenBucket.Tokens | internal/ratelimit/tokenbucket.go:75-81 | refills first, so reading the count changes the bucket |
| TokenBuckets.RefillBound | internal/ratelimit/tokenbucket.go:58-72 | a refill adds no more than the time has earned, and leaves less than one token of time unspent |
| TokenBuckets.GrantedExactly | internal/ratelimit/tokenbucket.go:28-72 | for every bucket, time and request: it is granted if and only if what was left and the whole tokens earned, up to the capacity, are enough; what is left then, and when the bucket's clock moves |
| TokenBuckets.EmptyGrantsAgain | internal/ratelimit/tokenbucket.go:28-72 | an emptied bucket grants a token if and only if one has been earned since the last refill |
| TokenBuckets.SoundExactly | internal/ratelimit/tokenbucket.go:43-72 | tokens stay between 0 and capacity exactly for requests not below the negated missing tokens, so for every n >= 0 |
| TokenBuckets.NegativeRequestOverfills | internal/ratelimit/tokenbucket.go:43-55 | a request for -1 on a full bucket is granted and overfills it |
| TokenBuckets.NegativeCapacityGrantsNothing | internal/ratelimit/tokenbucket.go:18-55 | over every run of requests for n >= 0 a bucket of negative capacity grants nothing |
| TokenBuckets.LedgerBound | internal/ratelimit/tokenbucket.go:28-72 | over every run, tokens granted plus tokens left never exceed tokens at the start plus tokens earned |
| TokenBuckets.GrantedSinceCreation | internal/ratelimit/tokenbucket.go:18-72 | from creation to t at most capacity + rate * (t - t0) is granted |
| TokenBuckets.GrantedInInterval | internal/ratelimit/tokenbucket.go:28-72 | over any later interval of a run less than capacity + 1 + rate * (t - s) is granted |
| CircuitBreakers.CircuitBreaker.Call | internal/errorrecovery/retry.go:188-247 | one call: whether the function runs, and the new state and counters |
| CircuitBreakers.BreakerFollowsHistory | internal/errorrecovery/retry.go:188-247 | after every sequence of calls the state is the one the history of runs calls for, failures is the trailing run of failures and below the threshold while closed, and nothing ran while open within the reset timeout |
| CircuitBreakers.OutcomeExactly | internal/errorrecovery/retry.go:188-247 | after every sequence of calls the next is rejected if and only if the history says open and the last failure is less than the reset timeout ago; otherwise it reports what its function did |
| CircuitBreakers.RunsExactly | internal/errorrecovery/retry.go:188-247 | the functions run are exactly those a function of the calls alone says |
| CircuitBreakers.OpensAtThreshold | internal/errorrecovery/retry.go:192-247 | from new, as many failures as the threshold open it and no fewer; the first call after the reset timeout is run |
| CircuitBreakers.ClosingTakesSuccesses | internal/errorrecovery/retry.go:210-227 | a breaker closed by a trial has just seen SuccessThreshold successful trials in a row |
| Sessions.Session.HandleBind | pkg/smpp/server.go:462-556 | authenticates first; only success changes the session; the response bears the system ID or none |
| Sessions.Session.HandleGuarded | pkg/smpp/server.go:559-772 | calls the message handler only in a permitted state, and answers in every case |
| Sessions.Session.Handle | pkg/smpp/server.go:404-459 | dispatch on the command ID |
| Sessions.Serve | pkg/smpp/server.go:348-396 | one PDU in the loop: what is done and sent, and whether the loop returns |
| Sessions.DoneStays | pkg/smpp/server.go:312-399 | a loop that has returned stays as it is, whatever else would have come in |
| Serving.ConnectionLifecycle | pkg/smpp/server.go:275-399 | from the octets on, the loop computes the run the theorems are about over the PDUs read before the first failing read, up to a cancellation, its early returns included |
| Serving.FramesAreDecodable | pkg/smpp/codec.go:151-184 | every PDU that is read has a command ID the decoder makes a body for |
| Serving.OnlySubmitsAreHandled | pkg/smpp/server.go:404-459 | whatever the octets, only submit_sm ever gets to the message handler |
| Serving.UndecodableEndsConnection | pkg/smpp/server.go:325-345 | a frame whose command the decoder refuses ends the connection unanswered |
| Serving.EncodedAreServed | pkg/smpp/server.go:275-399 | PDUs that fit, encoded one behind the other, are served as exactly those PDUs, headers normalised |
| Serving.EveryBindIsTransceiver | pkg/smpp/server.go:404-556 | an encoded bind request, whatever its header asks for, binds an authenticated session as transceiver |
| Serving.HeadersAreAnswered | pkg/smpp/server.go:312-399 | the PDUs a client encodes are answered once each, in order, under the sequence numbers of their own headers |
| Sessions.TakesUntilStop | pkg/smpp/server.go:312-399 | the loop takes PDUs up to the first unbind or unsendable response, and none after |
| Sessions.ResponseInNumbers | pkg/smpp/server.go:404-816 | command ID, status and content of every response, and the calls before it, in numbers of the protocol |
| Sessions.ServerFollowsHistory | pkg/smpp/server.go:312-816 | over every PDU sequence from OPEN the calls and responses are exactly those a function of the PDU history alone calls for; the session holds exactly the last authenticated bind |
| Sessions.BoundImpliesAuthenticated | pkg/smpp/server.go:462-556 | a bound state implies a logged successful authentication with the session's own credentials, by a bind of the session's own type |
| Sessions.AnsweredOnceEach | pkg/smpp/server.go:312-399 | while sends succeed, every PDU but deliver_sm_resp is answered once, in order, under its own sequence number |
| StringSearch.IndexIsFirst | pkg/smpp/client.go:683-700 | the search finds an occurrence, and none earlier |
| StringSearch.FollowingWord | pkg/smpp/client.go:683-715 | what a search in a word and the text behind it finds is what a search in the word finds, and otherwise what a search behind it finds |
| StringSearch.WordExactly | pkg/smpp/client.go:684-690 | a word is cut out again exactly when it is not empty and has no space |
| Receipts.ParseDeliveryReceipt | pkg/smpp/client.go:674-738 | the step-by-step searches compute the specification, times that do not parse and the TLV and source-address fallbacks included |
| Receipts.ReceiptExactly | pkg/smpp/client.go:674-738 | of a printed receipt the ID is read back if and only if it is a non-empty word; status and times if and only if the ID plants no other value before theirs |
| Receipts.PlainIDReadBack | pkg/smpp/message_handler.go:989-1018 | for every message text and every non-empty ID without space or colon: ID, status word and both times are read back |
| Receipts.PlantedStatus | pkg/smpp/client.go:692-699 | the ID `stat:X` spoils the status |
| Receipts.SpacedID | pkg/smpp/client.go:683-690 | the ID `a b` is cut |
| Receipts.StatusWord | pkg/smpp/message_handler.go:1129-1146 | every status word is seven octets without space or colon |
| Receipts.StatusWords | pkg/smpp/message_handler.go:1130-1146 | the word of every status |
| Receipts.StatusRoundTrip | pkg/smpp/message_handler.go:1106-1146 | reading a status word back gives the status, except for the three statuses that have none and come back as unknown |
| Receipts.ReceiptSpelled | pkg/smpp/message_handler.go:989-1018 | the printed text label by label, and the message text cut to 17 bytes and three dots above 20 |
| Receipts.IDFromElsewhere | pkg/smpp/client.go:720-735 | without an ID in the text it is that of the first TLV 0x001E, and the source address when there is none or it is empty |
| FileStore.LoadedIsMemory | internal/storage/file.go:302-338 | loading rebuilds exactly the messages in memory, whatever order the directory is read in |
| FileStore.SavedExactly | internal/storage/file.go:355-380 | after a completed save, loading gives what is in memory if and only if the message survives serialisation and its file is no other message's |
| FileStore.PlainOwns | internal/storage/file.go:377-380 | IDs without a slash never share a file |
| FileStore.WrittenExactly | internal/storage/file.go:355-375 | whatever a write leaves in the file, loading gives what is in memory if and only if that reads as the message and the file is no other message's |
| FileStore.TornExactly | internal/storage/file.go:370-372 | after a write that failed halfway, loading gives what is in memory if and only if what was left happens to read as the message and the file is its own |
| FileStore.TornUpdateLoses | internal/storage/file.go:98-126 | saving an unchanged message again and failing halfway loses it |
| FileStore.RefusedExactly | internal/storage/file.go:356-372 | after a save that never reached the file, loading gives what is in memory if and only if nothing new was saved |
| FileStore.RemovedExactly | internal/storage/file.go:260-267 | after a delete, loading gives what is in memory if and only if the file was removed |
| FileStore.SlashLosesMessage | internal/storage/file.go:377-380 | a message whose ID names a subdirectory is saved without error and not loaded again |
| FileStore.DetourTakesFile | internal/storage/file.go:377-380 | a message whose ID goes down and up again takes the file of another message |
| Paths.CleanKeepsPlace | internal/storage/file.go:377-380 | cleaning a path does not change the place it leads to |
| Paths.FileOfExactly | internal/storage/file.go:377-380 | an ID's file is in the messages directory if and only if the part before its last slash leads back there; its name is the part behind |
| Paths.PlainFile | internal/storage/file.go:377-380 | an ID without a slash names its file |
| Paths.SubdirectoryIsLost | internal/storage/file.go:377-380 | the file of an ID of two names is not in the directory that is loaded |
| Paths.DetourIsShared | internal/storage/file.go:377-380 | the file of `x/../b` is that of `b` |
| FileStore.NewFileSMSStorage | internal/storage/file.go:24-42 | opening fails exactly when the directories cannot be made or listed, and otherwise loads the files |
| FileStore.StepKeepsCoherence | internal/storage/file.go:45-274 | every operation that does what it was asked, or is refused before changing anything, keeps memory and disk in agreement |
| FileStore.RunReloads | internal/storage/file.go:45-380 | after every run of such operations, loading rebuilds exactly what is in memory |
| FileStore.FileSMSStorage.constructor | internal/storage/file.go:303-338 | loads the readable files in order, a later one winning over an earlier one with its ID |
| FileStore.FileSMSStorage.Store | internal/storage/file.go:45-76 | memory first, then the file; the submit time is replaced; a failed write leaves memory changed |
| FileStore.FileSMSStorage.Update | internal/storage/file.go:98-126 | only an existing message is replaced |
| FileStore.FileSMSStorage.UpdateStatus | internal/storage/file.go:129-165 | the status, and for final ones the done time and date |
| FileStore.FileSMSStorage.Delete | internal/storage/file.go:248-274 | removes from memory and then the file |
| FileStore.FileSMSStorage.Get | internal/storage/file.go:79-95 | the stored message or the error |
| StoreHistory.RunHolds | internal/storage/file.go:45-274 | after every run of operations each ID has exactly the message that a function of the operations alone says, or none |
| StoreHistory.RunFiles | internal/storage/file.go:45-380 | and each file the data that the operations say, or is not there |
| StoreHistory.RunAnswers | internal/storage/file.go:45-274 | the answer to every operation after every run |
| StoreHistory.DeletedIsGone | internal/storage/file.go:248-274 | after a delete the ID has no message, its file is gone if it was removed, and everything else is as it was |
| StoreHistory.StoredIsHeld | internal/storage/file.go:45-76 | after a store the ID has the message with the new submit time, and its file the message's data if it was written |
| StoreHistory.StatusIsHeld | internal/storage/file.go:129-165 | after a change of status the ID has the old message with the new status and, for the five final ones only, done time and date |
| StoreHistory.RefusedIsNothing | internal/storage/file.go:45-274 | an operation on an empty ID, or that needs a message where there is none, changes nothing |
| MessageSearch.Filter | internal/storage/file.go:176-183 | exactly the matching messages, each once, in whatever order the map is walked |
| MessageSearch.SearchSMS | internal/storage/file.go:168-243 | the results are the offset/limit page of a sorted permutation of precisely the matching messages |
| MessageSearch.LeftOutExactly | internal/storage/file.go:383-405 | a message is left out if and only if a criterion that is set speaks against it |
| MessageSearch.RankedInOrder | internal/storage/file.go:185-225 | earlier results come first by submit time or status, later ones when descending order is asked for |
| MessageSearch.StatusOrder | pkg/smpp/pdu.go:1460-1474 | the number of every status |
| MessageSearch.PageExactly | internal/storage/file.go:227-242 | the page is the results from the offset on, up to the limit, or all of them without one |
| MessageSearch.PagesTile | internal/storage/file.go:227-242 | pages of one ranking at multiples of the limit are its chunks |
| MessageSearch.OneRankingExactly | internal/storage/file.go:176-225 | separate searches are sure to rank alike if and only if no two matching messages have equal sort keys |
| MessageSearch.SeparatePagesTile | internal/storage/file.go:176-242 | without ties, pages of separate searches are together one ranking |
| MessageSearch.TiedPagesRepeat | internal/storage/file.go:176-242 | with a tie, after any first ranking a second search may show one message again on a later page in place of another |

## Left out

- Sockets, TLS, deadlines, reconnecting, and starting and stopping goroutines; a connection is a sequence of octets.
- Concurrent interleavings of `CircuitBreaker.Call`, the connection pool and the stores: each operation is one step, as under its lock; the breaker runs its function outside the lock, so its theorems are about sequential calls.
- PDUs whose body has the wrong type for their command ID.
- `QuerySM`, `ReplaceSM`, `CancelSM`, `SubmitMulti` and `DataSM` codecs: stubs or not mirrored by their own `Marshal`, and not made by `createPDUBody`. The session model still covers their handlers.
- The rest of the message handler methods, beyond validation, splitting, the record made of a body, and receipts: wiring between parts.
- The receipt path through `DeliveryReportSender`, which GSM-encodes the text while the client reads raw octets, and the server's own `parseDeliveryReceiptText`, which never recovers the dates.
- Authentication, configuration, logging, metrics, the version table, the message queue, the per-user rate limiter map and its cleanup, `FlowController`, `Acquire`'s retry loop, `Retry` and its jitter, `DetectOptimalEncoding`, `InMemorySMSStorage` and the report store: thin, or the modelled parts again.
- Texts of error messages: an error is its kind.
- Nil messages and nil criteria: the datatypes have no nil.
- Segmentation.ProcessLongSMS: returns the message by value; that a short message is returned as the same pointer, not a copy, is not modelled.
- Codec.Encode: the body is a value inside the PDU object; that a caller could change it during the call is not modelled.
- OverTheWire.SplitterOverTheWire: the bodies and records in it are a caller's, as no code in the repository puts a part into a PDU.
- OverTheWire.SegmentsOverTheWire: as SplitterOverTheWire.
- PartHandling.SplitterPartDecodesExactly: the validation that follows decoding, and the text taken from a TLV when there is no short message, are not part of it.
- Sessions.Session.HandleGuarded: the body that the message handler returns is not looked into.
- Sessions.Session.Handle: recovery from a panic, which sends no response, is not modelled.
- Serving.ConnectionLifecycle: octets that arrive later are on the stream from the start; the command ID of a response is that of its header; `Encode` then emits every bind response as transceiver response, as `Codec.CommandID` says.
- TokenBuckets.TokenBucket.Refill: the rate is a real number and tokens are unbounded, so float rounding and 64-bit overflow are not modelled.
- TokenBuckets.TokenBucket.AllowN: as Refill.
- SlidingWindows.RunsAgree: times are unbounded integers, so the saturation of time arithmetic is not modelled; the monotonic clock is its `requires`.
- Paths.FileOfExactly: symbolic links, names that are too long and file systems that ignore case are not modelled.
- FileStore.RunReloads: subdirectories among the entries are not listed; IDs with a slash are covered by `FileStore.SavedExactly` instead.
- MessageSearch.SearchSMS: an offset plus limit beyond 64 bits is not modelled.
