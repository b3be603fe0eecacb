# BorderDNS verification

A model, in Dafny, of the parts of BorderDNS where a mistake would be hard to see in a test: the DNS wire codec, the block-rule matcher, the streaming TCP frame decoder and the route-scoped answer cache. `dafny verify dfyconfig.toml` checks the whole project.

| files | part |
|---|---|
| `Types`, `Wire` | fixed-width integers, errors, the byte cursor and the byte writer |
| `Names`, `NameRead`, `NameWrite`, `NameIndex`, `NameText` | domain names: flat representation, reading with compression pointers, writing with a compression index, what that index holds over a message, text form |
| `RecordTypes`, `Header`, `Records`, `Message` | numbers of types and classes, header bits, questions, records with their RDLENGTH patch, whole messages |
| `WireForm` | the readers against literal offsets and numbers: where each field of a message stands and which number stands for what |
| `Base64Url`, `TcpFrame`, `Transport` | base64url for DoH GET, length-prefixed frames over a stream, messages sent through either |
| `Glob`, `Rules`, `RuleStrings`, `Trie` | the label glob, what a block rule means and what the search makes of it, rule and domain strings and which domains each documented kind of rule blocks, the mutable trie with its memoised search |
| `Cache` | the answer cache as an object, as steps between states, and over whole runs |

## How the codec is laid out

Every reader is a method over a `WireReader` proved equal to a function of the message and the position (`NameAt`, `RecordAt`, `Decode`), including the error it returns. Every writer is a method over a `WireWriter` proved to append a function of the value (`NameBytes`, `RecordBytes`, `MessageBytes`). The round trips are lemmas about these functions. What bytes mean as a name is defined apart from both, by derivations: walks over the message that take a label, follow a pointer, or end at a root byte (section 4.1.4 of RFC 1035). What bytes mean as a message is stated in `WireForm` by offsets and numbers; since the writers are tied to the readers by round trips, this fixes both.

## What is assumed

- Names satisfy the representation invariant `DomainName.Valid`: labels of 1 to 63 bytes, at most 255 label bytes. `AppendLabel` accepts an empty label and then breaks it; its contract says so.
- Hashes of the non-root suffixes written do not collide, and pointers fit 14 bits. Both are hypotheses of `CompressedMessageReadsBack`; `PointerReadsBackIff` says what happens without them, and `FarPointerReadsAsRoot` is a run whose pointer does not fit.
- The cache's key hash is a parameter, without collisions on the queries in play. Time is an argument of each operation.
- The configured minimum TTL is at most the maximum when a positive answer is inserted: clamping panics otherwise.

## Where the code is not what its documentation says

- `encode_tcp_frame` is documented to panic above 65535 bytes (crates/dns-protocol/src/tcp_frame.rs:18-24); the code cuts the length prefix to 16 bits. `LongFramePeelsAsEmpty` gives an input, `FramePeelsIff` the exact condition.
- The suffix test of names compares raw bytes and can start inside a label (crates/dns-protocol/src/name.rs:255-269): `SuffixTestCanOverlapLabels`, with the exact condition in `SuffixTestExact`.
- A rule whose last reversed token directly follows `**` can match more than its tokens say, because of the early accept (crates/border-dns-domain-knowledge/src/block_matcher.rs:189-215): `EffectiveDiffers` gives an input. `EarlyAcceptIff` gives the exact condition: what the search accepts is what the tokens match exactly when the last label fits the last token. `OtherRulesAsWritten` covers all other rules, `BlockedAsWrittenIff` sets of rules.
- A label pattern before `.**`, such as `clientlog*.**`, is documented to apply to the first label (crates/border-dns-domain-knowledge/src/block_matcher.rs:12); because of the same early accept any label of the domain will do. `LaterLabelIsBlocked` gives an input, `FirstLabelIff` the exact condition, `PrefixRule` the domains blocked. Before `.**`, two or more labels are matched at the start of the domain only.
- The last part of a glob may overlap the parts before it (crates/border-dns-domain-knowledge/src/block_matcher.rs:58-62): `OverlapAccepted`, with the exact condition in `StarIffCheckedWithRoom`.
- An OPT record drops the low 15 bits of its TTL when written (crates/dns-protocol/src/rr.rs:426-431): `OptTtlKept` says what is left, `OptTtlIsLost` gives an accepted message that does not survive re-encoding, `DecodedReencodesIff` the exact condition.
- A decoder made with a limit below 65535 (crates/dns-protocol/src/tcp_frame.rs:98-104) can give different results for different ways to cut one stream, because an oversized length resets it: `ChunkingMattersAfterOversize` gives an input with limit 1. All ways to cut agree on messages and remainder exactly when no length is oversized or the stream ends right after one (`CutsAgreeIff`), and on the messages alone exactly when no length is oversized or no frame can be read anywhere past it (`MessagesAgreeIff`). The server builds its decoders with the default limit (crates/border-dns-runtime/src/server.rs:326, 441), under which no length is oversized (`DefaultLimitServesTheStream`).
- Insertion is documented to store the TTL of the first answer within the configured bounds (crates/border-dns-cache/src/lib.rs:217-221); the code takes the least one. `DocumentedTtlIsNotUsed` gives answers and a configuration where the stored TTL differs. `DocumentedTtlIff` gives the exact condition for them to be the same: no answer has a smaller TTL than the first, or the bounds bring both to the same value.
- Eviction finds nothing when no entry is older than the clock reading, and the cache then grows past its limit: `StalledClockOverflows`, with the exact condition of one step in `FullInsertKeepsSizeIff` and the bound over every run in `SizeBound`. Negative insertions never evict.

## Model

| member | source | states |
|---|---|---|
| Wire.WireReader.ReadU16 | crates/dns-protocol/src/wire.rs:107-118 | yields the big-endian number at the cursor and moves past it, or fails with need and remainder and stays |
| Wire.WireReader.ReadU32 | crates/dns-protocol/src/wire.rs:125-141 | the same for four bytes |
| Wire.WireReader.ReadBytes | crates/dns-protocol/src/wire.rs:148-159 | yields exactly the bytes at the cursor or fails without moving |
| Wire.WireReader.SetPos | crates/dns-protocol/src/wire.rs:46-56 | accepts every position up to and including the end |
| Wire.U16RoundTrip | crates/dns-protocol/src/wire.rs:235-237 | a written 16-bit number reads back, wherever it stands |
| Wire.U32RoundTrip | crates/dns-protocol/src/wire.rs:240-242 | a written 32-bit number reads back, wherever it stands |
| Wire.WireWriter.PatchU16 | crates/dns-protocol/src/rr.rs:441-451 | overwrites two bytes in place and nothing else |
| WireForm.NumbersAreRead | crates/dns-protocol/src/wire.rs:93-141 | numbers of one, two and four bytes have their highest byte first; too short a rest is refused with what was needed and what there was |
| WireForm.BytesAreRead | crates/dns-protocol/src/wire.rs:148-159 | a run of bytes is the bytes that stand there, or is refused with its length and what there was |
| WireForm.NumbersAreWritten | crates/dns-protocol/src/wire.rs:235-242 | and are written that way |
| Names.PackLabels | crates/dns-protocol/src/name.rs:54-81 | pushing well-formed labels one by one meets the representation invariant and the labels read back unchanged |
| Names.LabelsPack | crates/dns-protocol/src/name.rs:29-36 | every valid flat representation is the packing of its own labels, which are well formed |
| Names.SameLabelsSameName | crates/dns-protocol/src/name.rs:29-36 | names with equal labels are equal as stored |
| Names.DomainName.LabelAt | crates/dns-protocol/src/name.rs:97-108 | the slice between two ends is the label of that index, none past the last |
| Names.WireLenIsWireSize | crates/dns-protocol/src/name.rs:138-147 | the wire length computed from the representation is the size of the wire form |
| Names.ParentDropsFirst | crates/dns-protocol/src/name.rs:235-251 | the parent keeps the invariant and has every label but the first |
| Names.SuffixTestExact | crates/dns-protocol/src/name.rs:255-269 | being a label suffix is the raw-byte test together with agreeing label boundaries |
| Names.SuffixTestCanOverlapLabels | crates/dns-protocol/src/name.rs:255-269 | an input on which the raw-byte test accepts a name that is no label suffix |
| Names.FromLabelsAccepts | crates/dns-protocol/src/name.rs:54-81 | exactly which label lists make a name, and which one: empty labels skipped, at most 63, 255 and 128 |
| Names.FirstBadLabel | crates/dns-protocol/src/name.rs:54-81 | the error is about the first label longer than 63 bytes or taking the name past 255: its length, or the number of labels before it |
| Names.TooManyLabelsError | crates/dns-protocol/src/name.rs:74-76 | otherwise it is the number of labels, when there are more than 128 |
| Names.FromLabels | crates/dns-protocol/src/name.rs:54-81 | the loop over buffer and ends builds the packing of the collected labels or returns its error |
| Names.AppendLabel | crates/dns-protocol/src/name.rs:212-231 | when it succeeds or which error it gives, that the label is then last, and that the result is valid exactly when the label is not empty |
| Names.WriteNameUncompressed | crates/dns-protocol/src/name.rs:199-208 | appends the length-prefixed labels and the root byte |
| NameRead.ReadIffDerived | crates/dns-protocol/src/name.rs:341-422 | reading gives labels and a stop position exactly when a derivation with at most 63 jumps and 255 label bytes does; a pointer leads to its 16-bit number less 0xC000 |
| NameRead.TargetByNumber | crates/dns-protocol/src/name.rs:365-368 | the target computed from the two pointer bytes is their 16-bit number less 0xC000 |
| NameRead.DerivationUnique | crates/dns-protocol/src/name.rs:341-422 | bytes have at most one derivation from a position |
| NameRead.CyclicChainFails | crates/dns-protocol/src/name.rs:364-390 | a walk that comes back to a position, whatever labels and pointers are on it, is refused |
| NameRead.NameAtWellFormed | crates/dns-protocol/src/name.rs:341-422 | every accepted name has labels of 1 to 63 bytes, at most 255 in all, and the cursor moved forward |
| NameRead.NameRoundTrip | crates/dns-protocol/src/name.rs:427-437 | an uncompressed name reads back at its place and reading stops after it |
| NameRead.TurnsBounded | crates/dns-protocol/src/name.rs:341-422 | the loop's turns, counted over all levels, are at most 256 for this level, less the bytes already read, and 256 for each level below, on messages of any length |
| NameRead.ReadLabels | crates/dns-protocol/src/name.rs:341-422 | the reading loop at one level: stored form of the derived labels or its error, cursor, and exactly the specified number of turns |
| NameRead.ReadNameWithDepth | crates/dns-protocol/src/name.rs:341-422 | the stored form or error of the message function, in exactly the specified number of turns, at most 256 × (64 − depth) |
| NameRead.MergeSuffix | crates/dns-protocol/src/name.rs:377-390 | shifting a suffix's ends behind the labels already read stores the concatenated labels, or fails at the first end past 255 |
| NameRead.ReadName | crates/dns-protocol/src/name.rs:337-339 | value, error and cursor are those of the message function |
| NameRead.ReadNameAtOffset | crates/dns-protocol/src/name.rs:427-432 | the same from an explicit offset, with the error past the end |
| NameRead.FirstByteErrors | crates/dns-protocol/src/name.rs:341-371 | what is refused at the first byte: end of message, a byte 0x40 to 0xBF, a label cut short, a pointer past the message, each with its numbers |
| NameWrite.SuffixHashFrom | crates/dns-protocol/src/name.rs:275-299 | the running hash over buffer slices is the hash of the length-prefixed suffix |
| NameWrite.WriteNameCompressed | crates/dns-protocol/src/name.rs:444-482 | bytes written, bytes counted, and every suffix registered at its absolute offset |
| NameWrite.CompressionShortens | crates/dns-protocol/src/name.rs:444-482 | never longer than the plain form, and strictly shorter exactly when a pointer is used |
| NameWrite.CompressedMessageReadsBack | crates/dns-protocol/src/name.rs:444-482 | in any sequence of names and other bytes written from an empty map, each name reads back at its start, ends after its bytes, by at most one jump |
| NameWrite.PointerReadsBackIff | crates/dns-protocol/src/name.rs:455-470 | without the hypotheses on hashes and offsets: a name written with a pointer reads back exactly when its suffix can be read at the offset's low 14 bits |
| NameWrite.FarPointerReadsAsRoot | crates/dns-protocol/src/name.rs:463-465 | a run that breaks without the 14-bit hypothesis: behind 0x4000 bytes a name written twice reads back as the root |
| NameIndex.PointerIsItsNumber | crates/dns-protocol/src/name.rs:463-465 | below 0x4000 the two pointer bytes are the number 0xC000 plus the offset, higher byte first |
| NameIndex.RegisterWhere | crates/dns-protocol/src/name.rs:473-479 | registering a name enters each of its suffixes at the offset where it stands |
| NameIndex.RegisterOnly | crates/dns-protocol/src/name.rs:473-479 | and changes no other entry |
| NameIndex.IndexIsSources | crates/dns-protocol/src/name.rs:444-482 | in the course of any message the index holds exactly the suffixes of the names written in full, each at the place it was written first |
| NameIndex.SharedSuffixIsPointed | crates/dns-protocol/src/name.rs:444-482 | a name that shares a suffix with one written in full is written with a pointer at or before that suffix; if no longer suffix was, the bytes are its labels before the suffix and 0xC000 plus the suffix's offset |
| NameIndex.NoSharedSuffixNoPointer | crates/dns-protocol/src/name.rs:444-482 | a name none of whose suffixes was written in full is written in full |
| NameIndex.HashOfA | crates/dns-protocol/src/name.rs:275-299 | the suffix hash of the name `a` as a number: 64-bit FNV-1a over the bytes 1, 97, 0 |
| NameText.Display | crates/dns-protocol/src/name.rs:302-323 | the printing loop is the escaping of each byte, a dot after each label |
| NameText.PrintInjective | crates/dns-protocol/src/name.rs:302-323 | different names print differently, whatever bytes they hold |
| NameText.PrintedByte | crates/dns-protocol/src/name.rs:313-319 | a visible character other than dot and backslash prints as itself, any other byte as a backslash and its value in three decimal digits |
| NameText.PlainNamePrints | crates/dns-protocol/src/name.rs:302-323 | a name of plain bytes prints as its labels joined by dots with a dot behind, the root as a dot |
| NameText.FromStr | crates/dns-protocol/src/name.rs:153-188 | the parsing loop splits at dots and builds the name of the parts, or its error |
| NameText.ParseJoined | crates/dns-protocol/src/name.rs:153-188 | dot-free parts joined by dots parse to the name of these parts or to the error they give, empty parts included |
| NameText.SplitThenJoin | crates/dns-protocol/src/name.rs:166-180 | every text is the join of the dot-free parts it is split into |
| NameText.TrailingDotIgnored | crates/dns-protocol/src/name.rs:153-160 | one more trailing dot never changes the result |
| NameText.ParseInvertsPrint | crates/dns-protocol/src/name.rs:153-188 | parsing the printed form gives the name back exactly on plain bytes and at most 128 labels |
| RecordTypes.NumbersRoundTrip | crates/dns-types/src/record_type.rs:27-128 | every 16-bit number survives the type, query type, class and query class maps |
| RecordTypes.TypesRoundTrip | crates/dns-types/src/record_type.rs:27-128 | a type survives exactly when it is not an unknown number that has a name |
| RecordTypes.ClassesRoundTrip | crates/dns-types/src/record_class.rs:18-62 | the same for classes |
| Header.FlagsRoundTrip | crates/dns-protocol/src/header.rs:201-265 | packing the flags loses nothing exactly when each field fits its bits and codes are canonical |
| Header.HeaderReadBack | crates/dns-protocol/src/header.rs:201-265 | a written header reads back, and equal exactly when its flags are canonical |
| Header.BuildFlags | crates/dns-protocol/src/header.rs:237-265 | the flag word built by repeated updates is the packed word |
| Header.ReadHeaderIsCanonical | crates/dns-protocol/src/header.rs:201-234 | every header read has canonical flags |
| Records.QuestionReadBack | crates/dns-protocol/src/question.rs:48-64 | a written question reads back, and equal exactly when its codes are canonical |
| Records.BodyReadBack | crates/dns-protocol/src/rr.rs:206-330 | record data of its type reads back from its bytes under its own length |
| Records.BodyReadBackFits | crates/dns-protocol/src/rr.rs:206-330 | data that reads back under its length cut to 16 bits was at most 65535 bytes long |
| Records.ReadRDataIsWf | crates/dns-protocol/src/rr.rs:206-291 | all record data read matches its type and its strings are at most 255 bytes, even when names run past RDLENGTH |
| Records.TxtReadBack | crates/dns-protocol/src/rr.rs:250-258 | length-prefixed strings read back in order up to the end of the data |
| Records.OptTtlKept | crates/dns-protocol/src/rr.rs:419-435 | what an OPT record writes as TTL is the TTL it was read with, less its low 15 bits |
| Records.OptFieldsKept | crates/dns-protocol/src/rr.rs:384-431 | the OPT fields survive the trip through class and TTL |
| Records.RecordReadBack | crates/dns-protocol/src/rr.rs:384-452 | reading any written record gives its own name, type, class and TTL fields, and what its data reads as |
| Records.WfRecordReadsBack | crates/dns-protocol/src/rr.rs:384-452 | a well-formed record reads back as itself and the cursor ends after it |
| Records.ReadBackRecordIsWf | crates/dns-protocol/src/rr.rs:384-452 | only a well-formed record reads back as itself |
| Records.ReadRecordIsDecoded | crates/dns-protocol/src/rr.rs:384-416 | every record read has canonical codes, data of its type, and OPT fields that agree with class and TTL |
| Records.ReadRecord | crates/dns-protocol/src/rr.rs:384-416 | value, error and cursor are those of the message function |
| Records.ReadTxt | crates/dns-protocol/src/rr.rs:250-258 | the loop over strings stops where the message function does |
| Records.WriteRData | crates/dns-protocol/src/rr.rs:296-330 | appends the data's bytes and returns their number |
| Records.WriteRecord | crates/dns-protocol/src/rr.rs:419-452 | the placeholder patched in place ends up as the length of the data cut to 16 bits, and the rest is appended as specified |
| Message.MessageRoundTripIff | crates/dns-protocol/src/message.rs:84-175 | decoding the encoding of any message gives it back exactly when it is well formed |
| Message.DecodedIsWellFormed | crates/dns-protocol/src/message.rs:84-130 | every accepted message has matching counts, canonical codes and data of its records' types |
| WireForm.DecodeIff | crates/dns-protocol/src/message.rs:84-130 | whatever the compression, bytes decode to a message exactly when its id, flag word, counts and sections stand in them: header numbers at offsets 0 to 10, then from offset 12 as many questions, answers, authority and additional records as counted, one behind the other; under 12 bytes it is the underflow error |
| WireForm.HeaderByOffsets | crates/dns-protocol/src/header.rs:201-234 | id, flag word and the four counts at offsets 0, 2, 4, 6, 8 and 10 |
| WireForm.FlagBits | crates/dns-protocol/src/header.rs:201-234 | QR, operation, AA, TC, RD, RA, reserved bits and response code as digits of the flag word |
| WireForm.CodeNumbers | crates/dns-protocol/src/header.rs:28-102 | the number of each operation and response code, read and written |
| WireForm.TypeNumbers | crates/dns-types/src/record_type.rs:27-61 | the number of each of the twelve record types, read and written |
| WireForm.OtherTypeNumbers | crates/dns-types/src/record_type.rs:27-117 | exactly the other numbers are unknown types, classes and plain query types, and keep their number |
| WireForm.QueryAndClassNumbers | crates/dns-types/src/record_class.rs:18-62 | the numbers of the query types 252 to 255, of the classes, and of the class ANY |
| WireForm.QuestionByOffsets | crates/dns-protocol/src/question.rs:48-57 | a name, the query type behind it, the class behind that |
| WireForm.HeadIsRead | crates/dns-protocol/src/rr.rs:384-416 | name, type, class, TTL and data length at their offsets, then data of that type and length |
| WireForm.AddressRecords | crates/dns-protocol/src/rr.rs:206-291 | types 1 and 28 are addresses of four and sixteen bytes; any other length is refused |
| WireForm.NameRecords | crates/dns-protocol/src/rr.rs:206-291 | types 2, 5 and 12 are NS, CNAME and PTR with the name at the start of the data |
| WireForm.MxRecords | crates/dns-protocol/src/rr.rs:85-93 | type 15 is a 16-bit preference and a name |
| WireForm.SoaRecords | crates/dns-protocol/src/rr.rs:39-57 | type 6 is two names and serial, refresh, retry, expire and minimum, 32 bits each, in this order |
| WireForm.TxtRecords | crates/dns-protocol/src/rr.rs:250-258 | type 16 is strings behind a length byte each |
| WireForm.SrvRecords | crates/dns-protocol/src/rr.rs:112-124 | type 33 is priority, weight, port and a name |
| WireForm.SvcbRecords | crates/dns-protocol/src/rr.rs:334-350 | types 64 and 65 are a priority, a name, and parameters up to the end of the data |
| WireForm.OptRecords | crates/dns-protocol/src/rr.rs:393-408 | type 41 has the payload size in the class and response code, version and DO bit in the TTL bytes |
| WireForm.OtherRecords | crates/dns-protocol/src/rr.rs:206-291 | any other type keeps its number and its data |
| WireForm.LongDataIsRefused | crates/dns-protocol/src/rr.rs:206-222 | data that would end past the message is refused, with its length and what there was |
| Message.DecodedReencodesIff | crates/dns-protocol/src/message.rs:84-175 | decode, encode, decode gives the same message exactly when no OPT TTL has low bits and all data fits its length field |
| Message.OptTtlIsLost | crates/dns-protocol/src/rr.rs:419-435 | an accepted message, with an OPT record of TTL 1, that re-encoding changes |
| Message.IdPatch | crates/border-dns-cache/src/lib.rs:62-67 | overwriting the first two bytes of an encoding is encoding with that id |
| Message.FromWire | crates/dns-protocol/src/message.rs:84-130 | the section loops give the message function's value or error, and an accepted message is well formed up to re-encoding |
| Message.DnsMessage.ToWire | crates/dns-protocol/src/message.rs:133-175 | produces the encoding, which decodes to the message exactly when it is well formed |
| Message.DnsMessage.WriteTo | crates/dns-protocol/src/message.rs:160-175 | appends header and sections in order |
| Message.DnsMessage.Query | crates/dns-protocol/src/message.rs:52-62 | a query for a well-formed question is a well-formed message |
| Message.DnsMessage.Response | crates/dns-protocol/src/message.rs:66-78 | a response keeps id, RD bit and questions, and is well formed when they are |
| Message.DnsMessage.AddAnswer | crates/dns-protocol/src/message.rs:204-207 | appends one record, follows with its count, changes nothing else, and keeps well-formedness up to 65535 records |
| Message.DnsMessage.AddAuthority | crates/dns-protocol/src/message.rs:210-213 | the same for the authority section |
| Message.DnsMessage.AddAdditional | crates/dns-protocol/src/message.rs:216-219 | the same for the additional section |
| Message.DnsMessage.UpdateCounts | crates/dns-protocol/src/message.rs:178-183 | all four counts follow the sections, id and flags stay |
| Base64Url.DecodeEncode | crates/dns-protocol/src/transport.rs:115-186 | decoding undoes encoding for every byte string |
| Base64Url.EncodedLength | crates/dns-protocol/src/transport.rs:115-133 | the encoding has floor((4n + 2) / 3) characters |
| Base64Url.EncodedCharacter | crates/dns-protocol/src/transport.rs:107-133 | the character at k is the letter of the URL-safe alphabet for the bits 6k to 6k + 5 of the data, zero bits behind its end |
| Base64Url.EncodedIsUrlSafe | crates/dns-protocol/src/transport.rs:107-133 | only the 64 URL-safe characters occur, no padding |
| Base64Url.DecodeAcceptsIff | crates/dns-protocol/src/transport.rs:136-186 | decoding fails exactly on a character outside both alphabets and the padding sign; no length is refused |
| Base64Url.EncodedIsCanonical | crates/dns-protocol/src/transport.rs:115-133 | every encoding is URL-safe, leaves no single character over, and has zero in the unused bits of its last character |
| Base64Url.CanonicalIsEncoded | crates/dns-protocol/src/transport.rs:115-133 | every such text is the encoding of some bytes |
| Base64Url.EncodeDecodeIff | crates/dns-protocol/src/transport.rs:115-186 | encoding what a text decodes to gives the text back exactly when it is such a text |
| Base64Url.Encode | crates/dns-protocol/src/transport.rs:115-133 | the chunk loop pushes the specified characters |
| Base64Url.Decode | crates/dns-protocol/src/transport.rs:136-186 | padding, mapping and chunk loops give the specified bytes or error |
| Transport.DohEncodeGet | crates/dns-protocol/src/transport.rs:26-28 | the parameter decodes to the message, is URL-safe, and has at most (4n + 2) / 3 characters |
| Transport.DohDecodeGet | crates/dns-protocol/src/transport.rs:31-33 | decodes every encoding to its message, refuses exactly the parameters with a character outside both alphabets and the padding sign, and re-encodes to the same parameter exactly when that is canonical |
| Transport.GetCarriesMessageIff | crates/dns-protocol/src/transport.rs:26-33 | a message put in a GET parameter arrives as itself exactly when it is well formed |
| Transport.StreamCarriesMessages | crates/border-dns-runtime/src/server.rs:340-360 | well-formed messages framed on a stream decode to themselves however the stream is cut |
| TcpFrame.FramePeelsIff | crates/dns-protocol/src/tcp_frame.rs:24-71 | a frame peels off a stream as its message exactly when the message is within the limit |
| TcpFrame.LongFramePeelsAsEmpty | crates/dns-protocol/src/tcp_frame.rs:24-31 | a message of 65536 bytes is framed so that the empty message peels off |
| TcpFrame.FrameRoundTripIff | crates/dns-protocol/src/tcp_frame.rs:24-71 | the same for a single frame and the one-shot decoder |
| TcpFrame.DecodeFrame | crates/dns-protocol/src/tcp_frame.rs:42-71 | message and length, or the error with the bytes needed |
| TcpFrame.FrameBytes | crates/dns-protocol/src/tcp_frame.rs:24-31 | up to 65535 bytes, a frame is the length in two bytes, higher first, and the message |
| TcpFrame.HeadByBytes | crates/dns-protocol/src/tcp_frame.rs:42-71 | what the first two bytes decide, as a number, for the stream and the one-shot decoder |
| TcpFrame.ParsedIsFrames | crates/dns-protocol/src/tcp_frame.rs:117-152 | the frames of the messages parsed and what is left make up the stream: no byte is lost or made up |
| TcpFrame.ParseAppend | crates/dns-protocol/src/tcp_frame.rs:117-152 | parsing a longer stream is parsing the shorter one and going on from what it left |
| TcpFrame.ChunkingDoesNotMatter | crates/dns-protocol/src/tcp_frame.rs:107-152 | feeding and draining any chunks gives what parsing the whole stream gives, when no length is oversized |
| TcpFrame.ChunkingDoesNotMatterIff | crates/border-dns-runtime/src/server.rs:340-360 | every way to cut a stream gives what parsing it at once gives exactly when no length on it is oversized; parsing keeps an oversized length, serving discards it |
| TcpFrame.CutsAgreeIff | crates/border-dns-runtime/src/server.rs:340-360 | all ways to cut a stream give the same messages and remainder exactly when no length is oversized or the stream ends right after one |
| TcpFrame.MessagesAgreeIff | crates/border-dns-runtime/src/server.rs:340-360 | all ways to cut a stream give the same messages exactly when no length is oversized or no frame can be read anywhere past it |
| TcpFrame.DefaultLimitServesTheStream | crates/dns-protocol/src/tcp_frame.rs:20-21 | under the default limit every stream is served as it is parsed, however cut |
| TcpFrame.FramesArrive | crates/border-dns-runtime/src/server.rs:340-360 | messages within the limit come out of any chunking of their frames, in order, nothing left |
| TcpFrame.ChunkingMattersAfterOversize | crates/dns-protocol/src/tcp_frame.rs:98-152 | for a decoder made with limit 1, a stream on which two ways to cut it give different messages once the decoder is reset |
| TcpFrame.DefaultLimitIsClean | crates/dns-protocol/src/tcp_frame.rs:20-21 | under the default limit no length can be oversized |
| TcpFrame.RestIsShort | crates/dns-protocol/src/tcp_frame.rs:107-152 | what is left after a full drain is at most the limit plus one byte |
| TcpFrame.BulkIsStreaming | crates/dns-protocol/src/tcp_frame.rs:191-212 | bulk decoding succeeds exactly on clean streams that stop before a length prefix, and then every way to feed the streaming decoder the same bytes gives the same messages and remainder |
| TcpFrame.DecodeFrames | crates/dns-protocol/src/tcp_frame.rs:191-212 | the loop over offsets gives the specified messages and offset or error |
| TcpFrame.CompactionIsAmortised | crates/dns-protocol/src/tcp_frame.rs:140-152 | over every run of chunks, twice the bytes compaction moves is at most three times the bytes received and no longer held |
| TcpFrame.ServeIsPaid | crates/dns-protocol/src/tcp_frame.rs:107-158 | the same from any state whose moves are paid for, with fewer than half the stored bytes read and kept |
| TcpFrame.TcpFrameDecoder.TryDecode | crates/dns-protocol/src/tcp_frame.rs:117-152 | takes exactly the frame at the front of the unread bytes or changes nothing; buffer length, read position and bytes moved are as compaction specifies |
| TcpFrame.TcpFrameDecoder.Compact | crates/dns-protocol/src/tcp_frame.rs:140-152 | the unread bytes stay; they are moved, and counted as moved, exactly when the read prefix is half the buffer or more |
| TcpFrame.TcpFrameDecoder.Feed | crates/dns-protocol/src/tcp_frame.rs:107-109 | appends to the unread bytes |
| TcpFrame.TcpFrameDecoder.Buffered | crates/dns-protocol/src/tcp_frame.rs:162-164 | counts the unread bytes, and at most twice as many are stored |
| TcpFrame.TcpFrameDecoder.Reset | crates/dns-protocol/src/tcp_frame.rs:155-158 | drops everything unread and moves nothing |
| TcpFrame.TcpFrameDecoder.FeedAndDrain | crates/border-dns-runtime/src/server.rs:340-360 | one read of the server loop: feed, take frames until none is left or reset on an oversized length, moving exactly the specified bytes |
| TcpFrame.TcpFrameDecoder.Serve | crates/border-dns-runtime/src/server.rs:330-362 | over a whole connection, messages, remainder and bytes moved as specified, every byte received either consumed or held, and twice the bytes moved at most three times the bytes consumed |
| Glob.LabelMatchesGlob | crates/border-dns-domain-knowledge/src/block_matcher.rs:37-73 | the loop over parts and position decides the check |
| Glob.GlobAcceptsIff | crates/border-dns-domain-knowledge/src/block_matcher.rs:37-73 | accepted exactly when the first part is a prefix, the last a suffix, and the middle parts can be placed in order, disjoint, after the first, case aside |
| Glob.StarIffCheckedWithRoom | crates/border-dns-domain-knowledge/src/block_matcher.rs:37-73 | ordinary `*` matching, case aside, is the check plus room for the last part after the greedy placement |
| Glob.OverlapAccepted | crates/border-dns-domain-knowledge/src/block_matcher.rs:58-62 | a label the check accepts and ordinary matching does not |
| Glob.OneStarGlob | crates/border-dns-domain-knowledge/src/block_matcher.rs:37-73 | a pattern with one star fits exactly the labels that start with what is before it and end with what is behind it, case aside |
| Glob.InsideGlob | crates/border-dns-domain-knowledge/src/block_matcher.rs:37-73 | text between two stars fits exactly the labels that hold it, case aside |
| Glob.LettersFold | crates/border-dns-domain-knowledge/src/block_matcher.rs:43-44 | the 26 capital letters become the small ones, no other character changes |
| Rules.SearchIsMatching | crates/border-dns-domain-knowledge/src/block_matcher.rs:156-235 | the search along one rule, with self-loop and early accept, is declarative matching of the effective rule |
| Rules.SkipIsRedundant | crates/border-dns-domain-knowledge/src/block_matcher.rs:225-231 | the final skip branch never changes the answer |
| Rules.MultiTakesSome | crates/border-dns-domain-knowledge/src/block_matcher.rs:11-20 | `**` matches exactly when some number of labels, zero included, can be taken before the rest matches |
| Rules.EarlyAcceptIff | crates/border-dns-domain-knowledge/src/block_matcher.rs:189-215 | for a rule that ends in a token right after `**`, the tokens match exactly when the search accepts and the last label fits the last token |
| Rules.OtherRulesAsWritten | crates/border-dns-domain-knowledge/src/block_matcher.rs:156-235 | for every other rule the search accepts exactly what the tokens match |
| Rules.BlockedAsWrittenIff | crates/border-dns-domain-knowledge/src/block_matcher.rs:376-384 | some rule's tokens match a domain exactly when some rule that blocks it does not owe this to the early accept |
| Rules.EffectiveDiffers | crates/border-dns-domain-knowledge/src/block_matcher.rs:189-215 | a rule and a domain on which the early accept matches and the tokens do not |
| Rules.TrieSearchFindsRule | crates/border-dns-domain-knowledge/src/block_matcher.rs:156-235 | a search that accepts at a node does so for some rule through that node |
| Rules.RuleIsFound | crates/border-dns-domain-knowledge/src/block_matcher.rs:156-235 | a rule through a node that accepts on its own makes the search accept |
| Rules.TrieIsItsRules | crates/border-dns-domain-knowledge/src/block_matcher.rs:290-383 | the search from the root accepts exactly when some inserted rule, taken alone, matches |
| Trie.TrieNode.GetOrCreate | crates/border-dns-domain-knowledge/src/block_matcher.rs:103-131 | finds the edge for a token or adds one to a fresh empty node, no other edge changes |
| Trie.BlockMatcher.Descend | crates/border-dns-domain-knowledge/src/block_matcher.rs:297-305 | one step of an insertion keeps the trie invariant and adds at most one path |
| Trie.BlockMatcher.AddPattern | crates/border-dns-domain-knowledge/src/block_matcher.rs:290-310 | the set of rules grows by exactly the token sequence of the string, and the count is the number of distinct rules |
| Trie.BlockMatcher.BatchAdd | crates/border-dns-domain-knowledge/src/block_matcher.rs:313-317 | the rules after any insertions are the set of their token sequences, whatever order and repetition |
| Trie.BlockMatcher.FromPatterns | crates/border-dns-domain-knowledge/src/block_matcher.rs:283-287 | a new matcher holds exactly the rules of its patterns |
| Trie.BlockMatcher.MatchNode | crates/border-dns-domain-knowledge/src/block_matcher.rs:156-235 | the memoised search equals the memo-free one, leaves its own answer in the table, adds only later keys besides, and every uncached evaluation it began has recorded a key |
| Trie.BlockMatcher.Evaluate | crates/border-dns-domain-knowledge/src/block_matcher.rs:167-234 | one uncached evaluation, counted when it begins, equals the memo-free search and is the only one left to record its answer |
| Trie.BlockMatcher.EvaluateSkips | crates/border-dns-domain-knowledge/src/block_matcher.rs:219-231 | the self-loop and the skip to the `**` child accept exactly when the memo-free search does one label further on at this node or its `**` child |
| Trie.BlockMatcher.TryPatterns | crates/border-dns-domain-knowledge/src/block_matcher.rs:203-217 | the loop over glob edges accepts exactly when some pattern extension takes the label |
| Trie.SearchStep | crates/border-dns-domain-knowledge/src/block_matcher.rs:141-155 | one step of the memo-free search, edge by edge |
| Trie.MemoTable.Record | crates/border-dns-domain-knowledge/src/block_matcher.rs:169-234 | an evaluation begun and not yet recorded ends by entering its answer under a new key, so evaluations begun are table entries plus open ones |
| Trie.KeysBound | crates/border-dns-domain-knowledge/src/block_matcher.rs:135-139 | keys over the trie's nodes and n label positions number at most nodes × n |
| Trie.BlockMatcher.MemoIsBounded | crates/border-dns-domain-knowledge/src/block_matcher.rs:135-139 | a table of correct answers has at most nodes × (labels + 1) entries |
| RuleStrings.CaseDoesNotMatter | crates/border-dns-domain-knowledge/src/block_matcher.rs:376-421 | rules and domains that differ only in case stand for the same tokens and labels |
| RuleStrings.SplitThenJoin | crates/border-dns-domain-knowledge/src/block_matcher.rs:425-432 | every string is the join of the dot-free parts it is split into |
| RuleStrings.LabelsOfParts | crates/border-dns-domain-knowledge/src/block_matcher.rs:425-432 | the labels of parts joined by dots are the parts from the last to the first, without the empty ones |
| RuleStrings.EachRuleBlocks | crates/border-dns-domain-knowledge/src/block_matcher.rs:283-317 | several rules block exactly the domains one of them blocks alone |
| RuleStrings.PlainRule | crates/border-dns-domain-knowledge/src/block_matcher.rs:8-10 | a rule of labels blocks exactly the domains with as many labels, each fitting its label of the rule |
| RuleStrings.ExactRule | crates/border-dns-domain-knowledge/src/block_matcher.rs:8 | a rule without wildcards blocks exactly its own name, case and a trailing dot aside |
| RuleStrings.SuffixRule | crates/border-dns-domain-knowledge/src/block_matcher.rs:9 | with `**.` before them, labels block exactly the domains that end with labels fitting them |
| RuleStrings.AnywhereRule | crates/border-dns-domain-knowledge/src/block_matcher.rs:11 | with `**` on both sides, exactly the domains that have such labels somewhere |
| RuleStrings.PrefixRule | crates/border-dns-domain-knowledge/src/block_matcher.rs:12 | with `.**` behind them, exactly the domains that start with such labels, but for a single label those that have one such label anywhere |
| RuleStrings.BareWildcardRule | crates/border-dns-domain-knowledge/src/block_matcher.rs:411-421 | a wildcard without a dot blocks exactly the domains some label of which fits it |
| RuleStrings.FirstLabelIff | crates/border-dns-domain-knowledge/src/block_matcher.rs:12 | the documented first label decides exactly where it fits or no label does |
| RuleStrings.LaterLabelIsBlocked | crates/border-dns-domain-knowledge/src/block_matcher.rs:189-215 | a rule and a domain blocked though the first label does not fit |
| RuleStrings.SpaceAround | crates/border-dns-domain-knowledge/src/block_matcher.rs:411-421 | white space around a rule makes no difference, unless a dot stands before it |
| RuleStrings.AsciiSpaces | crates/border-dns-domain-knowledge/src/block_matcher.rs:412 | the white space of ASCII: tab, line feed, vertical tab, form feed, carriage return, space |
| RuleStrings.RuleDotIgnored | crates/border-dns-domain-knowledge/src/block_matcher.rs:411-421 | one trailing dot of a rule makes no difference |
| Trie.BlockMatcher.IsBlocked | crates/border-dns-domain-knowledge/src/block_matcher.rs:376-384 | a domain is blocked exactly when some rule matches its reversed lower-case labels, by at most nodes × (labels + 1) evaluations; one rule without wildcards alone in the matcher blocks exactly its own name |
| Cache.FastHitIsSimpleHit | crates/border-dns-runtime/src/handler.rs:172-190 | patching the id of a stored answer sends what encoding the message with that id, as the pipeline does, would send |
| Cache.FastHitDecodesIff | crates/border-dns-cache/src/lib.rs:62-67 | the patched bytes decode to the message under the new id exactly when the stored message is well formed |
| Cache.NewResponse | crates/border-dns-cache/src/lib.rs:48-53 | the stored bytes are the encoding of the stored message |
| Cache.MinTtlIsLeast | crates/border-dns-cache/src/lib.rs:345-347 | the extracted TTL is a lower bound that some answer has |
| Cache.FirstTtlIff | crates/border-dns-cache/src/lib.rs:345-347 | the extracted minimum is the first answer's TTL exactly when no answer has a smaller one |
| Cache.ClampLaw | crates/border-dns-cache/src/lib.rs:322-324 | the result lies within the bounds, is the TTL itself exactly inside them, and the nearer bound outside |
| Cache.StoredTtlLaw | crates/border-dns-cache/src/lib.rs:227-304 | the negative TTL for a negative insertion; otherwise the TTL given or the least answer TTL, moved to the nearer bound, and the lower bound without answers |
| Cache.ExpiredIff | crates/border-dns-cache/src/lib.rs:123-125 | an entry has expired exactly when its TTL is zero or that many times 10^9 nanoseconds have passed since its insertion |
| Cache.DocumentedTtlIff | crates/border-dns-cache/src/lib.rs:217-236 | the TTL stored is the first answer's within the bounds, as documented, exactly when no answer has a smaller one, the first is at or below the lower bound, all are at or above the upper one, or the bounds are equal |
| Cache.DocumentedTtlIsNotUsed | crates/border-dns-cache/src/lib.rs:217-236 | a configuration and two answers for which the TTL stored is not the documented one |
| Cache.RewrittenIsWfIff | crates/border-dns-cache/src/lib.rs:252-255 | rewriting the answers' TTLs keeps a well-formed message well formed exactly when every OPT answer already has that TTL |
| Cache.PositiveHitDecodesIff | crates/border-dns-cache/src/lib.rs:62-67 | what a positive insertion of a well-formed message sends under any id decodes to what was stored exactly when every OPT answer already had the stored TTL |
| Cache.LatestIsLast | crates/border-dns-cache/src/lib.rs:194-304 | the log lookup is the last insertion for that query with no clear and no other insertion for it after |
| Cache.LookupEffect | crates/border-dns-cache/src/lib.rs:194-215 | a hit leaves the entries alone, a miss takes what stands under its key and nothing else |
| Cache.HitIsLatest | crates/border-dns-cache/src/lib.rs:194-304 | in every run a hit is what the latest insertion for exactly that triple stored, fewer than its TTL in nanoseconds ago, with every answer TTL of a positive one set to the stored TTL |
| Cache.FreshMissIff | crates/border-dns-cache/src/lib.rs:194-304 | a lookup less than the stored TTL in nanoseconds after its latest insertion misses exactly when a later insertion for another query evicted the entry |
| Cache.NeverFullIsTheLog | crates/border-dns-cache/src/lib.rs:194-304 | while no insertion finds the cache full, every lookup gives the latest insertion if it is less than its TTL in nanoseconds old, and nothing otherwise |
| Cache.FullInsertKeepsSizeIff | crates/border-dns-cache/src/lib.rs:257-267 | inserting a new key into a full cache keeps its size exactly when some entry is older than the clock reading |
| Cache.SizeBound | crates/border-dns-cache/src/lib.rs:242-342 | in every run, never more entries than max(1, limit) plus the negative insertions plus the insertions that found the cache full of entries none of them older |
| Cache.AdvancingClockNeverStalls | crates/border-dns-cache/src/lib.rs:242-342 | with a strictly advancing clock there are no such insertions, so never more entries than max(1, limit) plus the negative insertions |
| Cache.StalledClockOverflows | crates/border-dns-cache/src/lib.rs:326-341 | a run with a standing clock and no negative insertion that exceeds the limit |
| Cache.EvictedIsOldest | crates/border-dns-cache/src/lib.rs:326-341 | what an insertion evicts has the least insertion time, is evicted only from a full cache, and all else stays |
| Cache.EvictedWasInsertedFirst | crates/border-dns-cache/src/lib.rs:257-341 | over a run, the evicted query's latest insertion is no later than that of any query still held |
| Cache.CountersCount | crates/border-dns-cache/src/lib.rs:139-158 | hits, misses and evictions count the lookups that returned something, those that did not, and the insertions that found the cache full and some entry older, modulo 64 bits |
| Cache.RouteScopedCache.GetScoped | crates/border-dns-cache/src/lib.rs:194-215 | takes the lookup step: hit, or a miss that removes an expired entry |
| Cache.RouteScopedCache.InsertScoped | crates/border-dns-cache/src/lib.rs:227-236 | takes the insertion step with the least answer TTL; clamping twice is clamping once |
| Cache.RouteScopedCache.InsertScopedWithTtl | crates/border-dns-cache/src/lib.rs:242-275 | takes the insertion step: room made if full, answers rewritten, entry put |
| Cache.RouteScopedCache.InsertNegativeScoped | crates/border-dns-cache/src/lib.rs:284-304 | takes the insertion step without eviction and with the negative TTL |
| Cache.RouteScopedCache.Clear | crates/border-dns-cache/src/lib.rs:318-320 | takes the clearing step: entries go, counters stay |
| Cache.RouteScopedCache.EvictOldest | crates/border-dns-cache/src/lib.rs:326-341 | the scan in any order removes one entry with the least insertion time, or nothing when none is older than now |
| Cache.SetTtls | crates/border-dns-cache/src/lib.rs:252-255 | the loop rewrites every answer's TTL and nothing else |

## Left out

- Servers, upstream clients, TLS, HTTP, QUIC, sockets, async tasks, channels, logging and metrics: plumbing over libraries that are not in the repository.
- Configuration, manifests, fact stores and the command line: file handling and printing.
- Governance, thresholds and route scoring: decisions of one evaluation that a case split settles, and scores in 32-bit floating point.
- GeoIP tables, domain lists, the hosts table, probes, answer reordering and the connection pool: they would add only easy members.
- Loading rules from readers and files, the constructor from exact names and suffixes, and `is_empty` of the matcher: loops around `AddPattern`.
- Glob.Lower: folds ASCII letters only; the Unicode case mapping of other characters is not modelled.
- Trie.BlockMatcher.MatchNode: records a result once after the evaluation, where the program does so before each return; the table's contents and the order of the search are the same.
- Glob.LabelMatchesGlob: works on characters, where the program works on UTF-8 bytes; they differ only in how a position is counted.
- NameRead.ReadName: takes the reader's buffer and the message to be one and the same slice, as all callers pass them.
- NameWrite.CompressedMessageReadsBack: needs suffix hashes without collision and pointer targets below 0x4000, because the code checks neither; `PointerReadsBackIff` covers the other runs name by name.
- One-field accessors of messages and headers (`is_response`, `first_question` and the like), names of types and routes: nothing to prove about them.
- Saved reader positions, `is_compression_pointer`, writer capacities and `wire_size_estimate`: unused by the modelled paths or only about allocation.
- The reason strings inside errors: only the error kinds and their numbers are kept.
- Cache.RouteScopedCache.GetScoped: does not model interleavings inside the concurrent map; each operation is one step at one time. The wrappers that fix the fallback route are left out.
- Cache.RouteScopedCache.EvictOldest: reads the clock once for the whole insertion, where the program reads it again when it stores the entry.
- `CachedResponse::from_parts`, which can pair any bytes with any message, and shared ownership of stored answers.
- The quality of the suffix hash and of the cache's key hash.
