# Sign-proposal envelope codec (tmkms `types/proposal.rs`)

This project models how the key-management service's `SignProposalMsg` and the
consensus `Proposal` it carries are written to and read from the wire, and it
proves properties of that model in Dafny. The source declares both messages with prost
field attributes and tags the envelope with an Amino type name. Its two tests
fix the exact 50-byte encoding of one proposal and the decoding of those bytes.
The model spells out the encoding those attributes imply:

- Protocol Buffers base-128 varints, ZigZag `sint64`, little-endian `sfixed64`/`sfixed32`, keys `number << 3 | wire type`, and length-delimited nested messages;
- proto3 omission of default scalars and of absent optional messages;
- the Amino frame: the varint length of what follows, the 4-byte prefix `5d 48 70 04` registered for `tendermint/socketpv/SignProposalMsg`, then the envelope body.

Decoding is modelled too. It reads the frame, parses records, and merges them
into default-valued messages as prost does: a repeated scalar overwrites, a
repeated message merges, an unknown field is skipped, and a known field with
the wrong wire type fails.

Files:

- `scalars.dfy` (`Scalars`): integer ranges, varints, ZigZag, two's complement, little-endian words.
- `wire_format.dfy` (`WireFormat`): wire types, keys, field records, the record parser, and the left fold used to merge parsed fields.
- `proposal_codec.dfy` (`ProposalCodec`): the five message types, `Encode`/`Decode` and their properties.
- `fixtures.dfy` (`Fixtures`): the two fixture tests, proved.
- `encoder.dfy` (`Encoder`): a `Buffer` class with appending methods, mirroring `encode(&mut got)` on a `Vec<u8>`. Each method is proved to append exactly what `Encode` describes.

Facts about the encoding that the fixture pins and the model follows:

- The frame is the varint `0x31` (49, the length of what follows), the prefix `5d 48 70 04`, then the body, 50 bytes in all for the fixture.
- `Time` is key `0x09` and 8 little-endian bytes of `sfixed64` seconds, then key `0x15` and 4 little-endian bytes of `sfixed32` nanoseconds.
- The signature is field 7 of `Proposal` (`src/types/proposal.rs:21-22`).
- A `pol_round` of 0 writes no bytes, while -1 writes `28 01`.

## Model

| member | source | states |
|---|---|---|
| Scalars.VarintEncode | src/types/proposal.rs:9-12 | a varint is non-empty, every byte but the last has the continuation bit, the last does not, and it is one byte exactly when the value is below 128 |
| Scalars.VarintLength64 | src/types/proposal.rs:9-12 | every 64-bit value takes at most 10 varint bytes |
| Scalars.ReadVarint | src/types/proposal.rs:116 | a decoded varint consumes between 1 and 10 bytes of the input |
| Scalars.UnterminatedVarint | src/types/proposal.rs:116 | bytes that all carry the continuation bit are refused as a varint |
| Scalars.VarintPrefixRefused | src/types/proposal.rs:116 | every proper prefix of a varint is refused |
| Scalars.VarintRoundTrip | src/types/proposal.rs:109-117 | reading a 64-bit value's varint gives the value and its length back, leaving what follows unread |
| Scalars.ZigZag | src/types/proposal.rs:17-18 | the low bit of the code is the sign, and the remaining bits are the magnitude (minus one for negatives) |
| Scalars.ZigZagRoundTrip | src/types/proposal.rs:9-12 | ZigZag decoding inverts ZigZag encoding on every int64 |
| Scalars.ZigZagDecodeRoundTrip | src/types/proposal.rs:9-12 | ZigZag encoding inverts ZigZag decoding on every uint64, so the map is a bijection |
| Scalars.ZigZagCompact | src/types/proposal.rs:67 | n and -n get adjacent codes, so small negative rounds stay short |
| Scalars.Unsigned64 | src/types/proposal.rs:55-56 | the unsigned reinterpretation of an int64 agrees with it modulo 2^64 |
| Scalars.Signed64 | src/types/proposal.rs:55-56 | the signed reinterpretation of a uint64 agrees with it modulo 2^64 |
| Scalars.Unsigned32 | src/types/proposal.rs:57 | the unsigned reinterpretation of an int32 agrees with it modulo 2^32 |
| Scalars.Signed32 | src/types/proposal.rs:57 | the signed reinterpretation of a uint32 agrees with it modulo 2^32 |
| Scalars.TwosComplementRoundTrip | src/types/proposal.rs:55-57 | signed and unsigned reinterpretations invert each other in both directions, at 64 bits for the seconds and at 32 bits for the nanos |
| Scalars.LittleEndian | src/types/proposal.rs:78 | a fixed-width word has exactly the requested number of bytes |
| Scalars.FromLittleEndian | src/types/proposal.rs:78 | n bytes read back a value below 256^n |
| Scalars.LittleEndianRoundTrip | src/types/proposal.rs:77-78 | reading back the n low bytes of a value below 256^n gives the value |
| Scalars.FromLittleEndianRoundTrip | src/types/proposal.rs:77-78 | writing back the value read from any bytes gives those bytes |
| Scalars.Pow256Widths | src/types/proposal.rs:77-78 | 4 and 8 bytes hold exactly the 32- and 64-bit ranges |
| WireFormat.Key | src/types/proposal.rs:9-22 | a key carries the field number in its high bits and the wire-type code in its low three bits |
| WireFormat.ShortKey | src/types/proposal.rs:77-80 | a field numbered below 16 has the one-byte key `number * 8 + wire type` |
| WireFormat.EncodeFieldsConcat | src/types/proposal.rs:9-22 | the encoding of two field lists is the concatenation of their encodings |
| WireFormat.EncodeFieldsPrefix | src/types/proposal.rs:9-22 | encoding one more field of a list appends exactly its record |
| WireFormat.ReadPayload | src/types/proposal.rs:116 | a payload read never consumes more than the input, and its value has the wire type the key named |
| WireFormat.ReadField | src/types/proposal.rs:116 | a record read consumes at least one byte and no more than the input, and yields a well-formed field (number at least 1 and below 2^29) |
| WireFormat.ParseFields | src/types/proposal.rs:116 | every field the parser yields is well formed |
| WireFormat.ReadPayloadEncode | src/types/proposal.rs:116 | a payload is read back as the value that was written, whatever follows it |
| WireFormat.ReadFieldEncode | src/types/proposal.rs:116 | a record is read back as the field that was written, consuming exactly its bytes |
| WireFormat.ParseFieldsEncode | src/types/proposal.rs:116 | parsing the encoding of well-formed fields gives exactly those fields back |
| WireFormat.FoldConcat | src/types/proposal.rs:116 | merging two field lists in turn is merging their concatenation |
| WireFormat.FoldThen | src/types/proposal.rs:116 | merging a list and then a second list reaches the state the two steps reach |
| WireFormat.FoldOptional | src/types/proposal.rs:116 | an omitted field leaves the message unchanged, and a present one applies its merge once |
| WireFormat.AllWellFormedConcat | src/types/proposal.rs:9-22 | concatenating well-formed field lists keeps them well formed |
| WireFormat.AscendingAppend | src/types/proposal.rs:9-22 | appending at most one field numbered above all earlier ones keeps the order ascending |
| ProposalCodec.TimeLength | src/types/proposal.rs:13-14 | a timestamp encodes to at most 14 bytes |
| ProposalCodec.TimeRoundTrip | src/types/proposal.rs:13-14 | a timestamp decodes back from its encoding |
| ProposalCodec.PartsSetHeaderRoundTrip | src/types/proposal.rs:15-16 | a parts header decodes back from its encoding |
| ProposalCodec.BlockIDRoundTrip | src/types/proposal.rs:19-20 | a block id, with or without its parts header, decodes back from its encoding |
| ProposalCodec.OptionalFieldWellFormed | src/types/proposal.rs:13-22 | an optional message field yields at most one well-formed record |
| ProposalCodec.SInt64FieldWellFormed | src/types/proposal.rs:9-18 | a sint64 field yields at most one well-formed record |
| ProposalCodec.ProposalFieldsWellFormed | src/types/proposal.rs:7-23 | every record of a proposal whose lengths fit is one the parser accepts back |
| ProposalCodec.FoldHeight | src/types/proposal.rs:9-10 | merging the height record, or its omission at zero, sets exactly the height |
| ProposalCodec.FoldRound | src/types/proposal.rs:11-12 | merging the round record, or its omission at zero, sets exactly the round |
| ProposalCodec.FoldTimestamp | src/types/proposal.rs:13-14 | merging the timestamp record, or its absence, sets exactly the timestamp |
| ProposalCodec.FoldBlockPartsHeader | src/types/proposal.rs:15-16 | merging the parts-header record, or its absence, sets exactly that field |
| ProposalCodec.FoldPolRound | src/types/proposal.rs:17-18 | merging the pol_round record, or its omission at zero, sets exactly pol_round |
| ProposalCodec.FoldPolBlockId | src/types/proposal.rs:19-20 | merging the pol_block_id record, or its absence, sets exactly that field |
| ProposalCodec.FoldSignature | src/types/proposal.rs:21-22 | merging the signature record, or its absence, sets exactly the signature |
| ProposalCodec.ProposalRoundTrip | src/types/proposal.rs:7-23 | every proposal whose lengths fit decodes back from its encoding |
| ProposalCodec.EnvelopeBody | src/types/proposal.rs:29-32 | a present proposal is one record of field 1: key, length, then the proposal's bytes |
| ProposalCodec.Unframe | src/types/proposal.rs:116 | an accepted frame is longer than the body and prefix it yields |
| ProposalCodec.UnframeFrame | src/types/proposal.rs:25-28 | reading the Amino frame gives back the body it wraps |
| ProposalCodec.RoundTrip | src/types/proposal.rs:87-120 | decode(encode(m)) == m for every envelope whose lengths fit |
| ProposalCodec.EncodeInjective | src/types/proposal.rs:53-84 | two envelopes with the same encoding are equal |
| ProposalCodec.UnknownPrefixRefused | src/types/proposal.rs:25-28 | a frame that carries any other 4-byte prefix is refused |
| ProposalCodec.LengthMismatchRefused | src/types/proposal.rs:116 | a frame whose length varint disagrees with the bytes that follow is refused |
| ProposalCodec.CutFrameRefused | src/types/proposal.rs:116 | a frame cut anywhere before its end is refused, whether the cut falls inside the length varint or after it |
| ProposalCodec.TruncationRefused | src/types/proposal.rs:116 | every proper prefix of an envelope's encoding is refused |
| ProposalCodec.DefaultsOmitted | src/types/proposal.rs:29-32 | the default proposal writes no bytes, an envelope without a proposal is the bare frame `04 5d 48 70 04`, and a present default proposal is still the record `0a 00` |
| ProposalCodec.ProposalFieldsAscending | src/types/proposal.rs:9-22 | a proposal's records come out in ascending field-number order |
| ProposalCodec.PolBlockIdOmitted | src/types/proposal.rs:19-20 | an absent pol_block_id adds no bytes, and a present one is exactly one field-6 record, making the encoding strictly longer |
| ProposalCodec.SignatureAppended | src/types/proposal.rs:121-122 | a present signature adds one record after all other fields and changes nothing before it |
| ProposalCodec.SignatureRecord | src/types/proposal.rs:21-22 | the signature record is key `0x3a`, the varint length, then the raw bytes |
| ProposalCodec.UnsignedProposalEndsWithPolRound | src/types/proposal.rs:67-69 | without pol_block_id or signature, a proposal with pol_round -1 ends in `28 01` |
| Fixtures.SignedVarintFixtures | src/types/proposal.rs:60-67 | 12345, 23456, 111 and -1 go to `f2 c0 01`, `c0 ee 02`, `de 01` and `01` after ZigZag and varint |
| Fixtures.ProposalKeyFixtures | src/types/proposal.rs:76-80 | the keys of proposal fields 1 to 5 are `08 10 1a 22 28` |
| Fixtures.FixedFixtures | src/types/proposal.rs:77-78 | 1518332962 and 765000000 as eight and four little-endian bytes |
| Fixtures.TimeFixture | src/types/proposal.rs:54-58 | the fixture timestamp encodes to its 14 bytes |
| Fixtures.PartsFixture | src/types/proposal.rs:62-65 | the fixture parts header encodes to its 15 bytes |
| Fixtures.ProposalFieldsFixture | src/types/proposal.rs:59-70 | the fixture proposal yields five records, fields 1 to 5, and nothing for fields 6 and 7 |
| Fixtures.ScalarRecordFixtures | src/types/proposal.rs:76-80 | the height, round and pol_round records are `08 f2 c0 01`, `10 c0 ee 02` and `28 01` |
| Fixtures.MessageRecordFixtures | src/types/proposal.rs:77-79 | the timestamp and parts-header records are `1a 0e` and `22 0f`, each followed by its message's bytes |
| Fixtures.EnvelopeRecord | src/types/proposal.rs:76 | a 43-byte proposal is carried as `0a 2b` and its bytes |
| Fixtures.ProposalFixture | src/types/proposal.rs:76-80 | the fixture proposal encodes to its five records in field order, 43 bytes |
| Fixtures.BodyFixture | src/types/proposal.rs:76 | the fixture envelope body is `0a 2b` and the 43 proposal bytes |
| Fixtures.RowBoundaries | src/types/proposal.rs:76-81 | the first row of the expected bytes is the frame, `0a 2b` and the height and round records; the timestamp, parts-header and pol_round records run on across the other rows |
| Fixtures.FixtureLayout | src/types/proposal.rs:76-81 | the four rows of the expected bytes are `31`, the prefix `5d 48 70 04`, `0a 2b` and the proposal's records |
| Fixtures.SerializationFixture | src/types/proposal.rs:53-84 | encoding the fixture envelope gives exactly the 50 expected bytes |
| Fixtures.DeserializationFixture | src/types/proposal.rs:87-120 | decoding the 50 bytes gives the fixture envelope |
| Encoder.Buffer.constructor | src/types/proposal.rs:71 | a new buffer is empty |
| Encoder.Buffer.PutSlice | src/types/proposal.rs:71-75 | appends the given bytes and changes nothing else |
| Encoder.Buffer.PutVarint | src/types/proposal.rs:71-75 | the seven-bits-at-a-time loop appends exactly the value's varint |
| Encoder.Buffer.PutPayload | src/types/proposal.rs:71-75 | appends exactly the payload of a value's wire type |
| Encoder.Buffer.PutField | src/types/proposal.rs:71-75 | appends exactly the key and payload of a record |
| Encoder.Buffer.PutFields | src/types/proposal.rs:71-75 | the loop appends exactly the records of a field list, in order |
| Encoder.EncodeInto | src/types/proposal.rs:71-75 | writing an envelope into a caller's buffer appends exactly its encoding |
| Encoder.EncodeToVec | src/types/proposal.rs:71-75 | encoding into a fresh buffer yields the envelope's encoding, which decodes back to the envelope |

## Left out

- `sign_bytes` and `set_signature` (`src/types/proposal.rs:34-44`) are not modelled. Both are `unimplemented!()`, so the source gives them no behaviour.
- Ed25519 signing and verification are not modelled; they are foreign cryptography.
- Deriving the 4-byte prefix from the Amino name by SHA-256 is not modelled. The prefix is the constant `5d 48 70 04`, as the fixture shows it.
- chrono date parsing is not modelled. The fixture timestamp appears as its seconds (1518332962) and nanoseconds (765000000).
- The unused `SystemTime`, `UNIX_EPOCH` and `encode_upper` imports are not modelled.
- The bytes of a present `signature` and `pol_block_id` are inferred, and no fixture pins them.
  - The signature is modelled as a plain length-delimited field 7, following the TODO at `src/types/proposal.rs:121-122`.
  - prost's own message encoding of `Option<Vec<u8>>` as a wrapped `BytesValue` is not modelled.
  - The `BlockID` layout (hash as field 1, parts header as field 2) is taken from Tendermint's `BlockID` schema. That schema is outside the modelled source, and no fixture pins it.
- Wire types 3 and 4 (groups) are refused by the decoder rather than skipped.
- Decode errors are a single `None`; prost's specific error variants are not modelled.
- Decoding insists that the frame length covers exactly the rest of the input. No test shows how trailing bytes or a short frame are treated at the Amino layer.
- `encode` can fail with a capacity error on a fixed-size `BufMut`. A `Vec<u8>` grows, so `Encoder.EncodeInto` has no error path.
- Encoder.EncodeInto: requires that every length fits in 64 bits (`MsgFits`), which holds for any message a real buffer can store.
- ProposalCodec.RoundTrip: requires the same 64-bit length bound, for the same reason.
- Scalars.ReadVarint: accepts an overlong ten-byte varint whose last byte is above 0x01 and folds the value modulo 2^64. Newer prost decoders refuse such input; the decoder of the prost version in use is not part of this model.
