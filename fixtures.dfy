/** The two fixture tests of the sign-proposal envelope: the proposal at
    height 12345, round 23456, stamped 2018-02-11T07:09:22.765Z, with parts
    header {111, "blockparts"}, proof-of-lock round -1 and neither
    proof-of-lock block nor signature, serialises to exactly 50 bytes, and
    those 50 bytes decode to it. */
module Fixtures {
  import opened Scalars
  import opened WireFormat
  import opened ProposalCodec

  /** "blockparts" as bytes. */
  const BLOCKPARTS: seq<byte> := [0x62, 0x6c, 0x6f, 0x63, 0x6b, 0x70, 0x61, 0x72, 0x74, 0x73]

  /** 2018-02-11T07:09:22.765Z as seconds and nanoseconds since the epoch. */
  const FIXTURE_TIME: Time := Time(1518332962, 765000000)

  const FIXTURE_PARTS: PartsSetHeader := PartsSetHeader(111, BLOCKPARTS)

  const FIXTURE_PROPOSAL: Proposal :=
    Proposal(12345, 23456, Some(FIXTURE_TIME), Some(FIXTURE_PARTS), -1, None, None)

  const FIXTURE_MSG: SignProposalMsg := SignProposalMsg(Some(FIXTURE_PROPOSAL))

  /** The expected encoding, in the four rows in which the fixture lists it. */
  const FIXTURE_ROW_1: seq<byte> :=
    [0x31, 0x5d, 0x48, 0x70, 0x04, 0x0a, 0x2b, 0x08, 0xf2, 0xc0, 0x01, 0x10, 0xc0, 0xee, 0x02]
  const FIXTURE_ROW_2: seq<byte> :=
    [0x1a, 0x0e, 0x09, 0x22, 0xec, 0x7f, 0x5a, 0x00, 0x00, 0x00, 0x00, 0x15, 0x40, 0xf9, 0x98]
  const FIXTURE_ROW_3: seq<byte> :=
    [0x2d, 0x22, 0x0f, 0x08, 0xde, 0x01, 0x12, 0x0a, 0x62, 0x6c, 0x6f, 0x63, 0x6b, 0x70, 0x61]
  const FIXTURE_ROW_4: seq<byte> := [0x72, 0x74, 0x73, 0x28, 0x01]

  const FIXTURE_BYTES: seq<byte> := FIXTURE_ROW_1 + FIXTURE_ROW_2 + FIXTURE_ROW_3 + FIXTURE_ROW_4

  /** The timestamp's two records: key 0x09 and eight bytes of seconds, key
      0x15 and four bytes of nanoseconds. */
  const FIXTURE_TIME_BYTES: seq<byte> :=
    ([0x09] + [0x22, 0xec, 0x7f, 0x5a, 0x00, 0x00, 0x00, 0x00]) + ([0x15] + [0x40, 0xf9, 0x98, 0x2d])

  /** The parts header's two records: key 0x08 and the ZigZag varint of 111,
      key 0x12, length 10 and the hash. */
  const FIXTURE_PARTS_BYTES: seq<byte> := ([0x08] + [0xde, 0x01]) + ([0x12] + ([0x0a] + BLOCKPARTS))

  /** The proposal's five records, each a key and its payload. */
  const HEIGHT_RECORD: seq<byte> := [0x08, 0xf2, 0xc0, 0x01]
  const ROUND_RECORD: seq<byte> := [0x10, 0xc0, 0xee, 0x02]
  const TIME_RECORD: seq<byte> := [0x1a, 0x0e] + FIXTURE_TIME_BYTES
  const PARTS_RECORD: seq<byte> := [0x22, 0x0f] + FIXTURE_PARTS_BYTES
  const POL_ROUND_RECORD: seq<byte> := [0x28, 0x01]

  /** The 43-byte proposal: its records in field order. */
  const PROPOSAL_BYTES: seq<byte> :=
    HEIGHT_RECORD + (ROUND_RECORD + (TIME_RECORD + (PARTS_RECORD + POL_ROUND_RECORD)))

  /** The frame: length 49, the prefix, then the envelope's one field, key
      0x0a, length 43 and the proposal. */
  const ENVELOPE_BYTES: seq<byte> := [0x31] + AMINO_PREFIX + ([0x0a] + ([0x2b] + PROPOSAL_BYTES))

  // ---------------------------------------------------------------------------
  // Scalars of the fixture
  // ---------------------------------------------------------------------------

  lemma TwoByteVarint(x: nat)
    requires 0x80 <= x < 0x4000
    ensures VarintEncode(x) == [x % 0x80 + 0x80, x / 0x80]
  {
    assert VarintEncode(x / 0x80) == [x / 0x80];
  }

  lemma ThreeByteVarint(x: nat)
    requires 0x4000 <= x < 0x20_0000
    ensures VarintEncode(x) == [x % 0x80 + 0x80, x / 0x80 % 0x80 + 0x80, x / 0x4000]
  {
    assert x / 0x80 / 0x80 == x / 0x4000;
    TwoByteVarint(x / 0x80);
  }

  /** The sint64 values of the fixture after ZigZag and varint encoding. */
  lemma SignedVarintFixtures()
    ensures VarintEncode(ZigZag(12345)) == [0xf2, 0xc0, 0x01]
    ensures VarintEncode(ZigZag(23456)) == [0xc0, 0xee, 0x02]
    ensures VarintEncode(ZigZag(111)) == [0xde, 0x01]
    ensures VarintEncode(ZigZag(-1)) == [0x01]
  {
    assert ZigZag(12345) == 24690 && ZigZag(23456) == 46912;
    assert ZigZag(111) == 222 && ZigZag(-1) == 1;
    ThreeByteVarint(24690);
    ThreeByteVarint(46912);
    TwoByteVarint(222);
  }

  /** Keys of the proposal's fields 1 to 5. */
  lemma ProposalKeyFixtures()
    ensures VarintEncode(Key(HEIGHT, Varint)) == [0x08]
    ensures VarintEncode(Key(ROUND, Varint)) == [0x10]
    ensures VarintEncode(Key(TIMESTAMP, LengthDelimited)) == [0x1a]
    ensures VarintEncode(Key(BLOCK_PARTS_HEADER, LengthDelimited)) == [0x22]
    ensures VarintEncode(Key(POL_ROUND, Varint)) == [0x28]
  {
    ShortKey(HEIGHT, Varint);
    ShortKey(ROUND, Varint);
    ShortKey(TIMESTAMP, LengthDelimited);
    ShortKey(BLOCK_PARTS_HEADER, LengthDelimited);
    ShortKey(POL_ROUND, Varint);
  }

  /** The seconds as eight little-endian bytes, the nanoseconds as four. */
  lemma FixedFixtures()
    ensures LittleEndian(1518332962, 8) == [0x22, 0xec, 0x7f, 0x5a, 0x00, 0x00, 0x00, 0x00]
    ensures LittleEndian(765000000, 4) == [0x40, 0xf9, 0x98, 0x2d]
  {
    assert LittleEndian(0, 4) == [0x00, 0x00, 0x00, 0x00];
    assert LittleEndian(1518332962, 8) == [0x22, 0xec, 0x7f, 0x5a] + LittleEndian(0, 4);
  }

  // ---------------------------------------------------------------------------
  // The nested messages and the proposal's records
  // ---------------------------------------------------------------------------

  /** The 14-byte timestamp: sfixed64 seconds under key 0x09, sfixed32 nanos
      under key 0x15. */
  lemma TimeFixture()
    ensures EncodeTime(FIXTURE_TIME) == FIXTURE_TIME_BYTES
  {
    var a := Field(1, Fixed64Value(1518332962));
    var b := Field(2, Fixed32Value(765000000));
    assert TimeFields(FIXTURE_TIME) == [a] + [b];
    EncodeFieldsConcat([a], [b]);
    EncodeFieldsSingle(a);
    EncodeFieldsSingle(b);
    FixedFixtures();
    ShortKey(1, Fixed64);
    ShortKey(2, Fixed32);
  }

  /** The 15-byte parts header: sint64 total, then the hash as bytes. */
  lemma PartsFixture()
    ensures EncodePartsSetHeader(FIXTURE_PARTS) == FIXTURE_PARTS_BYTES
  {
    var a := Field(1, VarintValue(222));
    var b := Field(2, BytesValue(BLOCKPARTS));
    assert PartsSetHeaderFields(FIXTURE_PARTS) == [a] + [b];
    EncodeFieldsConcat([a], [b]);
    EncodeFieldsSingle(a);
    EncodeFieldsSingle(b);
    TwoByteVarint(222);
  }

  /** A proposal with fields 1 to 5 each written once and fields 6 and 7
      absent yields those five fields in order. */
  lemma FiveProposalFields(p: Proposal, a: Field, b: Field, c: Field, d: Field, e: Field)
    requires SInt64Field(HEIGHT, p.height) == [a]
    requires SInt64Field(ROUND, p.round) == [b]
    requires OptionalField(TIMESTAMP, EncodedTime(p.timestamp)) == [c]
    requires OptionalField(BLOCK_PARTS_HEADER, EncodedPartsSetHeader(p.blockPartsHeader)) == [d]
    requires SInt64Field(POL_ROUND, p.polRound) == [e]
    requires p.polBlockId.None? && p.signature.None?
    ensures ProposalFields(p) == [a, b, c, d, e]
  {
    assert ProposalHeadFields(p) == [a] + [b] + [c] + [d] + [e];
    assert ProposalFields(p) == ProposalHeadFields(p) + [] + [];
  }

  /** The fields the fixture proposal yields: heights and rounds after
      ZigZag, the two nested messages, and nothing after field 5. */
  lemma ProposalFieldsFixture()
    ensures ProposalFields(FIXTURE_PROPOSAL) == [
      Field(HEIGHT, VarintValue(24690)),
      Field(ROUND, VarintValue(46912)),
      Field(TIMESTAMP, BytesValue(FIXTURE_TIME_BYTES)),
      Field(BLOCK_PARTS_HEADER, BytesValue(FIXTURE_PARTS_BYTES)),
      Field(POL_ROUND, VarintValue(1))]
  {
    TimeFixture();
    PartsFixture();
    FiveProposalFields(FIXTURE_PROPOSAL,
      Field(HEIGHT, VarintValue(24690)),
      Field(ROUND, VarintValue(46912)),
      Field(TIMESTAMP, BytesValue(FIXTURE_TIME_BYTES)),
      Field(BLOCK_PARTS_HEADER, BytesValue(FIXTURE_PARTS_BYTES)),
      Field(POL_ROUND, VarintValue(1)));
  }

  lemma EncodeFiveFields(a: Field, b: Field, c: Field, d: Field, e: Field)
    ensures EncodeFields([a, b, c, d, e])
            == EncodeField(a) + (EncodeField(b) + (EncodeField(c) + (EncodeField(d) + EncodeField(e))))
  {
    assert [a, b, c, d, e][1..] == [b, c, d, e];
    assert EncodeFields([a, b, c, d, e]) == EncodeField(a) + EncodeFields([b, c, d, e]);
    assert [b, c, d, e][1..] == [c, d, e];
    assert EncodeFields([b, c, d, e]) == EncodeField(b) + EncodeFields([c, d, e]);
    assert [c, d, e][1..] == [d, e];
    assert EncodeFields([c, d, e]) == EncodeField(c) + EncodeFields([d, e]);
    assert [d, e][1..] == [e];
    assert EncodeFields([d, e]) == EncodeField(d) + EncodeFields([e]);
    EncodeFieldsSingle(e);
  }

  lemma ScalarRecordFixtures()
    ensures EncodeField(Field(HEIGHT, VarintValue(24690))) == HEIGHT_RECORD
    ensures EncodeField(Field(ROUND, VarintValue(46912))) == ROUND_RECORD
    ensures EncodeField(Field(POL_ROUND, VarintValue(1))) == POL_ROUND_RECORD
  {
    ProposalKeyFixtures();
    ThreeByteVarint(24690);
    ThreeByteVarint(46912);
  }

  lemma MessageRecordFixtures()
    ensures EncodeField(Field(TIMESTAMP, BytesValue(FIXTURE_TIME_BYTES))) == TIME_RECORD
    ensures EncodeField(Field(BLOCK_PARTS_HEADER, BytesValue(FIXTURE_PARTS_BYTES))) == PARTS_RECORD
  {
    ProposalKeyFixtures();
    assert |FIXTURE_TIME_BYTES| == 14 && |FIXTURE_PARTS_BYTES| == 15;
  }

  /** The 43-byte proposal that follows 0a 2b in the envelope. */
  lemma ProposalFixture()
    ensures EncodeProposal(FIXTURE_PROPOSAL) == PROPOSAL_BYTES
  {
    var fs := [
      Field(HEIGHT, VarintValue(24690)),
      Field(ROUND, VarintValue(46912)),
      Field(TIMESTAMP, BytesValue(FIXTURE_TIME_BYTES)),
      Field(BLOCK_PARTS_HEADER, BytesValue(FIXTURE_PARTS_BYTES)),
      Field(POL_ROUND, VarintValue(1))];
    assert ProposalFields(FIXTURE_PROPOSAL) == fs by {
      ProposalFieldsFixture();
    }
    EncodeFiveFields(fs[0], fs[1], fs[2], fs[3], fs[4]);
    ScalarRecordFixtures();
    MessageRecordFixtures();
  }

  /** Where the records fall in the fixture's rows: the first row is the
      frame, the envelope's key and length, and the height and round records;
      the timestamp record ends one byte into the third row and the parts
      header record three bytes into the fourth. */
  lemma RowBoundaries()
    ensures FIXTURE_ROW_1 == [0x31] + AMINO_PREFIX + ([0x0a] + [0x2b]) + (HEIGHT_RECORD + ROUND_RECORD)
    ensures FIXTURE_ROW_2 + FIXTURE_ROW_3[..1] == TIME_RECORD
    ensures FIXTURE_ROW_3[1..] + FIXTURE_ROW_4[..3] == PARTS_RECORD
    ensures FIXTURE_ROW_4[3..] == POL_ROUND_RECORD
  {
    assert FIXTURE_ROW_1 == [0x31] + AMINO_PREFIX + ([0x0a] + [0x2b]) + (HEIGHT_RECORD + ROUND_RECORD);
    assert FIXTURE_ROW_2 + FIXTURE_ROW_3[..1] == TIME_RECORD;
    assert FIXTURE_ROW_3[1..] + FIXTURE_ROW_4[..3] == PARTS_RECORD;
  }

  /** Four rows cut at other places than the records they hold still spell
      out those records in order. */
  lemma Regroup(r1: seq<byte>, r2: seq<byte>, r3: seq<byte>, r4: seq<byte>,
                t: seq<byte>, p: seq<byte>, last: seq<byte>)
    requires 1 <= |r3| && 3 <= |r4|
    requires r2 + r3[..1] == t && r3[1..] + r4[..3] == p && r4[3..] == last
    ensures r1 + r2 + r3 + r4 == r1 + (t + (p + last))
  {
    assert r3 == r3[..1] + r3[1..];
    assert r4 == r4[..3] + r4[3..];
  }

  /** The record constants, laid end to end, are the four rows of the
      fixture. */
  lemma FixtureLayout()
    ensures FIXTURE_BYTES == ENVELOPE_BYTES
  {
    RowBoundaries();
    Regroup(FIXTURE_ROW_1, FIXTURE_ROW_2, FIXTURE_ROW_3, FIXTURE_ROW_4,
            TIME_RECORD, PARTS_RECORD, POL_ROUND_RECORD);
  }

  /** The envelope's one field: key 0x0a, length 43, the proposal. */
  lemma EnvelopeRecord(proposal: seq<byte>)
    requires |proposal| == 43
    ensures EncodeField(Field(1, BytesValue(proposal))) == [0x0a] + ([0x2b] + proposal)
  {
    assert VarintEncode(Key(1, LengthDelimited)) == [0x0a];
    assert VarintEncode(|proposal|) == [0x2b];
  }

  lemma BodyFixture()
    ensures EncodeBody(FIXTURE_MSG) == [0x0a] + ([0x2b] + PROPOSAL_BYTES)
  {
    var proposal := PROPOSAL_BYTES;
    var f := Field(1, BytesValue(proposal));
    assert EnvelopeFields(FIXTURE_MSG) == [f] by {
      ProposalFixture();
    }
    EnvelopeRecord(proposal);
    EncodeFieldsSingle(f);
  }

  /** Serialising the fixture envelope gives exactly the 50 bytes. */
  lemma SerializationFixture()
    ensures Encode(FIXTURE_MSG) == FIXTURE_BYTES
  {
    var body := EncodeBody(FIXTURE_MSG);
    BodyFixture();
    assert |body| == 45;
    assert VarintEncode(|AMINO_PREFIX| + |body|) == [0x31];
    assert Encode(FIXTURE_MSG) == ENVELOPE_BYTES;
    FixtureLayout();
  }

  /** Deserialising the 50 bytes gives the fixture envelope back. */
  lemma DeserializationFixture()
    ensures Decode(FIXTURE_BYTES) == Some(FIXTURE_MSG)
  {
    SerializationFixture();
    ProposalFixture();
    PartsFixture();
    assert MsgFits(FIXTURE_MSG);
    RoundTrip(FIXTURE_MSG);
  }
}
