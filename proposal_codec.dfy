/** The canonical types of a consensus proposal and their encoding: each
    message is a Protocol Buffers message whose fields are emitted in
    ascending field-number order, proto3 style (a scalar at its default value
    and an absent optional message are left out), and the sign-proposal
    envelope is framed for Amino as
      varint(length of the rest) ++ 4-byte type prefix ++ body. */
module ProposalCodec {
  import opened Scalars
  import opened WireFormat

  datatype Time = Time(seconds: int64, nanos: int32)

  datatype PartsSetHeader = PartsSetHeader(total: int64, hash: seq<byte>)

  datatype BlockID = BlockID(hash: seq<byte>, partsHeader: Option<PartsSetHeader>)

  datatype Proposal = Proposal(
    height: int64,
    round: int64,
    timestamp: Option<Time>,
    blockPartsHeader: Option<PartsSetHeader>,
    polRound: int64,
    polBlockId: Option<BlockID>,
    signature: Option<seq<byte>>)

  datatype SignProposalMsg = SignProposalMsg(proposal: Option<Proposal>)

  /** The registered Amino name of the envelope. */
  const AMINO_NAME: string := "tendermint/socketpv/SignProposalMsg"

  /** The prefix registered for AMINO_NAME. */
  const AMINO_PREFIX: seq<byte> := [0x5d, 0x48, 0x70, 0x04]

  // Field numbers. Proposal's fields are numbered consecutively from 1.
  const HEIGHT: nat := 1
  const ROUND: nat := 2
  const TIMESTAMP: nat := 3
  const BLOCK_PARTS_HEADER: nat := 4
  const POL_ROUND: nat := 5
  const POL_BLOCK_ID: nat := 6
  const SIGNATURE: nat := 7

  // ---------------------------------------------------------------------------
  // Field builders: what each field kind contributes to a message
  // ---------------------------------------------------------------------------

  /** A sint64 field: ZigZag, then varint; nothing at zero. */
  function SInt64Field(number: nat, x: int64): seq<Field>
  {
    if x == 0 then [] else [Field(number, VarintValue(ZigZag(x)))]
  }

  /** An sfixed64 field: eight little-endian bytes; nothing at zero. */
  function SFixed64Field(number: nat, x: int64): seq<Field>
  {
    if x == 0 then [] else [Field(number, Fixed64Value(Unsigned64(x)))]
  }

  /** An sfixed32 field: four little-endian bytes; nothing at zero. */
  function SFixed32Field(number: nat, x: int32): seq<Field>
  {
    if x == 0 then [] else [Field(number, Fixed32Value(Unsigned32(x)))]
  }

  /** A bytes field: length-delimited; nothing when empty. */
  function BytesField(number: nat, b: seq<byte>): seq<Field>
  {
    if b == [] then [] else [Field(number, BytesValue(b))]
  }

  /** An optional field: one length-delimited record when present, even an
      empty one; nothing when absent. */
  function OptionalField(number: nat, payload: Option<seq<byte>>): seq<Field>
  {
    match payload
    case None => []
    case Some(b) => [Field(number, BytesValue(b))]
  }

  // ---------------------------------------------------------------------------
  // Encoding
  // ---------------------------------------------------------------------------

  function TimeFields(t: Time): seq<Field>
  {
    SFixed64Field(1, t.seconds) + SFixed32Field(2, t.nanos)
  }

  function EncodeTime(t: Time): seq<byte>
  {
    EncodeFields(TimeFields(t))
  }

  function PartsSetHeaderFields(h: PartsSetHeader): seq<Field>
  {
    SInt64Field(1, h.total) + BytesField(2, h.hash)
  }

  function EncodePartsSetHeader(h: PartsSetHeader): seq<byte>
  {
    EncodeFields(PartsSetHeaderFields(h))
  }

  function EncodedPartsSetHeader(h: Option<PartsSetHeader>): Option<seq<byte>>
  {
    match h
    case None => None
    case Some(x) => Some(EncodePartsSetHeader(x))
  }

  function BlockIDFields(b: BlockID): seq<Field>
  {
    BytesField(1, b.hash) + OptionalField(2, EncodedPartsSetHeader(b.partsHeader))
  }

  function EncodeBlockID(b: BlockID): seq<byte>
  {
    EncodeFields(BlockIDFields(b))
  }

  function EncodedTime(t: Option<Time>): Option<seq<byte>>
  {
    match t
    case None => None
    case Some(x) => Some(EncodeTime(x))
  }

  function EncodedBlockID(b: Option<BlockID>): Option<seq<byte>>
  {
    match b
    case None => None
    case Some(x) => Some(EncodeBlockID(x))
  }

  /** Fields 1 to 5 of a proposal. */
  function ProposalHeadFields(p: Proposal): seq<Field>
  {
    SInt64Field(HEIGHT, p.height)
    + SInt64Field(ROUND, p.round)
    + OptionalField(TIMESTAMP, EncodedTime(p.timestamp))
    + OptionalField(BLOCK_PARTS_HEADER, EncodedPartsSetHeader(p.blockPartsHeader))
    + SInt64Field(POL_ROUND, p.polRound)
  }

  function ProposalFields(p: Proposal): seq<Field>
  {
    ProposalHeadFields(p)
    + OptionalField(POL_BLOCK_ID, EncodedBlockID(p.polBlockId))
    + OptionalField(SIGNATURE, p.signature)
  }

  function EncodeProposal(p: Proposal): seq<byte>
  {
    EncodeFields(ProposalFields(p))
  }

  function EncodedProposal(p: Option<Proposal>): Option<seq<byte>>
  {
    match p
    case None => None
    case Some(x) => Some(EncodeProposal(x))
  }

  function EnvelopeFields(m: SignProposalMsg): seq<Field>
  {
    OptionalField(1, EncodedProposal(m.proposal))
  }

  /** The envelope's own fields, without Amino framing. */
  function EncodeBody(m: SignProposalMsg): seq<byte>
  {
    EncodeFields(EnvelopeFields(m))
  }

  /** A present proposal is one length-delimited record of field 1. */
  lemma EnvelopeBody(p: Proposal)
    ensures EncodeBody(SignProposalMsg(Some(p)))
            == VarintEncode(Key(1, LengthDelimited)) + (VarintEncode(|EncodeProposal(p)|) + EncodeProposal(p))
  {
    EncodeFieldsSingle(Field(1, BytesValue(EncodeProposal(p))));
  }

  /** The Amino frame: the length of prefix and body, the prefix, the body. */
  function Frame(body: seq<byte>): seq<byte>
  {
    VarintEncode(|AMINO_PREFIX| + |body|) + AMINO_PREFIX + body
  }

  function Encode(m: SignProposalMsg): seq<byte>
  {
    Frame(EncodeBody(m))
  }

  // ---------------------------------------------------------------------------
  // Decoding: fields are merged, in the order read, into a default message;
  // a repeated scalar overwrites, a repeated message merges into the value
  // already there, an unknown field is skipped, and a known field with the
  // wrong wire type fails the decode.
  // ---------------------------------------------------------------------------

  const DEFAULT_TIME: Time := Time(0, 0)
  const DEFAULT_PARTS_SET_HEADER: PartsSetHeader := PartsSetHeader(0, [])
  const DEFAULT_BLOCK_ID: BlockID := BlockID([], None)
  const DEFAULT_PROPOSAL: Proposal := Proposal(0, 0, None, None, 0, None, None)
  const DEFAULT_MSG: SignProposalMsg := SignProposalMsg(None)

  function OrDefault<T>(o: Option<T>, default: T): T
  {
    match o
    case None => default
    case Some(x) => x
  }

  function MergeTimeField(t: Time, f: Field): Option<Time>
  {
    if f.number == 1 then
      if f.value.Fixed64Value? then Some(t.(seconds := Signed64(f.value.fixed64))) else None
    else if f.number == 2 then
      if f.value.Fixed32Value? then Some(t.(nanos := Signed32(f.value.fixed32))) else None
    else Some(t)
  }

  function MergeTime(t: Time, data: seq<byte>): Option<Time>
  {
    match ParseFields(data)
    case None => None
    case Some(fs) => Fold(t, fs, MergeTimeField)
  }

  function MergePartsSetHeaderField(h: PartsSetHeader, f: Field): Option<PartsSetHeader>
  {
    if f.number == 1 then
      if f.value.VarintValue? then Some(h.(total := ZigZagDecode(f.value.varint))) else None
    else if f.number == 2 then
      if f.value.BytesValue? then Some(h.(hash := f.value.bytes)) else None
    else Some(h)
  }

  function MergePartsSetHeader(h: PartsSetHeader, data: seq<byte>): Option<PartsSetHeader>
  {
    match ParseFields(data)
    case None => None
    case Some(fs) => Fold(h, fs, MergePartsSetHeaderField)
  }

  function MergeBlockIDField(b: BlockID, f: Field): Option<BlockID>
  {
    if f.number == 1 then
      if f.value.BytesValue? then Some(b.(hash := f.value.bytes)) else None
    else if f.number == 2 then
      if f.value.BytesValue? then
        match MergePartsSetHeader(OrDefault(b.partsHeader, DEFAULT_PARTS_SET_HEADER), f.value.bytes)
        case None => None
        case Some(h) => Some(b.(partsHeader := Some(h)))
      else None
    else Some(b)
  }

  function MergeBlockID(b: BlockID, data: seq<byte>): Option<BlockID>
  {
    match ParseFields(data)
    case None => None
    case Some(fs) => Fold(b, fs, MergeBlockIDField)
  }

  function MergeProposalField(p: Proposal, f: Field): Option<Proposal>
  {
    if f.number == HEIGHT then
      if f.value.VarintValue? then Some(p.(height := ZigZagDecode(f.value.varint))) else None
    else if f.number == ROUND then
      if f.value.VarintValue? then Some(p.(round := ZigZagDecode(f.value.varint))) else None
    else if f.number == TIMESTAMP then
      if f.value.BytesValue? then
        match MergeTime(OrDefault(p.timestamp, DEFAULT_TIME), f.value.bytes)
        case None => None
        case Some(t) => Some(p.(timestamp := Some(t)))
      else None
    else if f.number == BLOCK_PARTS_HEADER then
      if f.value.BytesValue? then
        match MergePartsSetHeader(OrDefault(p.blockPartsHeader, DEFAULT_PARTS_SET_HEADER), f.value.bytes)
        case None => None
        case Some(h) => Some(p.(blockPartsHeader := Some(h)))
      else None
    else if f.number == POL_ROUND then
      if f.value.VarintValue? then Some(p.(polRound := ZigZagDecode(f.value.varint))) else None
    else if f.number == POL_BLOCK_ID then
      if f.value.BytesValue? then
        match MergeBlockID(OrDefault(p.polBlockId, DEFAULT_BLOCK_ID), f.value.bytes)
        case None => None
        case Some(b) => Some(p.(polBlockId := Some(b)))
      else None
    else if f.number == SIGNATURE then
      if f.value.BytesValue? then Some(p.(signature := Some(f.value.bytes))) else None
    else Some(p)
  }

  function MergeProposal(p: Proposal, data: seq<byte>): Option<Proposal>
  {
    match ParseFields(data)
    case None => None
    case Some(fs) => Fold(p, fs, MergeProposalField)
  }

  function DecodeProposal(data: seq<byte>): Option<Proposal>
  {
    MergeProposal(DEFAULT_PROPOSAL, data)
  }

  function MergeEnvelopeField(m: SignProposalMsg, f: Field): Option<SignProposalMsg>
  {
    if f.number == 1 then
      if f.value.BytesValue? then
        match MergeProposal(OrDefault(m.proposal, DEFAULT_PROPOSAL), f.value.bytes)
        case None => None
        case Some(p) => Some(m.(proposal := Some(p)))
      else None
    else Some(m)
  }

  function DecodeBody(data: seq<byte>): Option<SignProposalMsg>
  {
    match ParseFields(data)
    case None => None
    case Some(fs) => Fold(DEFAULT_MSG, fs, MergeEnvelopeField)
  }

  /** Reads the Amino frame: the length must cover exactly the rest of the
      input, which must start with the registered prefix. */
  function Unframe(data: seq<byte>): (r: Option<seq<byte>>)
    ensures r.Some? ==> |r.value| + |AMINO_PREFIX| < |data|
  {
    match ReadVarint(data)
    case None => None
    case Some((len, n)) =>
      if len != |data| - n || len < |AMINO_PREFIX| then None
      else if data[n..n + |AMINO_PREFIX|] != AMINO_PREFIX then None
      else Some(data[n + |AMINO_PREFIX|..])
  }

  function Decode(data: seq<byte>): Option<SignProposalMsg>
  {
    match Unframe(data)
    case None => None
    case Some(body) => DecodeBody(body)
  }

  // ---------------------------------------------------------------------------
  // Sizes the decoder can read back
  // ---------------------------------------------------------------------------

  /** Every length prefix the encoder writes fits the decoder's 64-bit
      length. */
  predicate PartsSetHeaderFits(h: PartsSetHeader)
  {
    |h.hash| < TWO_TO_64 && |EncodePartsSetHeader(h)| < TWO_TO_64
  }

  predicate BlockIDFits(b: BlockID)
  {
    && |b.hash| < TWO_TO_64
    && (b.partsHeader.Some? ==> PartsSetHeaderFits(b.partsHeader.value))
    && |EncodeBlockID(b)| < TWO_TO_64
  }

  predicate ProposalFits(p: Proposal)
  {
    && (p.blockPartsHeader.Some? ==> PartsSetHeaderFits(p.blockPartsHeader.value))
    && (p.polBlockId.Some? ==> BlockIDFits(p.polBlockId.value))
    && (p.signature.Some? ==> |p.signature.value| < TWO_TO_64)
    && |EncodeProposal(p)| < TWO_TO_64
  }

  predicate MsgFits(m: SignProposalMsg)
  {
    && (m.proposal.Some? ==> ProposalFits(m.proposal.value))
    && |AMINO_PREFIX| + |EncodeBody(m)| < TWO_TO_64
  }

  /** A timestamp is at most a one-byte key and eight bytes, then a one-byte
      key and four bytes. */
  lemma TimeLength(t: Time)
    ensures |EncodeTime(t)| <= 14
  {
    var a, b := SFixed64Field(1, t.seconds), SFixed32Field(2, t.nanos);
    EncodeFieldsConcat(a, b);
    if a != [] { EncodeFieldsSingle(a[0]); ShortKey(1, Fixed64); }
    if b != [] { EncodeFieldsSingle(b[0]); ShortKey(2, Fixed32); }
  }

  // ---------------------------------------------------------------------------
  // Round trips
  // ---------------------------------------------------------------------------

  lemma {:induction false} TimeRoundTrip(t: Time)
    ensures MergeTime(DEFAULT_TIME, EncodeTime(t)) == Some(t)
  {
    var a, b := SFixed64Field(1, t.seconds), SFixed32Field(2, t.nanos);
    assert AllWellFormed(a + b);
    ParseFieldsEncode(a + b);
    TwosComplementRoundTrip(t.seconds, t.nanos, 0, 0);
    var s1 := DEFAULT_TIME.(seconds := t.seconds);
    FoldOptional(DEFAULT_TIME, a, MergeTimeField, s1);
    FoldOptional(s1, b, MergeTimeField, t);
    FoldThen(DEFAULT_TIME, a, b, MergeTimeField, s1, t);
  }

  lemma {:induction false} PartsSetHeaderRoundTrip(h: PartsSetHeader)
    requires |h.hash| < TWO_TO_64
    ensures MergePartsSetHeader(DEFAULT_PARTS_SET_HEADER, EncodePartsSetHeader(h)) == Some(h)
  {
    var a, b := SInt64Field(1, h.total), BytesField(2, h.hash);
    assert AllWellFormed(a + b);
    ParseFieldsEncode(a + b);
    ZigZagRoundTrip(h.total);
    var s1 := DEFAULT_PARTS_SET_HEADER.(total := h.total);
    FoldOptional(DEFAULT_PARTS_SET_HEADER, a, MergePartsSetHeaderField, s1);
    FoldOptional(s1, b, MergePartsSetHeaderField, h);
    FoldThen(DEFAULT_PARTS_SET_HEADER, a, b, MergePartsSetHeaderField, s1, h);
  }

  lemma {:induction false} BlockIDRoundTrip(b: BlockID)
    requires BlockIDFits(b)
    ensures MergeBlockID(DEFAULT_BLOCK_ID, EncodeBlockID(b)) == Some(b)
  {
    var x, y := BytesField(1, b.hash), OptionalField(2, EncodedPartsSetHeader(b.partsHeader));
    assert AllWellFormed(x + y);
    ParseFieldsEncode(x + y);
    var s1 := DEFAULT_BLOCK_ID.(hash := b.hash);
    FoldOptional(DEFAULT_BLOCK_ID, x, MergeBlockIDField, s1);
    if b.partsHeader.Some? {
      PartsSetHeaderRoundTrip(b.partsHeader.value);
    }
    FoldOptional(s1, y, MergeBlockIDField, b);
    FoldThen(DEFAULT_BLOCK_ID, x, y, MergeBlockIDField, s1, b);
  }

  lemma OptionalFieldWellFormed(number: nat, payload: Option<seq<byte>>)
    requires 1 <= number <= MAX_FIELD_NUMBER
    requires payload.Some? ==> |payload.value| < TWO_TO_64
    ensures AllWellFormed(OptionalField(number, payload))
  {
  }

  lemma SInt64FieldWellFormed(number: nat, x: int64)
    requires 1 <= number <= MAX_FIELD_NUMBER
    ensures AllWellFormed(SInt64Field(number, x))
  {
  }

  lemma SevenWellFormed(f1: seq<Field>, f2: seq<Field>, f3: seq<Field>, f4: seq<Field>,
                        f5: seq<Field>, f6: seq<Field>, f7: seq<Field>)
    requires AllWellFormed(f1) && AllWellFormed(f2) && AllWellFormed(f3) && AllWellFormed(f4)
    requires AllWellFormed(f5) && AllWellFormed(f6) && AllWellFormed(f7)
    ensures AllWellFormed(f1 + f2 + f3 + f4 + f5 + f6 + f7)
  {
    AllWellFormedConcat(f1, f2);
    AllWellFormedConcat(f1 + f2, f3);
    AllWellFormedConcat(f1 + f2 + f3, f4);
    AllWellFormedConcat(f1 + f2 + f3 + f4, f5);
    AllWellFormedConcat(f1 + f2 + f3 + f4 + f5, f6);
    AllWellFormedConcat(f1 + f2 + f3 + f4 + f5 + f6, f7);
  }

  lemma ProposalFieldsWellFormed(p: Proposal)
    requires ProposalFits(p)
    ensures AllWellFormed(ProposalFields(p))
  {
    if p.timestamp.Some? {
      TimeLength(p.timestamp.value);
    }
    SInt64FieldWellFormed(HEIGHT, p.height);
    SInt64FieldWellFormed(ROUND, p.round);
    SInt64FieldWellFormed(POL_ROUND, p.polRound);
    OptionalFieldWellFormed(TIMESTAMP, EncodedTime(p.timestamp));
    OptionalFieldWellFormed(BLOCK_PARTS_HEADER, EncodedPartsSetHeader(p.blockPartsHeader));
    OptionalFieldWellFormed(POL_BLOCK_ID, EncodedBlockID(p.polBlockId));
    OptionalFieldWellFormed(SIGNATURE, p.signature);
    SevenWellFormed(
      SInt64Field(HEIGHT, p.height),
      SInt64Field(ROUND, p.round),
      OptionalField(TIMESTAMP, EncodedTime(p.timestamp)),
      OptionalField(BLOCK_PARTS_HEADER, EncodedPartsSetHeader(p.blockPartsHeader)),
      SInt64Field(POL_ROUND, p.polRound),
      OptionalField(POL_BLOCK_ID, EncodedBlockID(p.polBlockId)),
      OptionalField(SIGNATURE, p.signature));
  }

  // One lemma per proposal field: merging what the encoder wrote for that
  // field sets exactly that field of the message being built.

  lemma FoldHeight(s: Proposal, x: int64)
    requires s.height == 0
    ensures Fold(s, SInt64Field(HEIGHT, x), MergeProposalField) == Some(s.(height := x))
  {
    ZigZagRoundTrip(x);
    if x != 0 {
      assert MergeProposalField(s, Field(HEIGHT, VarintValue(ZigZag(x)))) == Some(s.(height := x));
    }
    FoldOptional(s, SInt64Field(HEIGHT, x), MergeProposalField, s.(height := x));
  }

  lemma FoldRound(s: Proposal, x: int64)
    requires s.round == 0
    ensures Fold(s, SInt64Field(ROUND, x), MergeProposalField) == Some(s.(round := x))
  {
    ZigZagRoundTrip(x);
    if x != 0 {
      assert MergeProposalField(s, Field(ROUND, VarintValue(ZigZag(x)))) == Some(s.(round := x));
    }
    FoldOptional(s, SInt64Field(ROUND, x), MergeProposalField, s.(round := x));
  }

  lemma FoldTimestamp(s: Proposal, t: Option<Time>)
    requires s.timestamp.None?
    ensures Fold(s, OptionalField(TIMESTAMP, EncodedTime(t)), MergeProposalField) == Some(s.(timestamp := t))
  {
    if t.Some? {
      TimeRoundTrip(t.value);
    }
    FoldOptional(s, OptionalField(TIMESTAMP, EncodedTime(t)), MergeProposalField, s.(timestamp := t));
  }

  lemma FoldBlockPartsHeader(s: Proposal, h: Option<PartsSetHeader>)
    requires s.blockPartsHeader.None?
    requires h.Some? ==> PartsSetHeaderFits(h.value)
    ensures Fold(s, OptionalField(BLOCK_PARTS_HEADER, EncodedPartsSetHeader(h)), MergeProposalField)
            == Some(s.(blockPartsHeader := h))
  {
    if h.Some? {
      PartsSetHeaderRoundTrip(h.value);
    }
    FoldOptional(s, OptionalField(BLOCK_PARTS_HEADER, EncodedPartsSetHeader(h)), MergeProposalField,
                 s.(blockPartsHeader := h));
  }

  lemma FoldPolRound(s: Proposal, x: int64)
    requires s.polRound == 0
    ensures Fold(s, SInt64Field(POL_ROUND, x), MergeProposalField) == Some(s.(polRound := x))
  {
    ZigZagRoundTrip(x);
    if x != 0 {
      assert MergeProposalField(s, Field(POL_ROUND, VarintValue(ZigZag(x)))) == Some(s.(polRound := x));
    }
    FoldOptional(s, SInt64Field(POL_ROUND, x), MergeProposalField, s.(polRound := x));
  }

  lemma FoldPolBlockId(s: Proposal, b: Option<BlockID>)
    requires s.polBlockId.None?
    requires b.Some? ==> BlockIDFits(b.value)
    ensures Fold(s, OptionalField(POL_BLOCK_ID, EncodedBlockID(b)), MergeProposalField) == Some(s.(polBlockId := b))
  {
    if b.Some? {
      var f := Field(POL_BLOCK_ID, BytesValue(EncodeBlockID(b.value)));
      assert OptionalField(POL_BLOCK_ID, EncodedBlockID(b)) == [f];
      assert MergeProposalField(s, f) == Some(s.(polBlockId := b)) by {
        BlockIDRoundTrip(b.value);
      }
      FoldSingle(s, f, MergeProposalField);
    }
  }

  lemma FoldSignature(s: Proposal, sig: Option<seq<byte>>)
    requires s.signature.None?
    ensures Fold(s, OptionalField(SIGNATURE, sig), MergeProposalField) == Some(s.(signature := sig))
  {
    FoldOptional(s, OptionalField(SIGNATURE, sig), MergeProposalField, s.(signature := sig));
  }

  /** Decoding a proposal's encoding gives the proposal back. */
  lemma {:induction false} ProposalRoundTrip(p: Proposal)
    requires ProposalFits(p)
    ensures DecodeProposal(EncodeProposal(p)) == Some(p)
  {
    ProposalFieldsWellFormed(p);
    ParseFieldsEncode(ProposalFields(p));
    var step := MergeProposalField;
    var f1 := SInt64Field(HEIGHT, p.height);
    var f2 := SInt64Field(ROUND, p.round);
    var f3 := OptionalField(TIMESTAMP, EncodedTime(p.timestamp));
    var f4 := OptionalField(BLOCK_PARTS_HEADER, EncodedPartsSetHeader(p.blockPartsHeader));
    var f5 := SInt64Field(POL_ROUND, p.polRound);
    var f6 := OptionalField(POL_BLOCK_ID, EncodedBlockID(p.polBlockId));
    var f7 := OptionalField(SIGNATURE, p.signature);
    var s0 := DEFAULT_PROPOSAL;
    var s1 := s0.(height := p.height);
    var s2 := s1.(round := p.round);
    var s3 := s2.(timestamp := p.timestamp);
    var s4 := s3.(blockPartsHeader := p.blockPartsHeader);
    var s5 := s4.(polRound := p.polRound);
    var s6 := s5.(polBlockId := p.polBlockId);
    assert s6.(signature := p.signature) == p;
    FoldHeight(s0, p.height);
    FoldRound(s1, p.round);
    FoldThen(s0, f1, f2, step, s1, s2);
    FoldTimestamp(s2, p.timestamp);
    FoldThen(s0, f1 + f2, f3, step, s2, s3);
    FoldBlockPartsHeader(s3, p.blockPartsHeader);
    FoldThen(s0, f1 + f2 + f3, f4, step, s3, s4);
    FoldPolRound(s4, p.polRound);
    FoldThen(s0, f1 + f2 + f3 + f4, f5, step, s4, s5);
    FoldPolBlockId(s5, p.polBlockId);
    FoldThen(s0, f1 + f2 + f3 + f4 + f5, f6, step, s5, s6);
    FoldSignature(s6, p.signature);
    FoldThen(s0, f1 + f2 + f3 + f4 + f5 + f6, f7, step, s6, p);
    assert ProposalFields(p) == f1 + f2 + f3 + f4 + f5 + f6 + f7;
  }

  /** Reading a frame gives back the body it was built around. */
  lemma UnframeFrame(body: seq<byte>)
    requires |AMINO_PREFIX| + |body| < TWO_TO_64
    ensures Unframe(Frame(body)) == Some(body)
  {
    var len := |AMINO_PREFIX| + |body|;
    var data := Frame(body);
    assert data == VarintEncode(len) + (AMINO_PREFIX + body);
    VarintRoundTrip(len, AMINO_PREFIX + body);
    var n := |VarintEncode(len)|;
    assert data[n..n + |AMINO_PREFIX|] == AMINO_PREFIX;
    assert data[n + |AMINO_PREFIX|..] == body;
  }

  /** decode(encode(m)) == m for every envelope whose lengths fit. */
  lemma {:induction false} RoundTrip(m: SignProposalMsg)
    requires MsgFits(m)
    ensures Decode(Encode(m)) == Some(m)
  {
    UnframeFrame(EncodeBody(m));
    var fs := EnvelopeFields(m);
    assert AllWellFormed(fs);
    ParseFieldsEncode(fs);
    if m.proposal.Some? {
      ProposalRoundTrip(m.proposal.value);
      FoldSingle(DEFAULT_MSG, fs[0], MergeEnvelopeField);
    }
  }

  /** Distinct envelopes never share an encoding. */
  lemma EncodeInjective(a: SignProposalMsg, b: SignProposalMsg)
    requires MsgFits(a) && MsgFits(b)
    requires Encode(a) == Encode(b)
    ensures a == b
  {
    RoundTrip(a);
    RoundTrip(b);
  }

  /** An input that does not carry the registered prefix is refused. */
  lemma UnknownPrefixRefused(prefix: seq<byte>, body: seq<byte>)
    requires |prefix| == |AMINO_PREFIX| && prefix != AMINO_PREFIX
    requires |prefix| + |body| < TWO_TO_64
    ensures Decode(VarintEncode(|prefix| + |body|) + prefix + body) == None
  {
    var len := |prefix| + |body|;
    var data := VarintEncode(len) + prefix + body;
    assert data == VarintEncode(len) + (prefix + body);
    VarintRoundTrip(len, prefix + body);
    var n := |VarintEncode(len)|;
    assert data[n..n + |AMINO_PREFIX|] == prefix;
  }

  /** A frame whose length does not match what follows it is refused. */
  lemma LengthMismatchRefused(len: uint64, rest: seq<byte>)
    requires |rest| != len
    ensures Decode(VarintEncode(len) + rest) == None
  {
    VarintRoundTrip(len, rest);
  }

  /** A frame cut anywhere short of its end is refused: either the length
      varint is itself cut short, or it promises more than is left. */
  lemma CutFrameRefused(len: uint64, rest: seq<byte>, k: nat)
    requires |rest| == len && k < |VarintEncode(len)| + |rest|
    ensures Decode((VarintEncode(len) + rest)[..k]) == None
  {
    var v := VarintEncode(len);
    if k < |v| {
      assert (v + rest)[..k] == v[..k];
      VarintPrefixRefused(len, k);
    } else {
      assert (v + rest)[..k] == v + rest[..k - |v|];
      LengthMismatchRefused(len, rest[..k - |v|]);
    }
  }

  /** An encoding is its length varint followed by the prefix and body. */
  lemma FrameShape(m: SignProposalMsg)
    ensures Encode(m) == VarintEncode(|AMINO_PREFIX + EncodeBody(m)|) + (AMINO_PREFIX + EncodeBody(m))
  {
  }

  /** Every proper prefix of an encoding is refused. */
  lemma TruncationRefused(m: SignProposalMsg, k: nat)
    requires MsgFits(m) && k < |Encode(m)|
    ensures Decode(Encode(m)[..k]) == None
  {
    FrameShape(m);
    CutFrameRefused(|AMINO_PREFIX + EncodeBody(m)|, AMINO_PREFIX + EncodeBody(m), k);
  }

  // ---------------------------------------------------------------------------
  // Layout
  // ---------------------------------------------------------------------------

  /** Default values are not written: the default proposal encodes to no
      bytes, an envelope without a proposal is the bare frame, and a
      present but default proposal is still one empty field-1 record. */
  lemma DefaultsOmitted()
    ensures EncodeProposal(DEFAULT_PROPOSAL) == []
    ensures Encode(DEFAULT_MSG) == [0x04] + AMINO_PREFIX
    ensures Encode(SignProposalMsg(Some(DEFAULT_PROPOSAL))) == [0x06] + AMINO_PREFIX + [0x0a, 0x00]
  {
    assert ProposalFields(DEFAULT_PROPOSAL) == [];
    EnvelopeBody(DEFAULT_PROPOSAL);
    ShortKey(1, LengthDelimited);
  }

  /** A proposal's fields come out in ascending field-number order. */
  lemma ProposalFieldsAscending(p: Proposal)
    ensures Ascending(ProposalFields(p))
  {
    var f1 := SInt64Field(HEIGHT, p.height);
    var f2 := SInt64Field(ROUND, p.round);
    var f3 := OptionalField(TIMESTAMP, EncodedTime(p.timestamp));
    var f4 := OptionalField(BLOCK_PARTS_HEADER, EncodedPartsSetHeader(p.blockPartsHeader));
    var f5 := SInt64Field(POL_ROUND, p.polRound);
    var f6 := OptionalField(POL_BLOCK_ID, EncodedBlockID(p.polBlockId));
    var f7 := OptionalField(SIGNATURE, p.signature);
    AscendingAppend([], f1, 1);
    AscendingAppend(f1, f2, 2);
    AscendingAppend(f1 + f2, f3, 3);
    AscendingAppend(f1 + f2 + f3, f4, 4);
    AscendingAppend(f1 + f2 + f3 + f4, f5, 5);
    AscendingAppend(f1 + f2 + f3 + f4 + f5, f6, 6);
    AscendingAppend(f1 + f2 + f3 + f4 + f5 + f6, f7, 7);
  }

  /** An absent proof-of-lock block id contributes no bytes; a present one is
      exactly one field-6 record, between field 5 and the signature. */
  lemma PolBlockIdOmitted(p: Proposal, b: BlockID)
    ensures EncodeProposal(p.(polBlockId := None))
            == EncodeFields(ProposalHeadFields(p)) + EncodeFields(OptionalField(SIGNATURE, p.signature))
    ensures EncodeProposal(p.(polBlockId := Some(b)))
            == EncodeFields(ProposalHeadFields(p))
               + EncodeField(Field(POL_BLOCK_ID, BytesValue(EncodeBlockID(b))))
               + EncodeFields(OptionalField(SIGNATURE, p.signature))
    ensures |EncodeProposal(p.(polBlockId := None))| < |EncodeProposal(p.(polBlockId := Some(b)))|
  {
    var head, sig := ProposalHeadFields(p), OptionalField(SIGNATURE, p.signature);
    var f6 := Field(POL_BLOCK_ID, BytesValue(EncodeBlockID(b)));
    assert ProposalHeadFields(p.(polBlockId := None)) == head;
    assert ProposalHeadFields(p.(polBlockId := Some(b))) == head;
    assert ProposalFields(p.(polBlockId := None)) == head + [] + sig;
    assert head + [] + sig == head + sig;
    EncodeFieldsConcat(head, sig);
    EncodeFieldsConcat(head + [f6], sig);
    EncodeFieldsConcat(head, [f6]);
    EncodeFieldsSingle(f6);
  }

  /** A present signature is one more record after everything else. */
  lemma SignatureAppended(p: Proposal, sig: seq<byte>)
    ensures EncodeProposal(p.(signature := Some(sig)))
            == EncodeProposal(p.(signature := None)) + EncodeField(Field(SIGNATURE, BytesValue(sig)))
  {
    var signed, unsigned := p.(signature := Some(sig)), p.(signature := None);
    var rest := ProposalHeadFields(p) + OptionalField(POL_BLOCK_ID, EncodedBlockID(p.polBlockId));
    var f7 := Field(SIGNATURE, BytesValue(sig));
    assert ProposalFields(signed) == rest + [f7] by {
      assert ProposalHeadFields(signed) == ProposalHeadFields(p);
    }
    assert ProposalFields(unsigned) == rest by {
      assert ProposalHeadFields(unsigned) == ProposalHeadFields(p);
      assert rest + [] == rest;
    }
    EncodeFieldsConcat(rest, [f7]);
    EncodeFieldsSingle(f7);
  }

  /** The signature record: key 0x3a (field 7, length-delimited), the varint
      length, the raw bytes. */
  lemma SignatureRecord(sig: seq<byte>)
    ensures EncodeField(Field(SIGNATURE, BytesValue(sig))) == [0x3a] + VarintEncode(|sig|) + sig
  {
    ShortKey(SIGNATURE, LengthDelimited);
  }

  /** With no proof-of-lock block and no signature the proposal ends with
      field 5; a proof-of-lock round of -1 is the two bytes 28 01. */
  lemma UnsignedProposalEndsWithPolRound(p: Proposal)
    requires p.polBlockId.None? && p.signature.None? && p.polRound == -1
    ensures EncodeProposal(p)[|EncodeProposal(p)| - 2..] == [0x28, 0x01]
  {
    var front := SInt64Field(HEIGHT, p.height)
      + SInt64Field(ROUND, p.round)
      + OptionalField(TIMESTAMP, EncodedTime(p.timestamp))
      + OptionalField(BLOCK_PARTS_HEADER, EncodedPartsSetHeader(p.blockPartsHeader));
    var f5 := Field(POL_ROUND, VarintValue(1));
    assert ProposalFields(p) == front + [f5];
    EncodeFieldsConcat(front, [f5]);
    EncodeFieldsSingle(f5);
    ShortKey(POL_ROUND, Varint);
    assert EncodeField(f5) == [0x28, 0x01];
  }
}
