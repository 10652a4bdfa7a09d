/** Writing an envelope into a caller's growable byte buffer, the way the
    derived `encode` appends to a `Vec<u8>`: the Amino length varint, the
    prefix, then each field's key, length and payload in field order. Every
    method is proved to append exactly what the encoding functions of
    ProposalCodec describe. */
module Encoder {
  import opened Scalars
  import opened WireFormat
  import opened ProposalCodec

  /** A growable byte buffer; writes only ever append. */
  class Buffer {
    var bytes: seq<byte>

    constructor ()
      ensures bytes == []
    {
      bytes := [];
    }

    method PutSlice(s: seq<byte>)
      modifies this
      ensures bytes == old(bytes) + s
    {
      bytes := bytes + s;
    }

    /** Seven bits at a time, low group first, the high bit set on every
        byte but the last. */
    method PutVarint(x: uint64)
      modifies this
      ensures bytes == old(bytes) + VarintEncode(x)
    {
      var v: nat := x;
      while v >= 0x80
        invariant old(bytes) + VarintEncode(x) == bytes + VarintEncode(v)
        decreases v
      {
        assert VarintEncode(v) == [v % 0x80 + 0x80] + VarintEncode(v / 0x80);
        assert bytes + VarintEncode(v) == (bytes + [v % 0x80 + 0x80]) + VarintEncode(v / 0x80);
        bytes := bytes + [v % 0x80 + 0x80];
        v := v / 0x80;
      }
      bytes := bytes + [v];
    }

    /** The payload of one record, as its wire type lays it out. */
    method PutPayload(v: Value)
      requires v.BytesValue? ==> |v.bytes| < TWO_TO_64
      modifies this
      ensures bytes == old(bytes) + EncodePayload(v)
    {
      match v
      case VarintValue(x) =>
        PutVarint(x);
      case Fixed64Value(x) =>
        PutSlice(LittleEndian(x, 8));
      case BytesValue(b) =>
        PutVarint(|b|);
        PutSlice(b);
        Appended(old(bytes), VarintEncode(|b|), b);
      case Fixed32Value(x) =>
        PutSlice(LittleEndian(x, 4));
    }

    /** One record: the key, then the payload of its wire type. */
    method PutField(f: Field)
      requires WellFormed(f)
      modifies this
      ensures bytes == old(bytes) + EncodeField(f)
    {
      PutVarint(Key(f.number, WireTypeOf(f.value)));
      PutPayload(f.value);
      Appended(old(bytes), VarintEncode(Key(f.number, WireTypeOf(f.value))), EncodePayload(f.value));
    }

    /** The records of `fs`, in order. */
    method PutFields(fs: seq<Field>)
      requires AllWellFormed(fs)
      modifies this
      ensures bytes == old(bytes) + EncodeFields(fs)
    {
      var i := 0;
      while i < |fs|
        invariant 0 <= i <= |fs|
        invariant bytes == old(bytes) + EncodeFields(fs[..i])
      {
        PutField(fs[i]);
        EncodeFieldsPrefix(fs, i);
        Appended(old(bytes), EncodeFields(fs[..i]), EncodeField(fs[i]));
        i := i + 1;
      }
      assert fs[..|fs|] == fs;
    }
  }

  lemma Appended(a: seq<byte>, b: seq<byte>, c: seq<byte>)
    ensures (a + b) + c == a + (b + c)
  {
  }

  /** Appends the framed encoding of `m` to `buf`: the length of prefix and
      body, the prefix, and the envelope's one field, whose length is the
      proposal's encoded length and whose records are then written one by
      one. */
  method EncodeInto(m: SignProposalMsg, buf: Buffer)
    requires MsgFits(m)
    modifies buf
    ensures buf.bytes == old(buf.bytes) + Encode(m)
  {
    var body := EncodeBody(m);
    buf.PutVarint(|AMINO_PREFIX| + |body|);
    buf.PutSlice(AMINO_PREFIX);
    ghost var framed := buf.bytes;
    if m.proposal.Some? {
      var p := m.proposal.value;
      var proposal := EncodeProposal(p);
      ProposalFieldsWellFormed(p);
      buf.PutVarint(Key(1, LengthDelimited));
      ghost var keyed := buf.bytes;
      buf.PutVarint(|proposal|);
      buf.PutFields(ProposalFields(p));
      Appended(keyed, VarintEncode(|proposal|), proposal);
      Appended(framed, VarintEncode(Key(1, LengthDelimited)), VarintEncode(|proposal|) + proposal);
      EnvelopeBody(p);
    } else {
      assert body == [];
    }
    Appended(old(buf.bytes), VarintEncode(|AMINO_PREFIX| + |body|), AMINO_PREFIX);
    Appended(old(buf.bytes), VarintEncode(|AMINO_PREFIX| + |body|) + AMINO_PREFIX, body);
  }

  /** Encoding into a fresh buffer gives exactly the encoding of `m`. */
  method EncodeToVec(m: SignProposalMsg) returns (r: seq<byte>)
    requires MsgFits(m)
    ensures r == Encode(m)
    ensures Decode(r) == Some(m)
  {
    var buf := new Buffer();
    EncodeInto(m, buf);
    r := buf.bytes;
    RoundTrip(m);
  }
}
