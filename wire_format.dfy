/** The record layer of the Protocol Buffers wire format: a message is a
    sequence of fields, each a key (field number and wire type) followed by a
    payload whose shape the wire type fixes. */
module WireFormat {
  import opened Scalars

  /** The wire types this model reads and writes; the group markers (3, 4)
      are not among them. */
  datatype WireType = Varint | Fixed64 | LengthDelimited | Fixed32

  function WireTypeCode(w: WireType): (r: nat)
    ensures r < 8
  {
    match w
    case Varint => 0
    case Fixed64 => 1
    case LengthDelimited => 2
    case Fixed32 => 5
  }

  datatype Value =
    | VarintValue(varint: uint64)
    | Fixed64Value(fixed64: uint64)
    | BytesValue(bytes: seq<byte>)
    | Fixed32Value(fixed32: uint32)

  datatype Field = Field(number: nat, value: Value)

  const MAX_FIELD_NUMBER: nat := 0x1FFF_FFFF

  function WireTypeOf(v: Value): WireType
  {
    match v
    case VarintValue(_) => Varint
    case Fixed64Value(_) => Fixed64
    case BytesValue(_) => LengthDelimited
    case Fixed32Value(_) => Fixed32
  }

  /** A key packs the field number above the three wire-type bits. */
  function Key(number: nat, w: WireType): (r: nat)
    ensures r / 8 == number && r % 8 == WireTypeCode(w)
  {
    number * 8 + WireTypeCode(w)
  }

  /** A field the decoder accepts back: a usable field number and a length
      a 64-bit length prefix can state. */
  predicate WellFormed(f: Field)
  {
    && 1 <= f.number <= MAX_FIELD_NUMBER
    && (f.value.BytesValue? ==> |f.value.bytes| < TWO_TO_64)
  }

  predicate AllWellFormed(fs: seq<Field>)
  {
    forall i :: 0 <= i < |fs| ==> WellFormed(fs[i])
  }

  function EncodePayload(v: Value): seq<byte>
  {
    match v
    case VarintValue(x) => VarintEncode(x)
    case Fixed64Value(x) => LittleEndian(x, 8)
    case BytesValue(b) => VarintEncode(|b|) + b
    case Fixed32Value(x) => LittleEndian(x, 4)
  }

  function EncodeField(f: Field): seq<byte>
  {
    VarintEncode(Key(f.number, WireTypeOf(f.value))) + EncodePayload(f.value)
  }

  function EncodeFields(fs: seq<Field>): seq<byte>
  {
    if fs == [] then [] else EncodeField(fs[0]) + EncodeFields(fs[1..])
  }

  /** Fields below number 16 have a one-byte key: (number << 3) | wire type. */
  lemma ShortKey(number: nat, w: WireType)
    requires number < 16
    ensures VarintEncode(Key(number, w)) == [number * 8 + WireTypeCode(w)]
  {
  }

  lemma {:induction false} EncodeFieldsConcat(a: seq<Field>, b: seq<Field>)
    ensures EncodeFields(a + b) == EncodeFields(a) + EncodeFields(b)
  {
    if a == [] {
      assert a + b == b;
    } else {
      assert (a + b)[1..] == a[1..] + b;
      EncodeFieldsConcat(a[1..], b);
    }
  }

  lemma EncodeFieldsSingle(f: Field)
    ensures EncodeFields([f]) == EncodeField(f)
  {
    assert [f][1..] == [];
  }

  /** Encoding one more field of a prefix appends that field's record. */
  lemma EncodeFieldsPrefix(fs: seq<Field>, i: nat)
    requires i < |fs|
    ensures EncodeFields(fs[..i + 1]) == EncodeFields(fs[..i]) + EncodeField(fs[i])
  {
    assert fs[..i + 1] == fs[..i] + [fs[i]];
    EncodeFieldsConcat(fs[..i], [fs[i]]);
    EncodeFieldsSingle(fs[i]);
  }

  // ---------------------------------------------------------------------------
  // Reading
  // ---------------------------------------------------------------------------

  /** Reads the payload of wire type `code` from the front of `data`. */
  function ReadPayload(code: nat, data: seq<byte>): (r: Option<(Value, nat)>)
    ensures r.Some? ==> r.value.1 <= |data|
    ensures r.Some? ==> code == WireTypeCode(WireTypeOf(r.value.0))
  {
    if code == 0 then
      match ReadVarint(data)
      case None => None
      case Some((x, n)) => Some((VarintValue(x), n))
    else if code == 1 then
      if |data| < 8 then None
      else Some((Fixed64Value(FromLittleEndian(data[..8]) as uint64), 8))
    else if code == 2 then
      match ReadVarint(data)
      case None => None
      case Some((len, n)) =>
        if len > |data| - n then None
        else Some((BytesValue(data[n..n + len]), n + len))
    else if code == 5 then
      if |data| < 4 then None
      else Some((Fixed32Value(FromLittleEndian(data[..4]) as uint32), 4))
    else
      None
  }

  /** Reads one field: a key of at most 32 bits, a known wire type, a field
      number of at least one, then the payload. */
  function ReadField(data: seq<byte>): (r: Option<(Field, nat)>)
    ensures r.Some? ==> 0 < r.value.1 <= |data| && WellFormed(r.value.0)
  {
    match ReadVarint(data)
    case None => None
    case Some((key, k)) =>
      if key >= TWO_TO_32 || key / 8 == 0 then None
      else
        match ReadPayload(key % 8, data[k..])
        case None => None
        case Some((v, n)) => Some((Field(key / 8, v), k + n))
  }

  /** Splits a whole buffer into fields; any malformed field fails the lot. */
  function ParseFields(data: seq<byte>): (r: Option<seq<Field>>)
    ensures r.Some? ==> AllWellFormed(r.value)
    decreases |data|
  {
    if data == [] then Some([])
    else
      match ReadField(data)
      case None => None
      case Some((f, n)) =>
        match ParseFields(data[n..])
        case None => None
        case Some(fs) => Some([f] + fs)
  }

  lemma ReadFixedEncode(x: nat, n: nat, rest: seq<byte>)
    requires x < Pow256(n)
    ensures (LittleEndian(x, n) + rest)[..n] == LittleEndian(x, n)
    ensures FromLittleEndian((LittleEndian(x, n) + rest)[..n]) == x
  {
    assert (LittleEndian(x, n) + rest)[..n] == LittleEndian(x, n);
    LittleEndianRoundTrip(x, n);
  }

  lemma ReadBytesEncode(b: seq<byte>, rest: seq<byte>)
    requires |b| < TWO_TO_64
    ensures ReadPayload(2, VarintEncode(|b|) + b + rest) == Some((BytesValue(b), |VarintEncode(|b|)| + |b|))
  {
    var data := VarintEncode(|b|) + b + rest;
    assert data == VarintEncode(|b|) + (b + rest);
    VarintRoundTrip(|b|, b + rest);
    var n := |VarintEncode(|b|)|;
    assert data[n..n + |b|] == b;
  }

  lemma ReadPayloadEncode(v: Value, rest: seq<byte>)
    requires v.BytesValue? ==> |v.bytes| < TWO_TO_64
    ensures ReadPayload(WireTypeCode(WireTypeOf(v)), EncodePayload(v) + rest)
            == Some((v, |EncodePayload(v)|))
  {
    match v
    case VarintValue(x) =>
      VarintRoundTrip(x, rest);
    case Fixed64Value(x) =>
      Pow256Widths();
      ReadFixedEncode(x, 8, rest);
    case BytesValue(b) =>
      ReadBytesEncode(b, rest);
    case Fixed32Value(x) =>
      Pow256Widths();
      ReadFixedEncode(x, 4, rest);
  }

  lemma ReadFieldAt(data: seq<byte>, key: nat, k: nat, v: Value, n: nat)
    requires ReadVarint(data) == Some((key, k))
    requires key < TWO_TO_32 && key / 8 != 0
    requires ReadPayload(key % 8, data[k..]) == Some((v, n))
    ensures ReadField(data) == Some((Field(key / 8, v), k + n))
  {
  }

  lemma ReadFieldEncode(f: Field, rest: seq<byte>)
    requires WellFormed(f)
    ensures ReadField(EncodeField(f) + rest) == Some((f, |EncodeField(f)|))
  {
    var key := Key(f.number, WireTypeOf(f.value));
    var payload := EncodePayload(f.value);
    var data := EncodeField(f) + rest;
    assert data == VarintEncode(key) + (payload + rest);
    VarintRoundTrip(key, payload + rest);
    var k := |VarintEncode(key)|;
    assert ReadVarint(data) == Some((key, k));
    assert key < TWO_TO_32 && key / 8 != 0;
    assert data[k..] == payload + rest;
    ReadPayloadEncode(f.value, rest);
    ReadFieldAt(data, key, k, f.value, |payload|);
    assert Field(key / 8, f.value) == f && k + |payload| == |EncodeField(f)|;
    assert ReadField(data) == Some((f, |EncodeField(f)|));
  }

  /** Parsing inverts writing for every sequence of well-formed fields. */
  lemma {:induction false} ParseFieldsEncode(fs: seq<Field>)
    requires AllWellFormed(fs)
    ensures ParseFields(EncodeFields(fs)) == Some(fs)
  {
    if fs != [] {
      var head, tail := fs[0], EncodeFields(fs[1..]);
      var data := EncodeFields(fs);
      assert data == EncodeField(head) + tail;
      ReadFieldEncode(head, tail);
      var n := |EncodeField(head)|;
      assert data[n..] == tail;
      assert AllWellFormed(fs[1..]);
      ParseFieldsEncode(fs[1..]);
      assert ParseFields(data) == Some([head] + fs[1..]);
      assert [head] + fs[1..] == fs;
    }
  }

  // ---------------------------------------------------------------------------
  // Merging fields into a message
  // ---------------------------------------------------------------------------

  /** Applies `step` to each field in order, starting from `init`; the first
      refused field fails the whole merge. */
  function Fold<S>(init: S, fs: seq<Field>, step: (S, Field) -> Option<S>): Option<S>
  {
    if fs == [] then Some(init)
    else
      match step(init, fs[0])
      case None => None
      case Some(s) => Fold(s, fs[1..], step)
  }

  lemma {:induction false} FoldConcat<S>(init: S, a: seq<Field>, b: seq<Field>, step: (S, Field) -> Option<S>)
    ensures Fold(init, a + b, step)
            == match Fold(init, a, step) case None => None case Some(s) => Fold(s, b, step)
  {
    if a == [] {
      assert a + b == b;
    } else {
      assert (a + b)[1..] == a[1..] + b;
      match step(init, a[0])
      case None =>
      case Some(s) => FoldConcat(s, a[1..], b, step);
    }
  }

  lemma FoldSingle<S>(init: S, f: Field, step: (S, Field) -> Option<S>)
    ensures Fold(init, [f], step) == step(init, f)
  {
    assert [f][1..] == [];
  }

  /** Merging a sequence of fields is merging its two halves in turn. */
  lemma FoldThen<S>(init: S, a: seq<Field>, b: seq<Field>, step: (S, Field) -> Option<S>, mid: S, out: S)
    requires Fold(init, a, step) == Some(mid)
    requires Fold(mid, b, step) == Some(out)
    ensures Fold(init, a + b, step) == Some(out)
  {
    FoldConcat(init, a, b, step);
  }

  /** Merging an optional field (none, or one) that takes `init` to `out`. */
  lemma FoldOptional<S>(init: S, piece: seq<Field>, step: (S, Field) -> Option<S>, out: S)
    requires |piece| <= 1
    requires piece == [] ==> init == out
    requires |piece| == 1 ==> step(init, piece[0]) == Some(out)
    ensures Fold(init, piece, step) == Some(out)
  {
    if |piece| == 1 {
      assert piece == [piece[0]];
      FoldSingle(init, piece[0], step);
    }
  }

  lemma AllWellFormedConcat(a: seq<Field>, b: seq<Field>)
    requires AllWellFormed(a) && AllWellFormed(b)
    ensures AllWellFormed(a + b)
  {
  }

  /** Field numbers strictly increase along the sequence. */
  predicate Ascending(fs: seq<Field>)
  {
    forall i, j :: 0 <= i < j < |fs| ==> fs[i].number < fs[j].number
  }

  predicate NumbersBelow(fs: seq<Field>, bound: nat)
  {
    forall i :: 0 <= i < |fs| ==> fs[i].number < bound
  }

  /** Appending at most one field numbered `number` after fields numbered
      below it keeps the order ascending. */
  lemma AscendingAppend(a: seq<Field>, b: seq<Field>, number: nat)
    requires Ascending(a) && NumbersBelow(a, number)
    requires |b| <= 1 && forall i :: 0 <= i < |b| ==> b[i].number == number
    ensures Ascending(a + b) && NumbersBelow(a + b, number + 1)
  {
  }
}
