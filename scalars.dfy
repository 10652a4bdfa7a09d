/** Fixed-width integers and their Protocol Buffers wire representations:
    base-128 varints, the ZigZag map for signed varints, little-endian
    fixed-width words and two's complement reinterpretation. */
module Scalars {

  datatype Option<T> = None | Some(value: T)

  type byte = x: int | 0 <= x < 0x100
  type uint32 = x: int | 0 <= x < 0x1_0000_0000
  type uint64 = x: int | 0 <= x < 0x1_0000_0000_0000_0000
  type int32 = x: int | -0x8000_0000 <= x < 0x8000_0000
  type int64 = x: int | -0x8000_0000_0000_0000 <= x < 0x8000_0000_0000_0000

  const TWO_TO_32: nat := 0x1_0000_0000
  const TWO_TO_63: nat := 0x8000_0000_0000_0000
  const TWO_TO_64: nat := 0x1_0000_0000_0000_0000

  /** A varint decoder gives up after this many bytes. */
  const MAX_VARINT_LEN: nat := 10

  // ---------------------------------------------------------------------------
  // Base-128 varints
  // ---------------------------------------------------------------------------

  /** Seven bits per byte, least significant group first; the high bit of a
      byte says that another byte follows. */
  function VarintEncode(x: nat): (r: seq<byte>)
    ensures 0 < |r|
    ensures r[|r| - 1] < 0x80
    ensures forall i :: 0 <= i < |r| - 1 ==> 0x80 <= r[i]
    ensures (|r| == 1) == (x < 0x80)
  {
    if x < 0x80 then [x] else [x % 0x80 + 0x80] + VarintEncode(x / 0x80)
  }

  function Pow128(k: nat): (r: nat)
    ensures 0 < r
  {
    if k == 0 then 1 else 0x80 * Pow128(k - 1)
  }

  /** A value below 128^k takes at most k varint bytes (and zero takes one). */
  lemma {:induction false} VarintLengthBound(x: nat, k: nat)
    requires 0 < k && x < Pow128(k)
    ensures |VarintEncode(x)| <= k
  {
    if x >= 0x80 {
      assert x / 0x80 < Pow128(k - 1);
      VarintLengthBound(x / 0x80, k - 1);
    }
  }

  /** Every 64-bit value fits in MAX_VARINT_LEN bytes. */
  lemma VarintLength64(x: uint64)
    ensures |VarintEncode(x)| <= MAX_VARINT_LEN
  {
    assert Pow128(10) == 0x40_0000_0000_0000_0000;
    VarintLengthBound(x, 10);
  }

  /** Reads a base-128 group sequence from the front of `data`, giving its
      full (unreduced) value and the number of bytes read. */
  function ReadVarintRaw(data: seq<byte>): (r: Option<(nat, nat)>)
    ensures r.Some? ==> 0 < r.value.1 <= |data|
  {
    if |data| == 0 then None
    else if data[0] < 0x80 then Some((data[0], 1))
    else
      match ReadVarintRaw(data[1..])
      case None => None
      case Some((v, n)) => Some((data[0] - 0x80 + 0x80 * v, n + 1))
  }

  /** The decoder of the wire format: input that ends inside a varint, or
      whose first MAX_VARINT_LEN bytes all carry the continuation bit, is
      refused; bits of a tenth byte beyond the 64th are dropped, folding the
      value modulo 2^64. */
  function ReadVarint(data: seq<byte>): (r: Option<(uint64, nat)>)
    ensures r.Some? ==> 0 < r.value.1 <= |data| && r.value.1 <= MAX_VARINT_LEN
  {
    match ReadVarintRaw(data)
    case None => None
    case Some((v, n)) => if n > MAX_VARINT_LEN then None else Some((v % TWO_TO_64, n))
  }

  lemma {:induction false} ReadVarintRawEncode(x: nat, rest: seq<byte>)
    ensures ReadVarintRaw(VarintEncode(x) + rest) == Some((x, |VarintEncode(x)|))
  {
    var data := VarintEncode(x) + rest;
    if x >= 0x80 {
      assert data[1..] == VarintEncode(x / 0x80) + rest;
      ReadVarintRawEncode(x / 0x80, rest);
    }
  }

  /** Varint decoding inverts varint encoding for every 64-bit value, and
      whatever follows the varint is left unread. */
  lemma VarintRoundTrip(x: uint64, rest: seq<byte>)
    ensures ReadVarint(VarintEncode(x) + rest) == Some((x, |VarintEncode(x)|))
  {
    VarintLength64(x);
    ReadVarintRawEncode(x, rest);
  }

  /** Bytes that all carry the continuation bit never end a varint. */
  lemma {:induction false} UnterminatedVarint(data: seq<byte>)
    requires forall i :: 0 <= i < |data| ==> 0x80 <= data[i]
    ensures ReadVarintRaw(data) == None && ReadVarint(data) == None
  {
    if |data| > 0 {
      UnterminatedVarint(data[1..]);
    }
  }

  /** A varint cut short is refused. */
  lemma VarintPrefixRefused(x: nat, k: nat)
    requires k < |VarintEncode(x)|
    ensures ReadVarint(VarintEncode(x)[..k]) == None
  {
    UnterminatedVarint(VarintEncode(x)[..k]);
  }

  // ---------------------------------------------------------------------------
  // ZigZag
  // ---------------------------------------------------------------------------

  /** Maps 0, -1, 1, -2, 2, ... to 0, 1, 2, 3, 4, ...: the low bit carries the
      sign and the remaining bits the magnitude, so that small negative values
      stay short as varints. */
  function ZigZag(n: int64): (r: uint64)
    ensures r % 2 == (if n < 0 then 1 else 0)
    ensures r / 2 == (if n < 0 then -1 - n as int else n)
  {
    if n >= 0 then 2 * n else -2 * n - 1
  }

  function ZigZagDecode(u: uint64): (r: int64)
  {
    if u % 2 == 0 then u / 2 else -(u / 2) - 1
  }

  lemma ZigZagRoundTrip(n: int64)
    ensures ZigZagDecode(ZigZag(n)) == n
  {
  }

  lemma ZigZagDecodeRoundTrip(u: uint64)
    ensures ZigZag(ZigZagDecode(u)) == u
  {
  }

  /** Values of equal magnitude on both sides of zero differ by one code. */
  lemma ZigZagCompact(n: int64)
    requires 0 < n
    ensures ZigZag(-n) + 1 == ZigZag(n)
  {
  }

  // ---------------------------------------------------------------------------
  // Two's complement and little-endian fixed-width words
  // ---------------------------------------------------------------------------

  function Unsigned64(x: int64): (r: uint64)
    ensures r % TWO_TO_64 == x % TWO_TO_64
  {
    if x >= 0 then x else x + TWO_TO_64
  }

  function Signed64(u: uint64): (r: int64)
    ensures r % TWO_TO_64 == u % TWO_TO_64
  {
    if u < TWO_TO_63 then u else u - TWO_TO_64
  }

  function Unsigned32(x: int32): (r: uint32)
    ensures r % TWO_TO_32 == x % TWO_TO_32
  {
    if x >= 0 then x else x + TWO_TO_32
  }

  function Signed32(u: uint32): (r: int32)
    ensures r % TWO_TO_32 == u % TWO_TO_32
  {
    if u < 0x8000_0000 then u else u - TWO_TO_32
  }

  /** Signed and unsigned reinterpretation invert each other at both widths. */
  lemma TwosComplementRoundTrip(x: int64, y: int32, u: uint64, v: uint32)
    ensures Signed64(Unsigned64(x)) == x
    ensures Signed32(Unsigned32(y)) == y
    ensures Unsigned64(Signed64(u)) == u
    ensures Unsigned32(Signed32(v)) == v
  {
  }

  function Pow256(n: nat): (r: nat)
    ensures 0 < r
  {
    if n == 0 then 1 else 0x100 * Pow256(n - 1)
  }

  /** The n low-order bytes of x, least significant first. */
  function LittleEndian(x: nat, n: nat): (r: seq<byte>)
    ensures |r| == n
  {
    if n == 0 then [] else [x % 0x100] + LittleEndian(x / 0x100, n - 1)
  }

  function FromLittleEndian(s: seq<byte>): (r: nat)
    ensures r < Pow256(|s|)
  {
    if s == [] then 0 else s[0] + 0x100 * FromLittleEndian(s[1..])
  }

  lemma {:induction false} LittleEndianRoundTrip(x: nat, n: nat)
    requires x < Pow256(n)
    ensures FromLittleEndian(LittleEndian(x, n)) == x
  {
    if n > 0 {
      var s := LittleEndian(x, n);
      assert s[1..] == LittleEndian(x / 0x100, n - 1);
      LittleEndianRoundTrip(x / 0x100, n - 1);
    }
  }

  lemma {:induction false} FromLittleEndianRoundTrip(s: seq<byte>)
    ensures LittleEndian(FromLittleEndian(s), |s|) == s
  {
    if s != [] {
      FromLittleEndianRoundTrip(s[1..]);
    }
  }

  lemma Pow256Widths()
    ensures Pow256(4) == TWO_TO_32
    ensures Pow256(8) == TWO_TO_64
  {
  }
}
