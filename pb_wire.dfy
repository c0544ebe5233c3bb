/** Arithmetic of the Protocol Buffers binary wire format as the pull parser
    applies it: base-128 varints, ZigZag, little-endian fixed-width numbers
    and tags. Everything here is a pure function of bytes and numbers; the
    parser state lives in module PbReader. */
module PbWire {
  import opened Wrappers

  type byte = b: int | 0 <= b < 0x100

  const TWO_31: int := 0x8000_0000
  const TWO_32: int := 0x1_0000_0000
  const TWO_63: int := 0x8000_0000_0000_0000
  const TWO_64: int := 0x1_0000_0000_0000_0000

  /** Codes of enum WireType (an lb_byte_t). */
  const PB_VARINT: nat := 0
  const PB_64BIT: nat := 1
  const PB_LEN: nat := 2
  const PB_32BIT: nat := 5

  function Pow2(k: nat): (r: nat)
    ensures r >= 1
  {
    if k == 0 then 1 else 2 * Pow2(k - 1)
  }

  lemma {:induction false} Pow2Add(a: nat, b: nat)
    ensures Pow2(a + b) == Pow2(a) * Pow2(b)
  {
    if a > 0 {
      Pow2Add(a - 1, b);
      assert Pow2(a + b) == 2 * Pow2(a - 1 + b);
    }
  }

  lemma Pow2Byte()
    ensures Pow2(7) == 0x80 && Pow2(8) == 0x100
  {
    assert Pow2(4) == 0x10;
  }

  lemma Pow2Values()
    ensures Pow2(7) == 0x80 && Pow2(8) == 0x100
    ensures Pow2(16) == 0x1_0000 && Pow2(24) == 0x100_0000 && Pow2(32) == TWO_32
    ensures Pow2(64) == TWO_64
  {
    Pow2Byte();
    Pow2Add(8, 8);
    Pow2Add(16, 8);
    Pow2Add(16, 16);
    Pow2Add(32, 32);
  }

  // ----- Two's complement views of fixed-width integers -----

  /** (lb_int32_t)x: the low 32 bits of x read as a signed number. */
  function ToInt32(x: int): (r: int)
    ensures -TWO_31 <= r < TWO_31 && (r - x) % TWO_32 == 0
  {
    var u := x % TWO_32;
    if u >= TWO_31 then u - TWO_32 else u
  }

  /** (lb_int64_t)u for an lb_uint64_t u. */
  function ToInt64(u: nat): (r: int)
    requires u < TWO_64
    ensures -TWO_63 <= r < TWO_63 && (r - u) % TWO_64 == 0
  {
    if u >= TWO_63 then u - TWO_64 else u
  }

  /** ~u on an lb_uint64_t. */
  function Not64(u: nat): (r: nat)
    requires u < TWO_64
    ensures r < TWO_64 && r + u == TWO_64 - 1
  {
    TWO_64 - 1 - u
  }

  // ----- Base 128 varints -----

  /** Number of bytes of the varint at the head of s: up to and including
      the first byte whose most significant bit is clear; None when s ends
      before such a byte. */
  function VarintLength(s: seq<byte>): (r: Option<nat>)
    ensures r.Some? ==> 1 <= r.value <= |s| && s[r.value - 1] < 0x80
    ensures r.Some? ==> forall k :: 0 <= k < r.value - 1 ==> s[k] >= 0x80
    ensures r.None? ==> forall k :: 0 <= k < |s| ==> s[k] >= 0x80
  {
    if |s| == 0 then None
    else if s[0] < 0x80 then Some(1)
    else match VarintLength(s[1..])
      case None => None
      case Some(n) => Some(n + 1)
  }

  /** Sum of the 7-bit groups of s[..n], group k standing at bit 7k. */
  function Groups(s: seq<byte>, n: nat): (r: nat)
    requires n <= |s|
  {
    if n == 0 then 0 else Groups(s, n - 1) + (s[n - 1] % 0x80) * Pow2(7 * (n - 1))
  }

  datatype Varint = Varint(value: nat, length: nat)

  /** The varint at the head of s, as an lb_uint64_t: its 7-bit groups
      summed and truncated to 64 bits. */
  function DecodeVarint(s: seq<byte>): (r: Option<Varint>)
  {
    match VarintLength(s)
    case None => None
    case Some(n) => Some(Varint(Groups(s, n) % TWO_64, n))
  }

  /** The standard varint encoding: low group first, MSB set on every byte
      but the last. */
  function EncodeVarint(v: nat): (r: seq<byte>)
    ensures |r| >= 1
  {
    if v < 0x80 then [v] else [v % 0x80 + 0x80] + EncodeVarint(v / 0x80)
  }

  lemma {:induction false} GroupsPrefix(s: seq<byte>, rest: seq<byte>, n: nat)
    requires n <= |s|
    ensures Groups(s + rest, n) == Groups(s, n)
  {
    if n > 0 {
      GroupsPrefix(s, rest, n - 1);
      assert (s + rest)[n - 1] == s[n - 1];
    }
  }

  /** Prepending a byte shifts every group of the tail up by 7 bits. */
  lemma Pow2Step7(k: nat)
    ensures Pow2(7 * (k + 1)) == 0x80 * Pow2(7 * k)
  {
    Pow2Add(7, 7 * k);
    Pow2Byte();
  }

  lemma {:induction false} GroupsCons(b: byte, t: seq<byte>, n: nat)
    requires n <= |t|
    ensures Groups([b] + t, n + 1) == b % 0x80 + 0x80 * Groups(t, n)
  {
    var bt := [b] + t;
    if n > 0 {
      GroupsCons(b, t, n - 1);
      assert bt[n] == t[n - 1];
      var c: int := t[n - 1] % 0x80;
      var p := Pow2(7 * (n - 1));
      Pow2Step7(n - 1);
      var g := Groups(t, n - 1);
      assert Groups(bt, n + 1) == b % 0x80 + 0x80 * g + c * (0x80 * p);
      assert Groups(t, n) == g + c * p;
      MulShift(c, p);
    }
  }

  lemma MulShift(c: int, p: int)
    ensures c * (0x80 * p) == 0x80 * (c * p)
  {
  }

  lemma {:induction false} EncodeVarintLengthOf(v: nat, rest: seq<byte>)
    ensures VarintLength(EncodeVarint(v) + rest) == Some(|EncodeVarint(v)|)
  {
    if v >= 0x80 {
      var t := EncodeVarint(v / 0x80);
      EncodeVarintLengthOf(v / 0x80, rest);
      assert (EncodeVarint(v) + rest)[1..] == t + rest;
    }
  }

  lemma {:induction false} EncodeVarintGroups(v: nat)
    ensures Groups(EncodeVarint(v), |EncodeVarint(v)|) == v
  {
    if v >= 0x80 {
      var t := EncodeVarint(v / 0x80);
      var b: byte := v % 0x80 + 0x80;
      EncodeVarintGroups(v / 0x80);
      assert EncodeVarint(v) == [b] + t;
      GroupsCons(b, t, |t|);
      assert b % 0x80 == v % 0x80;
      assert Groups(t, |t|) == v / 0x80;
    }
  }

  /** Decoding the encoding of any 64-bit value gives the value back and
      consumes exactly the encoded bytes, whatever follows them. */
  lemma VarintRoundTrip(v: nat, rest: seq<byte>)
    requires v < TWO_64
    ensures DecodeVarint(EncodeVarint(v) + rest) == Some(Varint(v, |EncodeVarint(v)|))
  {
    var e := EncodeVarint(v);
    EncodeVarintLengthOf(v, rest);
    EncodeVarintGroups(v);
    GroupsPrefix(e, rest, |e|);
  }

  /** A 64-bit value never needs more than ten varint bytes. */
  lemma {:induction false} EncodeVarintLength(v: nat, k: nat)
    requires v < Pow2(7 * k)
    ensures |EncodeVarint(v)| <= if k == 0 then 1 else k
  {
    if v >= 0x80 {
      Pow2Values();
      assert Pow2(7 * 0) == 1 && Pow2(7 * 1) == 0x80;
      assert k >= 2;
      Pow2Add(7, 7 * (k - 1));
      assert v / 0x80 < Pow2(7 * (k - 1));
      EncodeVarintLength(v / 0x80, k - 1);
    }
  }

  lemma VarintAtMostTenBytes(v: nat)
    requires v < TWO_64
    ensures |EncodeVarint(v)| <= 10
  {
    Pow2Values();
    Pow2Add(64, 6);
    EncodeVarintLength(v, 10);
  }

  // ----- ZigZag -----

  /** _readSVarint's mapping of an lb_uint64_t v to an lb_int64_t:
      ~(v >> 1) for odd v, v >> 1 for even v. */
  function ZigZagDecode(v: nat): (r: int)
    requires v < TWO_64
    ensures -TWO_63 <= r < TWO_63
  {
    ToInt64(if v % 2 == 1 then Not64(v / 2) else v / 2)
  }

  /** The encoder's (n << 1) ^ (n >> 63) on an lb_int64_t n, as an
      lb_uint64_t: n >> 63 is all ones for a negative n and zero otherwise,
      and an exclusive or with all ones is a bitwise not. */
  function ZigZagEncode(n: int): (r: nat)
    requires -TWO_63 <= n < TWO_63
    ensures r < TWO_64
  {
    var shifted := (2 * n) % TWO_64;
    if n < 0 then Not64(shifted) else shifted
  }

  /** Odd codes are the negative numbers, even codes the non-negative ones. */
  lemma ZigZagDecodeValue(v: nat)
    requires v < TWO_64
    ensures ZigZagDecode(v) == if v % 2 == 1 then -(v / 2) - 1 else v / 2
  {
  }

  lemma ZigZagRoundTrip(n: int)
    requires -TWO_63 <= n < TWO_63
    ensures ZigZagDecode(ZigZagEncode(n)) == n
  {
    if n < 0 {
      assert (2 * n) % TWO_64 == 2 * n + TWO_64;
    }
  }

  lemma ZigZagOnto(v: nat)
    requires v < TWO_64
    ensures ZigZagEncode(ZigZagDecode(v)) == v
  {
    ZigZagDecodeValue(v);
    if v % 2 == 1 {
      var n := -(v / 2) - 1;
      assert (2 * n) % TWO_64 == 2 * n + TWO_64;
    }
  }

  // ----- Little-endian fixed-width numbers -----

  /** Byte k of s stands at bit 8k. */
  function LittleEndian(s: seq<byte>): (r: nat)
  {
    if |s| == 0 then 0 else s[0] + 0x100 * LittleEndian(s[1..])
  }

  function EncodeFixed(v: nat, n: nat): (r: seq<byte>)
    ensures |r| == n
  {
    if n == 0 then [] else [v % 0x100] + EncodeFixed(v / 0x100, n - 1)
  }

  lemma Pow2Step8(k: nat)
    ensures Pow2(8 * (k + 1)) == 0x100 * Pow2(8 * k)
  {
    Pow2Add(8, 8 * k);
    Pow2Byte();
  }

  lemma {:induction false} LittleEndianBound(s: seq<byte>)
    ensures LittleEndian(s) < Pow2(8 * |s|)
  {
    if |s| > 0 {
      LittleEndianBound(s[1..]);
      Pow2Step8(|s| - 1);
    }
  }

  lemma {:induction false} FixedRoundTrip(v: nat, n: nat)
    requires v < Pow2(8 * n)
    ensures LittleEndian(EncodeFixed(v, n)) == v
  {
    if n > 0 {
      Pow2Step8(n - 1);
      FixedRoundTrip(v / 0x100, n - 1);
      assert EncodeFixed(v, n)[1..] == EncodeFixed(v / 0x100, n - 1);
    }
  }

  /** The portable branch of _readFixed32: bytes[0] << 0 | bytes[1] << 8 |
      bytes[2] << 16 | bytes[3] << 24 (the groups do not overlap, so the or
      is a sum). */
  lemma Fixed32Formula(s: seq<byte>)
    requires |s| == 4
    ensures LittleEndian(s) == s[0] as int + s[1] as int * 0x100 + s[2] as int * 0x1_0000 + s[3] as int * 0x100_0000
  {
    var s1, s2, s3 := s[1..], s[2..], s[3..];
    assert s1[1..] == s2 && s2[1..] == s3 && s3[1..] == [];
    assert LittleEndian(s3) == s[3];
    assert LittleEndian(s2) == s[2] as int + 0x100 * s[3] as int;
    assert LittleEndian(s1) == s[1] as int + 0x100 * (s[2] as int + 0x100 * s[3] as int);
  }

  /** The portable branch of _readFixed64, byte k at bit 8k. */
  lemma Fixed64Formula(s: seq<byte>)
    requires |s| == 8
    ensures LittleEndian(s) ==
      s[0] as int + s[1] as int * 0x100 + s[2] as int * 0x1_0000 + s[3] as int * 0x100_0000
      + s[4] as int * 0x1_0000_0000 + s[5] as int * 0x100_0000_0000
      + s[6] as int * 0x1_0000_0000_0000 + s[7] as int * 0x100_0000_0000_0000
  {
    var t := s[4..];
    Fixed32Formula(t);
    var s1, s2, s3, s4 := s[1..], s[2..], s[3..], s[4..];
    assert s1[1..] == s2 && s2[1..] == s3 && s3[1..] == s4;
    assert LittleEndian(s3) == s[3] as int + 0x100 * LittleEndian(t);
    assert LittleEndian(s2) == s[2] as int + 0x100 * (s[3] as int + 0x100 * LittleEndian(t));
    assert LittleEndian(s1) == s[1] as int + 0x100 * (s[2] as int + 0x100 * (s[3] as int + 0x100 * LittleEndian(t)));
  }

  // ----- Tags -----

  datatype Tag = Tag(fieldNumber: nat, wireType: nat)

  /** readTag's split of a tag varint: fieldNumber = tag >> 3 stored in an
      lb_uint32_t, wireType = tag & 0x03. The mask keeps two bits, not the
      three the wire format reserves for the type. */
  function DecodeTag(tag: nat): (t: Tag)
    requires tag < TWO_64
    ensures t.wireType < 4 && t.fieldNumber < TWO_32
    ensures t.wireType == tag % 4 && (tag / 8 - t.fieldNumber) % TWO_32 == 0
  {
    Tag((tag / 8) % TWO_32, tag % 4)
  }

  /** The standard tag: (field_number << 3) | wire_type. */
  function EncodeTag(fieldNumber: nat, wireType: nat): (tag: nat)
    requires wireType < 8
  {
    fieldNumber * 8 + wireType
  }

  /** Tags of varint, 64-bit and length-delimited fields survive readTag. */
  lemma TagRoundTrip(fieldNumber: nat, wireType: nat)
    requires fieldNumber < TWO_32 && wireType in {PB_VARINT, PB_64BIT, PB_LEN}
    ensures DecodeTag(EncodeTag(fieldNumber, wireType)) == Tag(fieldNumber, wireType)
  {
  }

  /** A fixed32 field's tag comes out of readTag as a 64-bit field, because
      5 & 0x03 == 1. */
  lemma Fixed32TagReadAs64Bit(fieldNumber: nat)
    requires fieldNumber < TWO_32
    ensures DecodeTag(EncodeTag(fieldNumber, PB_32BIT)) == Tag(fieldNumber, PB_64BIT)
  {
  }
}
