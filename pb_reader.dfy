/** The Protocol Buffers pull parser (PBReader). The input stream is a byte
    sequence, a position and a flag saying whether the stream can seek. The
    functions at the top of the module say what each read yields from a
    given position; the class PBReader holds the parser state and its
    methods are proved against those functions. */
module PbReader {
  import opened Wrappers
  import opened PbWire

  /** LB_MAX_READER_SNAPSHOT_DEPTH, the capacity of the snapshot stack. */
  const LB_MAX_READER_SNAPSHOT_DEPTH: nat := 8

  const TWO_16: nat := 0x1_0000

  /** fieldNumber is an lb_uint32_t, wireType an lb_byte_t, depth an
      lb_uint16_t and length an lb_uint64_t. */
  datatype ReaderStatus = ReaderStatus(
    fieldNumber: nat, wireType: nat, depth: nat, length: nat, lengthReaded: bool)

  datatype ReaderSnapshot = ReaderSnapshot(position: nat, status: ReaderStatus)

  /** The status a reader is constructed with. */
  const InitialStatus: ReaderStatus := ReaderStatus(0, PB_VARINT, 0, 0, false)

  predicate StatusOk(st: ReaderStatus) {
    st.fieldNumber < TWO_32 && st.wireType < 0x100 && st.depth < TWO_16 && st.length < TWO_64
  }

  function Min(a: int, b: int): int {
    if a <= b then a else b
  }

  /** The outcome of one read: whether it succeeded, the value it produced
      and the stream position after it. */
  datatype Read = Read(ok: bool, value: int, next: nat)

  /** The C++ integer types the typed readValue overloads write. */
  datatype IntKind = Int32 | Int64 | UInt32 | UInt64

  predicate InRange(kind: IntKind, v: int) {
    match kind
    case Int32 => -TWO_31 <= v < TWO_31
    case Int64 => -TWO_63 <= v < TWO_63
    case UInt32 => 0 <= v < TWO_32
    case UInt64 => 0 <= v < TWO_64
  }

  // ----- What each read yields -----

  /** _readVarint at position pos. A read that finds no terminating byte
      has consumed the rest of the stream. */
  function VarintAt(data: seq<byte>, pos: nat): (r: Read)
    requires pos <= |data|
    ensures r.next <= |data| && (r.ok ==> pos < r.next && 0 <= r.value < TWO_64)
    ensures !r.ok ==> r.next == |data|
  {
    match DecodeVarint(data[pos..])
    case Some(v) => Read(true, v.value, pos + v.length)
    case None => Read(false, 0, |data|)
  }

  /** _readSVarint: the varint, ZigZag-decoded. */
  function SVarintAt(data: seq<byte>, pos: nat): (r: Read)
    requires pos <= |data|
    ensures r.next <= |data| && (r.ok ==> pos < r.next && -TWO_63 <= r.value < TWO_63)
  {
    var v := VarintAt(data, pos);
    if v.ok then Read(true, ZigZagDecode(v.value), v.next) else v
  }

  /** _readFixed32 (n = 4) and _readFixed64 (n = 8): the stream hands over
      up to n bytes; the read succeeds when all n arrived and yields them
      little-endian. */
  function FixedAt(data: seq<byte>, pos: nat, n: nat): (r: Read)
    requires pos <= |data| && n > 0
    ensures r.next <= |data| && (r.ok ==> r.next == pos + n && 0 <= r.value < Pow2(8 * n))
    ensures !r.ok ==> r.next == |data|
  {
    var count := Min(n, |data| - pos);
    if count == n then
      LittleEndianBound(data[pos..pos + n]);
      Read(true, LittleEndian(data[pos..pos + n]), pos + n)
    else Read(false, 0, pos + count)
  }

  /** Whether an integer overload accepts wire type wt at all. */
  predicate Accepts(kind: IntKind, wt: nat) {
    wt == PB_VARINT
    || (wt == PB_32BIT && (kind == Int32 || kind == UInt32))
    || (wt == PB_64BIT && (kind == Int64 || kind == UInt64))
  }

  /** _readValue(lb_int32_t *, wt): a ZigZag varint or fixed32 bits, kept
      to the low 32 bits read as two's complement. */
  function Int32At(data: seq<byte>, pos: nat, wt: nat): (r: Read)
    requires pos <= |data|
    ensures r.next <= |data|
    ensures r.ok ==> (wt == PB_VARINT || wt == PB_32BIT) && pos < r.next && -TWO_31 <= r.value < TWO_31
    ensures wt != PB_VARINT && wt != PB_32BIT ==> !r.ok && r.next == pos
  {
    if wt == PB_VARINT then
      var s := SVarintAt(data, pos);
      if s.ok then Read(true, ToInt32(s.value), s.next) else s
    else if wt == PB_32BIT then
      var f := FixedAt(data, pos, 4);
      if f.ok then Read(true, ToInt32(f.value), f.next) else f
    else Read(false, 0, pos)
  }

  /** _readValue(lb_int64_t *, wt): a ZigZag varint, or fixed64 bits read
      as two's complement. */
  function Int64At(data: seq<byte>, pos: nat, wt: nat): (r: Read)
    requires pos <= |data|
    ensures r.next <= |data|
    ensures r.ok ==> (wt == PB_VARINT || wt == PB_64BIT) && pos < r.next && -TWO_63 <= r.value < TWO_63
    ensures wt != PB_VARINT && wt != PB_64BIT ==> !r.ok && r.next == pos
  {
    if wt == PB_VARINT then SVarintAt(data, pos)
    else if wt == PB_64BIT then
      var f := FixedAt(data, pos, 8);
      Pow2Values();
      if f.ok then Read(true, ToInt64(f.value), f.next) else f
    else Read(false, 0, pos)
  }

  /** _readValue(lb_uint32_t *, wt): a varint kept to its low 32 bits, or
      fixed32. */
  function UInt32At(data: seq<byte>, pos: nat, wt: nat): (r: Read)
    requires pos <= |data|
    ensures r.next <= |data|
    ensures r.ok ==> (wt == PB_VARINT || wt == PB_32BIT) && pos < r.next && 0 <= r.value < TWO_32
    ensures wt != PB_VARINT && wt != PB_32BIT ==> !r.ok && r.next == pos
  {
    if wt == PB_VARINT then
      var v := VarintAt(data, pos);
      if v.ok then Read(true, v.value % TWO_32, v.next) else v
    else if wt == PB_32BIT then
      Pow2Values();
      FixedAt(data, pos, 4)
    else Read(false, 0, pos)
  }

  /** _readValue(lb_uint64_t *, wt): a varint, or fixed64. */
  function UInt64At(data: seq<byte>, pos: nat, wt: nat): (r: Read)
    requires pos <= |data|
    ensures r.next <= |data|
    ensures r.ok ==> (wt == PB_VARINT || wt == PB_64BIT) && pos < r.next && 0 <= r.value < TWO_64
    ensures wt != PB_VARINT && wt != PB_64BIT ==> !r.ok && r.next == pos
  {
    if wt == PB_VARINT then VarintAt(data, pos)
    else if wt == PB_64BIT then
      Pow2Values();
      FixedAt(data, pos, 8)
    else Read(false, 0, pos)
  }

  /** The four integer _readValue overloads, chosen by kind. Signed kinds
      always take a varint through ZigZag. */
  function IntegerAt(data: seq<byte>, pos: nat, kind: IntKind, wt: nat): (r: Read)
    requires pos <= |data|
    ensures r.next <= |data|
    ensures r.ok ==> Accepts(kind, wt) && pos < r.next && InRange(kind, r.value)
    ensures !Accepts(kind, wt) ==> !r.ok && r.next == pos
  {
    match kind
    case Int32 => Int32At(data, pos, wt)
    case Int64 => Int64At(data, pos, wt)
    case UInt32 => UInt32At(data, pos, wt)
    case UInt64 => UInt64At(data, pos, wt)
  }

  /** The outcome of reading a length prefix: the status after it too. */
  datatype LengthRead = LengthRead(ok: bool, length: nat, next: nat, status: ReaderStatus)

  /** readLength(v, validate): only for PB_LEN; a length already read and
      kept (lengthReaded) is returned again without consuming bytes. */
  function LengthAt(data: seq<byte>, pos: nat, st: ReaderStatus, validate: bool): (r: LengthRead)
    requires pos <= |data|
    ensures r.next <= |data|
    ensures st.wireType != PB_LEN ==> !r.ok && r.next == pos && r.status == st
    ensures !r.ok ==> r.status == st
    ensures r.ok ==> r.status.length == r.length < TWO_64 || (st.lengthReaded && r.length == st.length)
  {
    if st.wireType != PB_LEN then LengthRead(false, 0, pos, st)
    else if st.lengthReaded then LengthRead(true, st.length, pos, st)
    else
      var v := VarintAt(data, pos);
      if !v.ok then LengthRead(false, 0, v.next, st)
      else LengthRead(true, v.value, v.next, st.(length := v.value, lengthReaded := validate))
  }

  /** The outcome of a packed read: the elements read before it stopped. */
  datatype Packed = Packed(ok: bool, values: seq<int>, next: nat)

  /** _readPacked's loop from position p up to end: elements are read while
      the position is below end; a failing element ends the read. */
  function PackedFrom(data: seq<byte>, p: nat, end: nat, kind: IntKind, wt: nat): (r: Packed)
    requires p <= |data|
    ensures r.next <= |data|
    ensures forall i :: 0 <= i < |r.values| ==> InRange(kind, r.values[i])
    decreases |data| - p
  {
    if p >= end then Packed(true, [], p)
    else
      var e := IntegerAt(data, p, kind, wt);
      if !e.ok then Packed(false, [], e.next)
      else
        var rest := PackedFrom(data, e.next, end, kind, wt);
        Packed(rest.ok, [e.value] + rest.values, rest.next)
  }

  function Prepend(values: seq<int>, p: Packed): (r: Packed) {
    Packed(p.ok, values + p.values, p.next)
  }

  /** One element of a packed read, seen from the elements read before. */
  lemma PackedStep(data: seq<byte>, p: nat, end: nat, kind: IntKind, wt: nat, values: seq<int>)
    requires p <= |data| && p < end
    ensures var e := IntegerAt(data, p, kind, wt);
      Prepend(values, PackedFrom(data, p, end, kind, wt)) ==
        if e.ok then Prepend(values + [e.value], PackedFrom(data, e.next, end, kind, wt))
        else Packed(false, values, e.next)
  {
    var e := IntegerAt(data, p, kind, wt);
    if e.ok {
      var rest := PackedFrom(data, e.next, end, kind, wt);
      assert values + ([e.value] + rest.values) == (values + [e.value]) + rest.values;
    } else {
      assert values + [] == values;
    }
  }

  // ----- Properties of the reads -----

  /** A value written as a varint reads back through _readVarint. */
  lemma VarintAtEncoded(data: seq<byte>, pos: nat, v: nat)
    requires pos <= |data| && v < TWO_64
    requires pos + |EncodeVarint(v)| <= |data| && data[pos..pos + |EncodeVarint(v)|] == EncodeVarint(v)
    ensures VarintAt(data, pos) == Read(true, v, pos + |EncodeVarint(v)|)
  {
    var e := EncodeVarint(v);
    assert data[pos..] == e + data[pos + |e|..];
    VarintRoundTrip(v, data[pos + |e|..]);
  }

  /** An lb_int64_t written ZigZag-encoded reads back through the int64
      overload with PB_VARINT. */
  lemma Int64VarintRoundTrip(n: int, rest: seq<byte>)
    requires -TWO_63 <= n < TWO_63
    ensures IntegerAt(EncodeVarint(ZigZagEncode(n)) + rest, 0, Int64, PB_VARINT)
         == Read(true, n, |EncodeVarint(ZigZagEncode(n))|)
  {
    var e := EncodeVarint(ZigZagEncode(n));
    VarintAtEncoded(e + rest, 0, ZigZagEncode(n));
    ZigZagRoundTrip(n);
  }

  /** An lb_int32_t written ZigZag-encoded reads back through the int32
      overload with PB_VARINT. */
  lemma Int32VarintRoundTrip(n: int, rest: seq<byte>)
    requires -TWO_31 <= n < TWO_31
    ensures IntegerAt(EncodeVarint(ZigZagEncode(n)) + rest, 0, Int32, PB_VARINT)
         == Read(true, n, |EncodeVarint(ZigZagEncode(n))|)
  {
    Int64VarintRoundTrip(n, rest);
  }

  /** An lb_uint32_t written as fixed32 reads back through the uint32
      overload with PB_32BIT. */
  lemma UInt32FixedRoundTrip(v: nat, rest: seq<byte>)
    requires v < TWO_32
    ensures IntegerAt(EncodeFixed(v, 4) + rest, 0, UInt32, PB_32BIT) == Read(true, v, 4)
  {
    Pow2Values();
    var data := EncodeFixed(v, 4) + rest;
    assert data[0..4] == EncodeFixed(v, 4);
    FixedRoundTrip(v, 4);
  }

  /** An lb_uint64_t written as fixed64 reads back through the uint64
      overload with PB_64BIT. */
  lemma UInt64FixedRoundTrip(v: nat, rest: seq<byte>)
    requires v < TWO_64
    ensures IntegerAt(EncodeFixed(v, 8) + rest, 0, UInt64, PB_64BIT) == Read(true, v, 8)
  {
    Pow2Values();
    var data := EncodeFixed(v, 8) + rest;
    assert data[0..8] == EncodeFixed(v, 8);
    FixedRoundTrip(v, 8);
  }

  /** With validate, a second readLength returns the kept length and does
      not move the position. */
  lemma LengthKept(data: seq<byte>, pos: nat, st: ReaderStatus)
    requires pos <= |data|
    ensures var first := LengthAt(data, pos, st, true);
            first.ok ==> LengthAt(data, first.next, first.status, true)
                         == LengthRead(true, first.length, first.next, first.status)
  {
  }

  /** Without validate the length is not kept: the next readLength reads a
      fresh varint. */
  lemma LengthNotKept(data: seq<byte>, pos: nat, st: ReaderStatus)
    requires pos <= |data| && !st.lengthReaded
    ensures var first := LengthAt(data, pos, st, false);
            first.ok ==> !first.status.lengthReaded
                         && LengthAt(data, first.next, first.status, true).length
                            == (if VarintAt(data, first.next).ok then VarintAt(data, first.next).value else 0)
  {
  }

  /** A packed read of elements each written as a varint yields them all,
      in order, and ends exactly at the end of the record. */
  lemma {:induction false} PackedUnsignedRoundTrip(data: seq<byte>, p: nat, vs: seq<nat>, end: nat)
    requires p <= |data|
    requires forall i :: 0 <= i < |vs| ==> vs[i] < TWO_64
    requires end == p + |Concat(vs)| && end <= |data| && data[p..end] == Concat(vs)
    ensures PackedFrom(data, p, end, UInt64, PB_VARINT) == Packed(true, vs, end)
    decreases |vs|
  {
    if vs != [] {
      var e := EncodeVarint(vs[0]);
      var tail := Concat(vs[1..]);
      assert Concat(vs) == e + tail;
      var q := p + |e|;
      assert data[p..q] == e by {
        assert data[p..q] == data[p..end][..|e|];
      }
      assert data[q..end] == tail by {
        assert data[q..end] == data[p..end][|e|..];
      }
      VarintAtEncoded(data, p, vs[0]);
      assert IntegerAt(data, p, UInt64, PB_VARINT) == Read(true, vs[0], q);
      PackedUnsignedRoundTrip(data, q, vs[1..], end);
      assert [vs[0]] + vs[1..] == vs;
    }
  }

  /** A record whose length carries its end past 2^64: the wrapped end lies
      below the start, so the packed read succeeds with no element and
      consumes nothing more. */
  lemma PackedWrapsEmpty(data: seq<byte>, p: nat, length: nat, kind: IntKind, wt: nat)
    requires p <= |data| && p < TWO_64 && length < TWO_64 && p + length >= TWO_64
    ensures (p + length) % TWO_64 < p
    ensures PackedFrom(data, p, (p + length) % TWO_64, kind, wt) == Packed(true, [], p)
  {
    assert (p + length) % TWO_64 == p + length - TWO_64;
  }

  /** The varint encodings of vs, one after another. */
  function Concat(vs: seq<nat>): (r: seq<byte>) {
    if vs == [] then [] else EncodeVarint(vs[0]) + Concat(vs[1..])
  }

  // ----- The varint loop -----

  /** _readVarint's loop over the bytes from pos: the first byte is taken
      as it is when its MSB is clear; otherwise 7-bit groups are or-ed in
      at shifts 7, 14, ... until a byte with a clear MSB. The result is an
      lb_uint64_t, so groups past bit 63 are truncated away. */
  method DecodeVarintAt(data: seq<byte>, pos: nat) returns (ok: bool, value: nat, next: nat)
    requires pos <= |data|
    ensures ok == VarintAt(data, pos).ok && next == VarintAt(data, pos).next
    ensures ok ==> value == VarintAt(data, pos).value
  {
    ghost var s := data[pos..];
    if pos == |data| {
      return false, 0, pos;
    }
    var b := data[pos];
    next := pos + 1;
    if b < 0x80 {
      VarintLengthIs(s, 1);
      FirstGroup(s);
      return true, b, next;
    }
    var res: nat := b % 0x80;
    var shift: nat := 0;
    FirstGroup(s);
    while true
      invariant pos < next <= |data| && shift == 7 * (next - pos - 1)
      invariant forall k :: 0 <= k < next - pos ==> s[k] >= 0x80
      invariant res == Groups(s, next - pos) % TWO_64
      decreases |data| - next
    {
      shift := shift + 7;
      if next == |data| {
        return false, 0, next;
      }
      b := data[next];
      VarintStep(s, next - pos, res, shift);
      res := (res + (b % 0x80) * Pow2(shift)) % TWO_64;
      next := next + 1;
      if b < 0x80 {
        break;
      }
    }
    VarintLengthIs(s, next - pos);
    return true, res, next;
  }

  lemma FirstGroup(s: seq<byte>)
    requires |s| >= 1
    ensures Groups(s, 1) % TWO_64 == s[0] % 0x80
  {
    assert Groups(s, 1) == s[0] % 0x80;
  }

  /** One more group: or-ing group i in at shift 7i keeps res the
      truncated sum of the groups read so far. */
  lemma VarintStep(s: seq<byte>, i: nat, res: nat, shift: nat)
    requires 1 <= i < |s| && shift == 7 * i && res == Groups(s, i) % TWO_64
    ensures (res + (s[i] % 0x80) * Pow2(shift)) % TWO_64 == Groups(s, i + 1) % TWO_64
  {
    ModAdd(Groups(s, i), (s[i] % 0x80) * Pow2(shift));
  }

  lemma VarintLengthIs(s: seq<byte>, n: nat)
    requires 1 <= n <= |s| && s[n - 1] < 0x80
    requires forall k :: 0 <= k < n - 1 ==> s[k] >= 0x80
    ensures VarintLength(s) == Some(n)
  {
  }

  lemma ModAdd(a: nat, b: nat)
    ensures (a % TWO_64 + b) % TWO_64 == (a + b) % TWO_64
  {
  }

  // ----- The parser -----

  class PBReader {
    const input: seq<byte>
    const canSeek: bool
    const snapshots: array<ReaderSnapshot>
    var pos: nat
    var status: ReaderStatus
    var activSnapshot: int

    ghost predicate Valid()
      reads this, snapshots
    {
      && pos <= |input|
      && StatusOk(status)
      && snapshots.Length == LB_MAX_READER_SNAPSHOT_DEPTH
      && -1 <= activSnapshot < LB_MAX_READER_SNAPSHOT_DEPTH
      && forall k :: 0 <= k <= activSnapshot ==>
           snapshots[k].position <= |input| && StatusOk(snapshots[k].status)
    }

    /** The saved snapshots, oldest first. */
    ghost function Stack(): seq<ReaderSnapshot>
      reads this, snapshots
      requires Valid()
    {
      snapshots[..activSnapshot + 1]
    }

    /** PBReader(IInputStream *): the stream's bytes, its current position
        and whether it can seek. */
    constructor (stream: seq<byte>, position: nat, seekable: bool)
      requires position <= |stream|
      ensures Valid() && fresh(snapshots)
      ensures input == stream && pos == position && canSeek == seekable
      ensures status == InitialStatus && Stack() == []
    {
      input := stream;
      canSeek := seekable;
      pos := position;
      status := ReaderStatus(0, PB_VARINT, 0, 0, false);
      activSnapshot := -1;
      snapshots := new ReaderSnapshot[LB_MAX_READER_SNAPSHOT_DEPTH](_ => ReaderSnapshot(0, InitialStatus));
    }

    /** PBSubReader(r, depth, from, length): a fresh reader over the window
        [from, from + length) of the parent's input, with the given depth. */
    constructor Sub(parent: PBReader, depth: nat, from: nat, length: nat)
      requires parent.Valid() && depth < TWO_16 && from <= |parent.input|
      ensures Valid() && fresh(snapshots)
      ensures input == parent.input[from..Min(from + length, |parent.input|)]
      ensures pos == 0 && canSeek == parent.canSeek
      ensures status == InitialStatus.(depth := depth) && Stack() == []
    {
      input := parent.input[from..Min(from + length, |parent.input|)];
      canSeek := parent.canSeek;
      pos := 0;
      status := ReaderStatus(0, PB_VARINT, depth, 0, false);
      activSnapshot := -1;
      snapshots := new ReaderSnapshot[LB_MAX_READER_SNAPSHOT_DEPTH](_ => ReaderSnapshot(0, InitialStatus));
    }

    /** getDepth returns the lb_uint16_t depth as an lb_byte_t. */
    function Depth(): (d: nat)
      reads this
      ensures d < 0x100 && (status.depth - d) % 0x100 == 0
    {
      status.depth % 0x100
    }

    /** getRemainingBytes */
    function RemainingBytes(): int
      reads this
    {
      |input| - pos
    }

    // --- the stream ---

    /** _input->read(buf, n): hands over up to n bytes and says how many. */
    method ReadBytes(n: nat) returns (count: nat, bytes: seq<byte>)
      requires Valid()
      modifies this`pos
      ensures Valid() && count == Min(n, |input| - old(pos))
      ensures pos == old(pos) + count && bytes == input[old(pos)..pos]
    {
      count := Min(n, |input| - pos);
      bytes := input[pos..pos + count];
      pos := pos + count;
    }

    /** _input->seek(target, BEGIN); a seek by offset from CURRENT is a seek
        to pos + offset. */
    method SeekTo(target: nat) returns (ok: bool)
      requires Valid()
      modifies this`pos
      ensures Valid() && ok == (canSeek && target <= |input|)
      ensures pos == if ok then target else old(pos)
    {
      ok := canSeek && target <= |input|;
      if ok {
        pos := target;
      }
    }

    // --- scalar reads ---

    method ReadVarint() returns (ok: bool, value: nat)
      requires Valid()
      modifies this`pos
      ensures Valid()
      ensures ok == VarintAt(input, old(pos)).ok && pos == VarintAt(input, old(pos)).next
      ensures ok ==> value == VarintAt(input, old(pos)).value
    {
      var next;
      ok, value, next := DecodeVarintAt(input, pos);
      pos := next;
    }

    method ReadSVarint() returns (ok: bool, value: int)
      requires Valid()
      modifies this`pos
      ensures Valid()
      ensures ok == SVarintAt(input, old(pos)).ok && pos == SVarintAt(input, old(pos)).next
      ensures ok ==> value == SVarintAt(input, old(pos)).value
    {
      var v;
      value := 0;
      ok, v := ReadVarint();
      if ok {
        value := ZigZagDecode(v);
      }
    }

    /** _readFixed32 (n = 4) and _readFixed64 (n = 8). */
    method ReadFixed(n: nat) returns (ok: bool, value: nat)
      requires Valid() && (n == 4 || n == 8)
      modifies this`pos
      ensures Valid()
      ensures ok == FixedAt(input, old(pos), n).ok && pos == FixedAt(input, old(pos), n).next
      ensures ok ==> value == FixedAt(input, old(pos), n).value
    {
      var count, bytes := ReadBytes(n);
      ok := count == n;
      value := if ok then LittleEndian(bytes) else 0;
    }

    method ReadInt32(wt: nat) returns (ok: bool, value: int)
      requires Valid()
      modifies this`pos
      ensures Valid()
      ensures ok == Int32At(input, old(pos), wt).ok && pos == Int32At(input, old(pos), wt).next
      ensures ok ==> value == Int32At(input, old(pos), wt).value
    {
      value := 0;
      if wt == PB_VARINT {
        var v;
        ok, v := ReadSVarint();
        if ok { value := ToInt32(v); }
      } else if wt == PB_32BIT {
        var u;
        ok, u := ReadFixed(4);
        if ok { value := ToInt32(u); }
      } else {
        ok := false;
      }
    }

    method ReadInt64(wt: nat) returns (ok: bool, value: int)
      requires Valid()
      modifies this`pos
      ensures Valid()
      ensures ok == Int64At(input, old(pos), wt).ok && pos == Int64At(input, old(pos), wt).next
      ensures ok ==> value == Int64At(input, old(pos), wt).value
    {
      value := 0;
      if wt == PB_VARINT {
        ok, value := ReadSVarint();
      } else if wt == PB_64BIT {
        var u;
        ok, u := ReadFixed(8);
        if ok {
          Pow2Values();
          value := ToInt64(u);
        }
      } else {
        ok := false;
      }
    }

    method ReadUInt32(wt: nat) returns (ok: bool, value: int)
      requires Valid()
      modifies this`pos
      ensures Valid()
      ensures ok == UInt32At(input, old(pos), wt).ok && pos == UInt32At(input, old(pos), wt).next
      ensures ok ==> value == UInt32At(input, old(pos), wt).value
    {
      value := 0;
      if wt == PB_VARINT {
        var v;
        ok, v := ReadVarint();
        if ok { value := v % TWO_32; }
      } else if wt == PB_32BIT {
        ok, value := ReadFixed(4);
      } else {
        ok := false;
      }
    }

    method ReadUInt64(wt: nat) returns (ok: bool, value: int)
      requires Valid()
      modifies this`pos
      ensures Valid()
      ensures ok == UInt64At(input, old(pos), wt).ok && pos == UInt64At(input, old(pos), wt).next
      ensures ok ==> value == UInt64At(input, old(pos), wt).value
    {
      value := 0;
      if wt == PB_VARINT {
        ok, value := ReadVarint();
      } else if wt == PB_64BIT {
        ok, value := ReadFixed(8);
      } else {
        ok := false;
      }
    }

    /** The overload for kind. */
    method ReadInteger(kind: IntKind, wt: nat) returns (ok: bool, value: int)
      requires Valid()
      modifies this`pos
      ensures Valid()
      ensures ok == IntegerAt(input, old(pos), kind, wt).ok && pos == IntegerAt(input, old(pos), kind, wt).next
      ensures ok ==> value == IntegerAt(input, old(pos), kind, wt).value
    {
      match kind
      case Int32 => ok, value := ReadInt32(wt);
      case Int64 => ok, value := ReadInt64(wt);
      case UInt32 => ok, value := ReadUInt32(wt);
      case UInt64 => ok, value := ReadUInt64(wt);
    }

    /** The public readValue overloads for integers: the current wire type
        chooses the encoding. */
    method ReadValue(kind: IntKind) returns (ok: bool, value: int)
      requires Valid()
      modifies this`pos
      ensures Valid()
      ensures ok == IntegerAt(input, old(pos), kind, status.wireType).ok
      ensures pos == IntegerAt(input, old(pos), kind, status.wireType).next
      ensures ok ==> value == IntegerAt(input, old(pos), kind, status.wireType).value
    {
      ok, value := ReadInteger(kind, status.wireType);
    }

    /** readValue(lb_bool_t *): any varint, non-zero meaning true; the wire
        type is not consulted. */
    method ReadBool() returns (ok: bool, b: bool)
      requires Valid()
      modifies this`pos
      ensures Valid()
      ensures ok == VarintAt(input, old(pos)).ok && pos == VarintAt(input, old(pos)).next
      ensures ok ==> b == (VarintAt(input, old(pos)).value != 0)
    {
      var v;
      ok, v := ReadVarint();
      b := v != 0;
    }

    method ReadTag() returns (ok: bool)
      requires Valid()
      modifies this`pos, this`status
      ensures Valid()
      ensures ok == VarintAt(input, old(pos)).ok && pos == VarintAt(input, old(pos)).next
      ensures ok ==> status == old(status).(
        fieldNumber := DecodeTag(VarintAt(input, old(pos)).value).fieldNumber,
        wireType := DecodeTag(VarintAt(input, old(pos)).value).wireType)
      ensures !ok ==> status == old(status)
    {
      var tag;
      ok, tag := ReadVarint();
      if ok {
        status := status.(fieldNumber := DecodeTag(tag).fieldNumber, wireType := DecodeTag(tag).wireType);
      }
    }

    method ReadLength(validate: bool) returns (ok: bool, length: nat)
      requires Valid()
      modifies this`pos, this`status
      ensures Valid()
      ensures ok == LengthAt(input, old(pos), old(status), validate).ok
      ensures pos == LengthAt(input, old(pos), old(status), validate).next
      ensures status == LengthAt(input, old(pos), old(status), validate).status
      ensures ok ==> length == LengthAt(input, old(pos), old(status), validate).length
    {
      length := 0;
      if status.wireType != PB_LEN {
        return false, 0;
      }
      if status.lengthReaded {
        return true, status.length;
      }
      ok, length := ReadVarint();
      if !ok {
        return false, length;
      }
      status := status.(length := length, lengthReaded := validate);
    }

    /** _invalidateLengthReaded */
    method InvalidateLengthReaded()
      requires Valid()
      modifies this`status
      ensures Valid() && status == old(status).(lengthReaded := false)
    {
      status := status.(lengthReaded := false);
    }

    // --- length-delimited reads ---

    /** readValue(char *): the record's bytes followed by a 0 terminator. */
    method ReadString() returns (ok: bool, str: seq<byte>)
      requires Valid()
      modifies this`pos, this`status
      ensures Valid()
      ensures var l := LengthAt(input, old(pos), old(status), true);
        && (!l.ok ==> !ok && pos == l.next && status == old(status))
        && (l.ok ==> && status == l.status.(lengthReaded := false)
                     && ok == (l.next + l.length <= |input|)
                     && pos == Min(l.next + l.length, |input|)
                     && (ok ==> str == input[l.next..l.next + l.length] + [0]))
    {
      str := [];
      var size;
      ok, size := ReadLength(true);
      if !ok {
        return;
      }
      InvalidateLengthReaded();
      var readed, bytes := ReadBytes(size);
      if readed != size {
        return false, str;
      }
      str := bytes + [0];
    }

    /** readValue(lb_byte_t *): the record's bytes. */
    method ReadBytesValue() returns (ok: bool, bytes: seq<byte>)
      requires Valid()
      modifies this`pos, this`status
      ensures Valid()
      ensures var l := LengthAt(input, old(pos), old(status), true);
        && (!l.ok ==> !ok && pos == l.next && status == old(status))
        && (l.ok ==> && status == l.status.(lengthReaded := false)
                     && ok == (l.next + l.length <= |input|)
                     && pos == Min(l.next + l.length, |input|)
                     && (ok ==> bytes == input[l.next..l.next + l.length]))
    {
      bytes := [];
      var size;
      ok, size := ReadLength(true);
      if !ok {
        return;
      }
      InvalidateLengthReaded();
      var readed;
      readed, bytes := ReadBytes(size);
      ok := readed == size;
    }

    /** readValue_s(char *v, s) with s == v.Length: copies at most s - 1
        bytes, terminates them with a 0 and seeks past the rest. */
    method ReadStringBounded(v: array<byte>) returns (ok: bool)
      requires Valid() && v.Length >= 1
      modifies this`pos, this`status, v
      ensures Valid()
      ensures var l := LengthAt(input, old(pos), old(status), true);
        var m := Min(l.length, v.Length - 1);
        var c := Min(m, |input| - l.next);
        && (!l.ok ==> !ok && pos == l.next && status == old(status) && v[..] == old(v[..]))
        && (l.ok ==>
             && status == l.status.(lengthReaded := false)
             && v[..c] == input[l.next..l.next + c]
             && ok == (c == m && (m == l.length || (canSeek && l.next + l.length <= |input|)))
             && pos == (if c != m then l.next + c
                        else if ok then l.next + l.length
                        else l.next + m)
             && (ok ==> v[m] == 0 && v[m + 1..] == old(v[m + 1..]))
             && (!ok ==> v[c..] == old(v[c..])))
    {
      var size;
      ok, size := ReadLength(true);
      if !ok {
        return;
      }
      InvalidateLengthReaded();
      var maxSize := Min(size, v.Length - 1);
      ok := ReadClipped(v, size, maxSize);
      if !ok {
        return;
      }
      v[maxSize] := 0;
    }

    /** readValue_s(lb_byte_t *v, s) with s == v.Length: copies at most s
        bytes and seeks past the rest. */
    method ReadBytesBounded(v: array<byte>) returns (ok: bool)
      requires Valid()
      modifies this`pos, this`status, v
      ensures Valid()
      ensures var l := LengthAt(input, old(pos), old(status), true);
        var m := Min(l.length, v.Length);
        var c := Min(m, |input| - l.next);
        && (!l.ok ==> !ok && pos == l.next && status == old(status) && v[..] == old(v[..]))
        && (l.ok ==>
             && status == l.status.(lengthReaded := false)
             && v[..c] == input[l.next..l.next + c]
             && v[c..] == old(v[c..])
             && ok == (c == m && (m == l.length || (canSeek && l.next + l.length <= |input|)))
             && pos == (if c != m then l.next + c
                        else if ok then l.next + l.length
                        else l.next + m))
    {
      var size;
      ok, size := ReadLength(true);
      if !ok {
        return;
      }
      InvalidateLengthReaded();
      var maxSize := Min(size, v.Length);
      ok := ReadClipped(v, size, maxSize);
    }

    /** What both readValue_s overloads do once the length is known: read
        maxSize bytes into v, then seek past the other size - maxSize. */
    method ReadClipped(v: array<byte>, size: nat, maxSize: nat) returns (ok: bool)
      requires Valid() && maxSize <= size && maxSize <= v.Length
      modifies this`pos, v
      ensures Valid()
      ensures var c := Min(maxSize, |input| - old(pos));
        && v[..c] == input[old(pos)..old(pos) + c] && v[c..] == old(v[c..])
        && ok == (c == maxSize && (maxSize == size || (canSeek && old(pos) + size <= |input|)))
        && pos == (if c != maxSize then old(pos) + c
                   else if ok then old(pos) + size
                   else old(pos) + maxSize)
    {
      var count, bytes := ReadBytes(maxSize);
      forall k | 0 <= k < count {
        v[k] := bytes[k];
      }
      if count != maxSize {
        return false;
      }
      if maxSize != size {
        ok := SeekTo(pos + (size - maxSize));
        if !ok {
          return;
        }
      }
      ok := true;
    }

    /** _readPacked and the four integer readPacked overloads: the elements
        of a length-delimited record, each read with wire type wt. The end
        of the record is a size_t, here 64 bits wide, so a length that
        carries pos + size past 2^64 wraps end below pos and no element is
        read (see PackedWrapsEmpty). */
    method ReadPacked(kind: IntKind, wt: nat) returns (ok: bool, values: seq<int>)
      requires Valid()
      modifies this`pos, this`status
      ensures Valid()
      ensures var l := LengthAt(input, old(pos), old(status), true);
        && (!l.ok ==> !ok && values == [] && pos == l.next && status == old(status))
        && (l.ok ==> && status == l.status.(lengthReaded := false)
                     && var p := PackedFrom(input, l.next, (l.next + l.length) % TWO_64, kind, wt);
                        ok == p.ok && values == p.values && pos == p.next)
    {
      values := [];
      if status.wireType != PB_LEN {
        return false, values;
      }
      var size;
      ok, size := ReadLength(true);
      if !ok {
        return;
      }
      InvalidateLengthReaded();
      ok, values := ReadPackedElements((pos + size) % TWO_64, kind, wt);
    }

    /** _readPacked's loop: elements are read until the position reaches
        end or an element fails. */
    method ReadPackedElements(end: nat, kind: IntKind, wt: nat) returns (ok: bool, values: seq<int>)
      requires Valid()
      modifies this`pos
      ensures Valid()
      ensures var p := PackedFrom(input, old(pos), end, kind, wt);
        ok == p.ok && values == p.values && pos == p.next
    {
      values := [];
      if pos < end {
        while true
          invariant Valid() && pos < end
          invariant PackedFrom(input, old(pos), end, kind, wt)
                 == Prepend(values, PackedFrom(input, pos, end, kind, wt))
          decreases |input| - pos
        {
          PackedStep(input, pos, end, kind, wt, values);
          var elementOk, v := ReadInteger(kind, wt);
          if !elementOk {
            return false, values;
          }
          values := values + [v];
          if pos >= end {
            break;
          }
        }
      }
      ok := true;
    }

    /** skip: moves past the current field's value. A wire type other than
        varint, 64-bit, length-delimited and 32-bit makes it fail (see the
        findings on SkipPlanAsWritten). */
    method Skip() returns (ok: bool)
      requires Valid()
      modifies this`pos, this`status
      ensures Valid()
      ensures var wt := old(status).wireType;
        && (wt == PB_VARINT ==>
              (status == old(status)
               && ok == VarintAt(input, old(pos)).ok && pos == VarintAt(input, old(pos)).next))
        && ((wt == PB_32BIT || wt == PB_64BIT) ==>
              (status == old(status)
               && var width := if wt == PB_32BIT then 4 else 8;
                  ok == (canSeek && old(pos) + width <= |input|)
                  && pos == if ok then old(pos) + width else old(pos)))
        && (wt == PB_LEN ==>
              var l := LengthAt(input, old(pos), old(status), true);
              && (!l.ok ==> !ok && pos == l.next && status == old(status))
              && (l.ok ==>
                    (status == l.status.(lengthReaded := false)
                     && ok == (canSeek && l.next + l.length <= |input|)
                     && pos == if ok then l.next + l.length else l.next)))
        && (wt !in {PB_VARINT, PB_64BIT, PB_LEN, PB_32BIT} ==>
              !ok && pos == old(pos) && status == old(status))
    {
      var size: nat;
      var wt := status.wireType;
      if wt == PB_LEN {
        ok, size := ReadLength(true);
        if !ok {
          return;
        }
        InvalidateLengthReaded();
      } else if wt == PB_VARINT {
        var ignored;
        ok, ignored := ReadVarint();
        return;
      } else if wt == PB_32BIT {
        size := 4;
      } else if wt == PB_64BIT {
        size := 8;
      } else {
        return false;
      }
      ok := SeekTo(pos + size);
    }

    /** getSubMessageReader: a reader over the next length-delimited record,
        one level deeper; this reader stays at the start of the record. */
    method GetSubMessageReader() returns (sub: PBReader?)
      requires Valid()
      modifies this`pos, this`status
      ensures Valid()
      ensures var l := LengthAt(input, old(pos), old(status), true);
        && (!l.ok ==> sub == null && pos == l.next && status == old(status))
        && (l.ok ==> && sub != null && fresh(sub) && fresh(sub.snapshots) && sub.Valid()
                     && pos == l.next && status == l.status.(lengthReaded := false)
                     && sub.input == input[l.next..Min(l.next + l.length, |input|)]
                     && sub.pos == 0 && sub.canSeek == canSeek && sub.Stack() == []
                     && sub.status == InitialStatus.(depth := (old(status).depth + 1) % TWO_16))
    {
      var ok, l := ReadLength(true);
      if !ok {
        return null;
      }
      InvalidateLengthReaded();
      sub := new PBReader.Sub(this, (status.depth + 1) % TWO_16, pos, l);
    }

    // --- snapshots ---

    /** save: pushes the position and status, unless the stream cannot seek
        or the stack is full. */
    method Save()
      requires Valid()
      modifies this`activSnapshot, snapshots
      ensures Valid()
      ensures canSeek && |old(Stack())| < LB_MAX_READER_SNAPSHOT_DEPTH ==>
        Stack() == old(Stack()) + [ReaderSnapshot(pos, status)]
      ensures !(canSeek && |old(Stack())| < LB_MAX_READER_SNAPSHOT_DEPTH) ==>
        activSnapshot == old(activSnapshot) && snapshots[..] == old(snapshots[..])
    {
      if canSeek && activSnapshot < LB_MAX_READER_SNAPSHOT_DEPTH - 1 {
        activSnapshot := activSnapshot + 1;
        snapshots[activSnapshot] := ReaderSnapshot(pos, status);
      }
    }

    /** restore: returns to the last saved position and status and pops it. */
    method Restore()
      requires Valid()
      modifies this`activSnapshot, this`pos, this`status
      ensures Valid()
      ensures canSeek && |old(Stack())| > 0 ==>
        && pos == old(Stack())[|old(Stack())| - 1].position
        && status == old(Stack())[|old(Stack())| - 1].status
        && Stack() == old(Stack())[..|old(Stack())| - 1]
      ensures !(canSeek && |old(Stack())| > 0) ==>
        pos == old(pos) && status == old(status) && activSnapshot == old(activSnapshot)
    {
      if canSeek && activSnapshot >= 0 {
        status := snapshots[activSnapshot].status;
        var _ := SeekTo(snapshots[activSnapshot].position);
        activSnapshot := activSnapshot - 1;
      }
    }

    /** unsave: pops the last snapshot and stays where it is. */
    method Unsave()
      requires Valid()
      modifies this`activSnapshot
      ensures Valid()
      ensures canSeek && |old(Stack())| > 0 ==> Stack() == old(Stack())[..|old(Stack())| - 1]
      ensures !(canSeek && |old(Stack())| > 0) ==> activSnapshot == old(activSnapshot)
    {
      if canSeek && activSnapshot >= 0 {
        activSnapshot := activSnapshot - 1;
      }
    }
  }

  /** Lookahead with save/read/restore: the tag is read and the reader is
      left exactly as it was. */
  method PeekTag(r: PBReader) returns (ok: bool, tag: Tag)
    requires r.Valid() && r.canSeek && |r.Stack()| < LB_MAX_READER_SNAPSHOT_DEPTH
    modifies r, r.snapshots
    ensures r.Valid() && r.pos == old(r.pos) && r.status == old(r.status)
    ensures r.Stack() == old(r.Stack())
    ensures ok == VarintAt(r.input, r.pos).ok
    ensures ok ==> tag == DecodeTag(VarintAt(r.input, r.pos).value)
  {
    r.Save();
    ok := r.ReadTag();
    tag := Tag(r.status.fieldNumber, r.status.wireType);
    r.Restore();
  }

  // ----- Findings -----

  /** _readFixed32/_readFixed64 as written: `bool r = _input->read(bytes, n)`
      turns any non-zero count into success. */
  predicate FixedAcceptedAsWritten(data: seq<byte>, pos: nat, n: nat)
    requires pos <= |data|
  {
    Min(n, |data| - pos) != 0
  }

  /** A 32-bit field with only two bytes left in the stream: the code as
      written reports success; FixedAt does not. */
  lemma PartialFixedReadAccepted()
    ensures FixedAcceptedAsWritten([0x01, 0x02], 0, 4)
    ensures !FixedAt([0x01, 0x02], 0, 4).ok
  {
  }

  /** What skip's switch does with each wire type, as written: no case for
      any other value, so `size` is used uninitialised in the seek. */
  datatype SkipPlan = ByLength | ByVarint | ByWidth(width: nat) | Uninitialised

  function SkipPlanAsWritten(wt: nat): (plan: SkipPlan) {
    if wt == PB_LEN then ByLength
    else if wt == PB_VARINT then ByVarint
    else if wt == PB_32BIT then ByWidth(4)
    else if wt == PB_64BIT then ByWidth(8)
    else Uninitialised
  }

  /** A start-group tag (wire type 3) passes readTag's mask unchanged and
      reaches skip's missing case. */
  lemma SkipGroupUninitialised(fieldNumber: nat)
    requires fieldNumber < TWO_32
    ensures DecodeTag(EncodeTag(fieldNumber, 3)).wireType == 3
    ensures SkipPlanAsWritten(DecodeTag(EncodeTag(fieldNumber, 3)).wireType) == Uninitialised
  {
  }
}
