/**
 * The record field codec of `src/ichannel.cpp` (class `IChannel`).
 *
 * A channel's value sits in a fixed-length record at a byte offset, a bit
 * offset and a bit count. Reading copies those bits into a byte-aligned
 * buffer and decodes it by data type; writing injects an already encoded
 * value in place into the channel's sample buffer.
 *
 * The geometry a channel reports (ByteOffset(), BitOffset(), BitCount(),
 * DataBytes(), DataType()) is a value, `Geometry`; the read path consists of
 * functions and read-only methods over it. The sample buffer that the setters
 * change in place is an array held by the class `Channel`.
 */
module IChannel {
  import opened Buffers
  import opened Endian

  datatype ChannelDataType =
    | UnsignedIntegerLe | UnsignedIntegerBe
    | SignedIntegerLe | SignedIntegerBe
    | FloatLe | FloatBe
    | StringAscii | StringUTF8 | StringUTF16Le | StringUTF16Be
    | ByteArray | MimeSample | MimeStream
    | CanOpenDate | CanOpenTime

  predicate IsText(t: ChannelDataType) {
    t.StringAscii? || t.StringUTF8? || t.StringUTF16Le? || t.StringUTF16Be?
  }

  predicate IsFloat(t: ChannelDataType) {
    t.FloatLe? || t.FloatBe?
  }

  /** Bit offset within the first byte: 0 means byte aligned, 1 to 8 name a bit counted
      from the least significant bit (bit 1) to the most significant (bit 8). */
  type BitPosition = x: int | 0 <= x <= 8

  datatype Geometry = Geometry(
    byteOffset: nat,
    bitOffset: BitPosition,
    bitCount: nat,
    dataBytes: nat,
    dataType: ChannelDataType)

  /** The result of a getter: its validity flag and the value it leaves in `dest`. */
  datatype Reading<T> = Reading(valid: bool, value: T)

  function Pow2(k: nat): (r: nat)
    ensures r >= 1
  {
    if k == 0 then 1 else 2 * Pow2(k - 1)
  }

  /** Bit `k` (1 = least significant) of `x`, i.e. `x & (0x01 << (k - 1))`, with the mask
      written out for each of the eight bit positions. */
  predicate BitIsSet(x: Byte, k: BitPosition)
    requires k >= 1
  {
    match k
    case 1 => x % 2 == 1
    case 2 => (x / 0x02) % 2 == 1
    case 3 => (x / 0x04) % 2 == 1
    case 4 => (x / 0x08) % 2 == 1
    case 5 => (x / 0x10) % 2 == 1
    case 6 => (x / 0x20) % 2 == 1
    case 7 => (x / 0x40) % 2 == 1
    case _ => (x / 0x80) % 2 == 1
  }

  /** The mask `0x01 << (k - 1)` is 2^(k-1), so bit `k` is set exactly when `x / 2^(k-1)`
      is odd. */
  lemma BitIsSetByMask(x: Byte, k: BitPosition)
    requires k >= 1
    ensures BitIsSet(x, k) <==> (x / Pow2(k - 1)) % 2 == 1
  {
    assert Pow2(1) == 0x02 && Pow2(2) == 0x04 && Pow2(3) == 0x08 && Pow2(4) == 0x10;
    assert Pow2(5) == 0x20 && Pow2(6) == 0x40 && Pow2(7) == 0x80;
  }

  /** `BitCount() / 8 + (BitCount() % 8 > 0 ? 1 : 0)`: the bytes a bit count occupies. */
  function NofBytes(bitCount: nat): (r: nat)
    ensures bitCount <= 8 * r < bitCount + 8
  {
    bitCount / 8 + (if bitCount % 8 > 0 then 1 else 0)
  }

  // ---------------------------------------------------------------------------
  // Bit-field extraction (CopyToDataBuffer)

  /** What the unchecked copy of each path of CopyToDataBuffer reads of the record. */
  predicate FieldReadable(g: Geometry, record: seq<Byte>) {
    && (g.bitOffset == 0 ==> g.byteOffset + NofBytes(g.bitCount) <= |record|)
    && (g.bitOffset != 0 && g.bitCount == 1 ==> g.byteOffset < |record|)
  }

  /** The value buffer CopyToDataBuffer produces, path by path. On the general path
      (bit offset set, more than one bit) the loop never runs, so the buffer stays zero. */
  function ExtractField(g: Geometry, record: seq<Byte>): (r: seq<Byte>)
    requires FieldReadable(g, record)
    ensures |r| == NofBytes(g.bitCount)
  {
    var n := NofBytes(g.bitCount);
    if g.bitOffset == 0 then
      record[g.byteOffset .. g.byteOffset + n]
    else if g.bitCount == 1 then
      [if BitIsSet(record[g.byteOffset], g.bitOffset) then 1 else 0]
    else
      Zeros(n)
  }

  /** Position of the `m`-th bit of the bit walk: it starts at bit BitOffset() of byte
      ByteOffset() and moves to less significant bits, wrapping to bit 8 of the next byte.
      Returns the byte index and the bit number (1..8). */
  function WalkPosition(g: Geometry, m: nat): (p: (nat, BitPosition))
    requires g.bitOffset != 0
    ensures 1 <= p.1
  {
    if m == 0 then
      (g.byteOffset, g.bitOffset)
    else
      var q := WalkPosition(g, m - 1);
      if q.1 == 1 then (q.0 + 1, 8) else (q.0, q.1 - 1)
  }

  /** The walk from iteration `start` on reads only bytes inside the record. */
  predicate WalkReadable(g: Geometry, record: seq<Byte>, start: nat)
    requires g.bitOffset != 0
  {
    start < g.bitCount ==> WalkPosition(g, g.bitCount - 1 - start).0 < |record|
  }

  /** `data_buffer[out_byte] |= 0x01`. */
  function Or1(x: Byte): Byte {
    if x % 2 == 0 then x + 1 else x
  }

  /** One iteration `ii` of the bit loop: OR the source bit into output byte `ii / 8`,
      then shift that byte left (within 8 bits) unless this is the last bit. */
  function PushBit(data: seq<Byte>, ii: nat, bit: bool, bitCount: nat): (r: seq<Byte>)
    requires ii < bitCount && |data| == NofBytes(bitCount)
    ensures |r| == |data|
  {
    var o := ii / 8;
    var d := if bit then Or1(data[o]) else data[o];
    data[o := if ii < bitCount - 1 then (2 * d) % 0x100 else d]
  }

  /** The state of the output buffer after the bit loop has run from iteration `ii` on,
      for a loop whose first iteration was `start`. */
  function ShiftIn(g: Geometry, record: seq<Byte>, data: seq<Byte>, start: nat, ii: nat): (r: seq<Byte>)
    requires g.bitOffset != 0 && |data| == NofBytes(g.bitCount)
    requires start <= ii && WalkReadable(g, record, start)
    ensures |r| == |data|
    decreases g.bitCount - ii
  {
    if ii >= g.bitCount then
      data
    else
      WalkMonotonic(g, ii - start, g.bitCount - 1 - start);
      var p := WalkPosition(g, ii - start);
      ShiftIn(g, record, PushBit(data, ii, BitIsSet(record[p.0], p.1), g.bitCount), start, ii + 1)
  }

  /** The walk in closed form: counting bits from bit 8 of byte ByteOffset(), the `m`-th
      bit of the walk is bit number `t = 8 - BitOffset() + m`, which lies in byte `t / 8`
      after ByteOffset() at bit `8 - t % 8`. */
  lemma {:induction false} WalkClosedForm(g: Geometry, m: nat)
    requires g.bitOffset != 0
    ensures var t := 8 - g.bitOffset + m;
      WalkPosition(g, m) == (g.byteOffset + t / 8, 8 - t % 8)
  {
    if m > 0 {
      WalkClosedForm(g, m - 1);
      var t := 8 - g.bitOffset + m - 1;
      if t % 8 == 7 {
        DivModUnique(t + 1, 8, t / 8 + 1, 0);
      } else {
        DivModUnique(t + 1, 8, t / 8, t % 8 + 1);
      }
    } else {
      DivModUnique(8 - g.bitOffset, 8, 0, 8 - g.bitOffset);
    }
  }

  /** While fewer than BitOffset() bits have been taken the walk stays in the first byte. */
  lemma {:induction false} WalkInFirstByte(g: Geometry, m: nat)
    requires 0 < g.bitOffset && m < g.bitOffset
    ensures WalkPosition(g, m) == (g.byteOffset, g.bitOffset - m)
  {
    if m > 0 {
      WalkInFirstByte(g, m - 1);
    }
  }

  /** The walk never moves back to an earlier byte. */
  lemma {:induction false} WalkMonotonic(g: Geometry, m: nat, n: nat)
    requires g.bitOffset != 0 && m <= n
    ensures WalkPosition(g, m).0 <= WalkPosition(g, n).0
    decreases n
  {
    if m < n {
      WalkMonotonic(g, m, n - 1);
    }
  }

  /** The bit loop of CopyToDataBuffer, with its first iteration `start` as a parameter:
      the code as written starts at BitCount(); the loop evidently should start at 0. */
  method ShiftInBits(g: Geometry, record: seq<Byte>, data: seq<Byte>, start: nat) returns (out: seq<Byte>)
    requires g.bitOffset != 0 && |data| == NofBytes(g.bitCount)
    requires WalkReadable(g, record, start)
    ensures out == ShiftIn(g, record, data, start, start)
    ensures start >= g.bitCount ==> out == data
  {
    out := data;
    var inOffset: nat := g.bitOffset;
    var inByte: nat := g.byteOffset;
    var ii := start;
    while ii < g.bitCount
      invariant start <= ii && |out| == |data|
      invariant (inByte, inOffset) == WalkPosition(g, ii - start)
      invariant ShiftIn(g, record, out, start, ii) == ShiftIn(g, record, data, start, start)
    {
      ghost var m := ii - start;
      ShiftInStep(g, record, out, start, ii, inByte, inOffset);
      ghost var bit := BitIsSet(record[inByte], inOffset);
      BitIsSetByMask(record[inByte], inOffset);
      var inBit := Pow2(inOffset - 1);
      var outByte := ii / 8;
      var d: Byte := out[outByte];
      if (record[inByte] / inBit) % 2 == 1 {
        d := Or1(d);
      }
      if ii < g.bitCount - 1 {
        d := (2 * (d as int)) % 0x100;
      }
      assert out[outByte := d] == PushBit(out, ii, bit, g.bitCount);
      out := out[outByte := d];
      inOffset := inOffset - 1;
      if inOffset == 0 {
        inOffset := 8;
        inByte := inByte + 1;
      }
      assert (inByte, inOffset) == WalkPosition(g, m + 1);
      ii := ii + 1;
    }
  }

  /** `CopyToDataBuffer`: the channel's bits as a buffer of ceil(BitCount/8) bytes,
      zero-filled before any copy. */
  method CopyToDataBuffer(g: Geometry, record: seq<Byte>) returns (data: seq<Byte>)
    requires FieldReadable(g, record)
    ensures data == ExtractField(g, record)
    ensures |data| == NofBytes(g.bitCount)
    ensures g.bitOffset == 0 ==> data == record[g.byteOffset .. g.byteOffset + |data|]
    ensures g.bitOffset != 0 && g.bitCount == 1 ==>
      data == [if BitIsSet(record[g.byteOffset], g.bitOffset) then 1 else 0]
    ensures g.bitOffset != 0 && g.bitCount != 1 ==> data == Zeros(|data|)
  {
    var n := NofBytes(g.bitCount);
    data := Zeros(n);
    if g.bitOffset == 0 {
      data := record[g.byteOffset .. g.byteOffset + n];
    } else if g.bitCount == 1 {
      var inBit := Pow2(g.bitOffset - 1);
      data := data[0 := if (record[g.byteOffset] / inBit) % 2 == 1 then 1 else 0];
    } else {
      // for (auto ii = BitCount(); ii < BitCount(); ++ii): the first iteration is BitCount()
      data := ShiftInBits(g, record, data, g.bitCount);
    }
  }

  // ---------------------------------------------------------------------------
  // Typed getters

  predicate ReadsAsUnsigned(t: ChannelDataType) {
    IsText(t) || t.UnsignedIntegerLe? || t.UnsignedIntegerBe?
  }

  /** `GetUnsignedValue`: text types and little-endian unsigned decode the value buffer
      little-endian, big-endian unsigned decodes it big-endian; any other type fails and
      leaves `dest` as it was. */
  function GetUnsignedValue(g: Geometry, record: seq<Byte>, dest: uint64): (r: Reading<uint64>)
    requires FieldReadable(g, record)
    ensures r.valid <==> ReadsAsUnsigned(g.dataType)
    ensures !r.valid ==> r.value == dest
    ensures r.valid ==> r.value < Pow256(NofBytes(g.bitCount))
    ensures r.valid && !IntegerSize(NofBytes(g.bitCount)) ==> r.value == 0
  {
    var data := ExtractField(g, record);
    match g.dataType
    case StringUTF16Le | StringUTF16Be | StringUTF8 | StringAscii | UnsignedIntegerLe =>
      Reading(true, ConvertUnsignedLe(data))
    case UnsignedIntegerBe =>
      Reading(true, ConvertUnsignedBe(data))
    case _ =>
      Reading(false, dest)
  }

  /** `GetSignedValue`: only the two signed types decode; any other type fails and
      leaves `dest` as it was. */
  function GetSignedValue(g: Geometry, record: seq<Byte>, dest: int64): (r: Reading<int64>)
    requires FieldReadable(g, record)
    ensures r.valid <==> g.dataType.SignedIntegerLe? || g.dataType.SignedIntegerBe?
    ensures !r.valid ==> r.value == dest
    ensures r.valid && IntegerSize(NofBytes(g.bitCount)) ==>
      -HalfRange(NofBytes(g.bitCount)) <= r.value < HalfRange(NofBytes(g.bitCount))
    ensures r.valid && !IntegerSize(NofBytes(g.bitCount)) ==> r.value == 0
  {
    var data := ExtractField(g, record);
    match g.dataType
    case SignedIntegerLe => Reading(true, ConvertSignedLe(data))
    case SignedIntegerBe => Reading(true, ConvertSignedBe(data))
    case _ => Reading(false, dest)
  }

  /** The bytes from `from` up to, not including, the first zero byte or the end of the
      whole record (not bounded by the field width). */
  function CStringAt(record: seq<Byte>, from: nat): (r: seq<Byte>)
    ensures from + |r| <= |record| || r == []
    ensures forall i :: 0 <= i < |r| ==> from + i < |record| && r[i] == record[from + i] && r[i] != 0
    ensures from + |r| >= |record| || record[from + |r|] == 0
    decreases |record| - from
  {
    if from >= |record| || record[from] == 0 then
      []
    else
      var rest := CStringAt(record, from + 1);
      assert from + 1 + |rest| <= |record|;
      assert forall i :: 0 <= i < |rest| ==> rest[i] == record[from + 1 + i];
      assert [record[from]] + rest == record[from .. from + 1 + |rest|];
      [record[from]] + rest
  }

  type Utf16Unit = x: int | 0 <= x < 0x1_0000

  /** The 16-bit code unit at `at`, in the given byte order. */
  function UnitAt(record: seq<Byte>, at: nat, bigEndian: bool): (r: Utf16Unit)
    requires at + 2 <= |record|
    ensures r == if bigEndian then DecodeBe(record[at .. at + 2]) else DecodeLe(record[at .. at + 2])
  {
    var first: int, second: int := record[at], record[at + 1];
    var b := record[at .. at + 2];
    assert b[1..] == [second] && b[1..][1..] == [] && b[..1] == [first] && b[..1][..0] == [];
    if bigEndian then 0x100 * first + second else first + 0x100 * second
  }

  /** The code units at `from`, `from + 2`, ... up to, not including, the first zero unit
      or the last complete unit of the record. */
  function Utf16At(record: seq<Byte>, from: nat, bigEndian: bool): (r: seq<Utf16Unit>)
    ensures from + 2 * |r| <= |record| || r == []
    ensures 0 !in r
    ensures from + 2 * |r| + 2 > |record| || UnitAt(record, from + 2 * |r|, bigEndian) == 0
    decreases |record| - from
  {
    if from + 2 > |record| || UnitAt(record, from, bigEndian) == 0 then []
    else [UnitAt(record, from, bigEndian)] + Utf16At(record, from + 2, bigEndian)
  }

  /** Unit `i` of the scan is the 16-bit word at `from + 2i`, in the channel's byte order. */
  lemma {:induction false} Utf16AtUnit(record: seq<Byte>, from: nat, bigEndian: bool, i: nat)
    requires i < |Utf16At(record, from, bigEndian)|
    ensures from + 2 * i + 2 <= |record|
    ensures Utf16At(record, from, bigEndian)[i] == UnitAt(record, from + 2 * i, bigEndian)
    decreases i
  {
    var r := Utf16At(record, from, bigEndian);
    assert from + 2 <= |record| && UnitAt(record, from, bigEndian) != 0;
    var rest := Utf16At(record, from + 2, bigEndian);
    assert r == [UnitAt(record, from, bigEndian)] + rest;
    if i > 0 {
      Utf16AtUnit(record, from + 2, bigEndian, i - 1);
      assert r[i] == rest[i - 1];
      assert from + 2 + 2 * (i - 1) == from + 2 * i;
    }
  }

  /** Every unit of the scan, read from its position. */
  lemma Utf16AtUnits(record: seq<Byte>, from: nat, bigEndian: bool)
    ensures var r := Utf16At(record, from, bigEndian);
      forall i :: 0 <= i < |r| ==> from + 2 * i + 2 <= |record| && r[i] == UnitAt(record, from + 2 * i, bigEndian)
  {
    forall i | 0 <= i < |Utf16At(record, from, bigEndian)|
      ensures from + 2 * i + 2 <= |record|
      ensures Utf16At(record, from, bigEndian)[i] == UnitAt(record, from + 2 * i, bigEndian)
    {
      Utf16AtUnit(record, from, bigEndian, i);
    }
  }

  /** The byte loop of the ASCII and UTF-8 cases of GetTextValue. */
  method ScanCString(record: seq<Byte>, from: nat) returns (s: seq<Byte>)
    ensures s == CStringAt(record, from)
  {
    s := [];
    var ii := from;
    while ii < |record|
      invariant CStringAt(record, from) == s + CStringAt(record, ii)
      decreases |record| - ii
    {
      if record[ii] == 0 {
        break;
      }
      s := s + [record[ii]];
      ii := ii + 1;
    }
  }

  /** The code-unit loop of the two UTF-16 cases of GetTextValue. */
  method ScanUtf16(record: seq<Byte>, from: nat, bigEndian: bool) returns (units: seq<Utf16Unit>)
    ensures units == Utf16At(record, from, bigEndian)
  {
    units := [];
    var ii := from;
    while ii + 2 <= |record|
      invariant Utf16At(record, from, bigEndian) == units + Utf16At(record, ii, bigEndian)
      decreases |record| - ii
    {
      var unit := UnitAt(record, ii, bigEndian);
      if unit == 0 {
        break;
      }
      units := units + [unit];
      ii := ii + 2;
    }
  }

  /** What GetTextValue reports. Transcoding (Latin-1 to UTF-8, UTF-16 to UTF-8) is the
      caller-supplied converter; `None` stands for the exception the library throws. On
      failure ASCII falls back to the untranslated bytes, UTF-16 to the empty string. */
  function TextValue(g: Geometry, record: seq<Byte>,
                     latin1ToUtf8: seq<Byte> -> Option<seq<Byte>>,
                     utf16ToUtf8: seq<Utf16Unit> -> Option<seq<Byte>>): Reading<seq<Byte>>
  {
    match g.dataType
    case StringAscii =>
      var raw := CStringAt(record, g.byteOffset);
      (match latin1ToUtf8(raw)
       case Some(text) => Reading(true, text)
       case None => Reading(false, raw))
    case StringUTF8 =>
      Reading(true, CStringAt(record, g.byteOffset))
    case StringUTF16Le | StringUTF16Be =>
      (match utf16ToUtf8(Utf16At(record, g.byteOffset, g.dataType.StringUTF16Be?))
       case Some(text) => Reading(true, text)
       case None => Reading(false, []))
    case _ =>
      Reading(true, [])
  }

  /** `GetTextValue`. */
  method GetTextValue(g: Geometry, record: seq<Byte>,
                      latin1ToUtf8: seq<Byte> -> Option<seq<Byte>>,
                      utf16ToUtf8: seq<Utf16Unit> -> Option<seq<Byte>>)
    returns (valid: bool, dest: seq<Byte>)
    ensures Reading(valid, dest) == TextValue(g, record, latin1ToUtf8, utf16ToUtf8)
    ensures g.dataType.StringUTF8? ==> valid && dest == CStringAt(record, g.byteOffset)
    ensures !IsText(g.dataType) ==> valid && dest == []
  {
    valid := true;
    dest := [];
    match g.dataType {
      case StringAscii =>
        var raw := ScanCString(record, g.byteOffset);
        match latin1ToUtf8(raw) {
          case Some(text) => dest := text;
          case None => valid := false; dest := raw;
        }
      case StringUTF8 =>
        dest := ScanCString(record, g.byteOffset);
      case StringUTF16Le =>
        var units := ScanUtf16(record, g.byteOffset, false);
        match utf16ToUtf8(units) {
          case Some(text) => dest := text;
          case None => valid := false;
        }
      case StringUTF16Be =>
        var units := ScanUtf16(record, g.byteOffset, true);
        match utf16ToUtf8(units) {
          case Some(text) => dest := text;
          case None => valid := false;
        }
      case _ =>
    }
  }

  /** `GetByteArrayValue`: the DataBytes() bytes at ByteOffset(); it always reports success. */
  function GetByteArrayValue(g: Geometry, record: seq<Byte>): (r: Reading<seq<Byte>>)
    requires g.dataBytes > 0 ==> g.byteOffset + g.dataBytes <= |record|
    ensures r.valid && |r.value| == g.dataBytes
    ensures forall i :: 0 <= i < g.dataBytes ==> r.value[i] == record[g.byteOffset + i]
  {
    if g.dataBytes == 0 then Reading(true, [])
    else Reading(true, record[g.byteOffset .. g.byteOffset + g.dataBytes])
  }

  /** What each case of GetChannelValue reads of the record without a bounds check. */
  predicate ValueReadable(g: Geometry, record: seq<Byte>) {
    match g.dataType
    case UnsignedIntegerLe | UnsignedIntegerBe | SignedIntegerLe | SignedIntegerBe | FloatLe | FloatBe =>
      FieldReadable(g, record)
    case ByteArray | MimeSample | MimeStream =>
      g.dataBytes > 0 ==> g.byteOffset + g.dataBytes <= |record|
    case CanOpenDate => g.byteOffset + 7 <= |record|
    case CanOpenTime => g.byteOffset + 6 <= |record|
    case _ => true
  }

  /** `GetChannelValue` into a byte vector. An integer becomes the single byte
      `static_cast<uint8_t>(value)`; text becomes its bytes; a byte array or mime value
      its DataBytes() bytes; a CANopen date (7 bytes) or time (6 bytes) goes through the
      caller-supplied conversion and is narrowed to one byte like an integer. */
  method GetChannelValueBytes(g: Geometry, record: seq<Byte>,
                              latin1ToUtf8: seq<Byte> -> Option<seq<Byte>>,
                              utf16ToUtf8: seq<Utf16Unit> -> Option<seq<Byte>>,
                              canOpenDateToNs: seq<Byte> -> uint64,
                              canOpenTimeToNs: seq<Byte> -> uint64)
    returns (valid: bool, out: seq<Byte>)
    requires !IsFloat(g.dataType)
    requires ValueReadable(g, record)
    ensures (g.dataType.UnsignedIntegerLe? || g.dataType.UnsignedIntegerBe?) ==>
      valid && out == [GetUnsignedValue(g, record, 0).value % 0x100]
    ensures (g.dataType.SignedIntegerLe? || g.dataType.SignedIntegerBe?) ==>
      valid && out == [GetSignedValue(g, record, 0).value % 0x100]
    ensures IsText(g.dataType) ==>
      Reading(valid, out) == TextValue(g, record, latin1ToUtf8, utf16ToUtf8)
    ensures (g.dataType.ByteArray? || g.dataType.MimeSample? || g.dataType.MimeStream?) ==>
      Reading(valid, out) == GetByteArrayValue(g, record)
    ensures g.dataType.CanOpenDate? ==>
      valid && out == [canOpenDateToNs(record[g.byteOffset .. g.byteOffset + 7]) % 0x100]
    ensures g.dataType.CanOpenTime? ==>
      valid && out == [canOpenTimeToNs(record[g.byteOffset .. g.byteOffset + 6]) % 0x100]
  {
    match g.dataType {
      case UnsignedIntegerLe | UnsignedIntegerBe =>
        var r := GetUnsignedValue(g, record, 0);
        valid, out := r.valid, [r.value % 0x100];
      case SignedIntegerLe | SignedIntegerBe =>
        var r := GetSignedValue(g, record, 0);
        valid, out := r.valid, [r.value % 0x100];
      case StringUTF16Le | StringUTF16Be | StringUTF8 | StringAscii =>
        valid, out := GetTextValue(g, record, latin1ToUtf8, utf16ToUtf8);
      case MimeStream | MimeSample | ByteArray =>
        var r := GetByteArrayValue(g, record);
        valid, out := r.valid, r.value;
      case CanOpenDate =>
        var ms := canOpenDateToNs(record[g.byteOffset .. g.byteOffset + 7]);
        valid, out := true, [ms % 0x100];
      case CanOpenTime =>
        var ms := canOpenTimeToNs(record[g.byteOffset .. g.byteOffset + 6]);
        valid, out := true, [ms % 0x100];
    }
  }

  // ---------------------------------------------------------------------------
  // Field images the setters write

  /** The widths the integer setters handle: one `case` each in their `switch`. */
  predicate IntegerWidth(n: nat) {
    n == 1 || n == 2 || n == 4 || n == 8
  }

  /** The `n`-byte field SetTextValue leaves: the whole value if it is shorter than the
      field, else its first `n - 1` bytes; zero bytes after it. */
  function TextField(value: seq<Byte>, n: nat): (r: seq<Byte>)
    requires n > 0
    ensures |r| == n
    ensures forall i :: 0 <= i < Min(|value|, n - 1) ==> r[i] == value[i]
    ensures forall i :: Min(|value|, n - 1) <= i < n ==> r[i] == 0
    ensures r[n - 1] == 0
  {
    if |value| < n then value + Zeros(n - |value|) else value[..n - 1] + [0]
  }

  /** The `n`-byte field SetByteArray leaves: the value truncated or zero-padded to `n` bytes. */
  function ByteArrayField(value: seq<Byte>, n: nat): (r: seq<Byte>)
    ensures |r| == n
  {
    Fit(value, n)
  }

  /** memset of the field followed by memcpy of `v` into its front. */
  lemma ZeroThenCopy(s: seq<Byte>, at: nat, n: nat, v: seq<Byte>)
    requires |v| <= n && at + n <= |s|
    ensures Overwrite(Overwrite(s, at, Zeros(n)), at, v) == Overwrite(s, at, Fit(v, n))
  {
    var l, r := Overwrite(Overwrite(s, at, Zeros(n)), at, v), Overwrite(s, at, Fit(v, n));
    forall i | 0 <= i < |s|
      ensures l[i] == r[i]
    {
      if at <= i < at + n {
        assert r[at + (i - at)] == Fit(v, n)[i - at];
      }
    }
  }

  // ---------------------------------------------------------------------------
  // The channel and its sample buffer

  class Channel {
    const geometry: Geometry
    /** SampleBuffer(): the record the setters write into. */
    const sampleBuffer: array<Byte>

    constructor (geometry: Geometry, sampleBuffer: array<Byte>)
      ensures this.geometry == geometry && this.sampleBuffer == sampleBuffer
    {
      this.geometry := geometry;
      this.sampleBuffer := sampleBuffer;
    }

    /** `BitCount() / 8`: the field width every setter uses. */
    function Bytes(): nat {
      geometry.bitCount / 8
    }

    /** The unchecked memcpy of an integer setter stays inside the sample buffer. */
    predicate IntegerFieldFits() {
      IntegerWidth(Bytes()) ==> geometry.byteOffset + Bytes() <= sampleBuffer.Length
    }

    /** The unchecked memset/memcpy of a text or byte-array setter stays inside the sample buffer. */
    predicate FieldFits() {
      Bytes() > 0 ==> geometry.byteOffset + Bytes() <= sampleBuffer.Length
    }

    /** `SetUnsignedValueLe`. The flag `validity` is the last argument given to SetValid(). */
    method SetUnsignedValueLe(value: uint64, valid: bool) returns (validity: bool)
      requires IntegerFieldFits()
      modifies sampleBuffer
      ensures IntegerWidth(Bytes()) ==>
        validity == valid &&
        sampleBuffer[..] == Overwrite(old(sampleBuffer[..]), geometry.byteOffset,
                                      EncodeLe(value % Pow256(Bytes()), Bytes()))
      ensures !IntegerWidth(Bytes()) ==> !validity && sampleBuffer[..] == old(sampleBuffer[..])
    {
      validity := valid;
      var bytes := Bytes();
      Pow256Widths();
      if bytes == 1 {
        MemCopy(sampleBuffer, geometry.byteOffset, EncodeLe(value % 0x100, bytes));
      } else if bytes == 2 {
        MemCopy(sampleBuffer, geometry.byteOffset, EncodeLe(value % 0x1_0000, bytes));
      } else if bytes == 4 {
        MemCopy(sampleBuffer, geometry.byteOffset, EncodeLe(value % 0x1_0000_0000, bytes));
      } else if bytes == 8 {
        DivModUnique(value, Pow256(8), 0, value);
        MemCopy(sampleBuffer, geometry.byteOffset, EncodeLe(value, bytes));
      } else {
        validity := false;
      }
    }

    /** `SetUnsignedValueBe`. */
    method SetUnsignedValueBe(value: uint64, valid: bool) returns (validity: bool)
      requires IntegerFieldFits()
      modifies sampleBuffer
      ensures IntegerWidth(Bytes()) ==>
        validity == valid &&
        sampleBuffer[..] == Overwrite(old(sampleBuffer[..]), geometry.byteOffset,
                                      EncodeBe(value % Pow256(Bytes()), Bytes()))
      ensures !IntegerWidth(Bytes()) ==> !validity && sampleBuffer[..] == old(sampleBuffer[..])
    {
      validity := valid;
      var bytes := Bytes();
      Pow256Widths();
      if bytes == 1 {
        MemCopy(sampleBuffer, geometry.byteOffset, EncodeBe(value % 0x100, bytes));
      } else if bytes == 2 {
        MemCopy(sampleBuffer, geometry.byteOffset, EncodeBe(value % 0x1_0000, bytes));
      } else if bytes == 4 {
        MemCopy(sampleBuffer, geometry.byteOffset, EncodeBe(value % 0x1_0000_0000, bytes));
      } else if bytes == 8 {
        DivModUnique(value, Pow256(8), 0, value);
        MemCopy(sampleBuffer, geometry.byteOffset, EncodeBe(value, bytes));
      } else {
        validity := false;
      }
    }

    /** `SetSignedValueLe`: the two's-complement bytes of the value narrowed to the field
        (`static_cast<intN_t>`), which are those of the value modulo 256^n. */
    method SetSignedValueLe(value: int64, valid: bool) returns (validity: bool)
      requires IntegerFieldFits()
      modifies sampleBuffer
      ensures IntegerWidth(Bytes()) ==>
        validity == valid &&
        sampleBuffer[..] == Overwrite(old(sampleBuffer[..]), geometry.byteOffset,
                                      EncodeLe(value % Pow256(Bytes()), Bytes()))
      ensures !IntegerWidth(Bytes()) ==> !validity && sampleBuffer[..] == old(sampleBuffer[..])
    {
      validity := valid;
      var bytes := Bytes();
      Pow256Widths();
      if bytes == 1 {
        MemCopy(sampleBuffer, geometry.byteOffset, EncodeLe(value % 0x100, bytes));
      } else if bytes == 2 {
        MemCopy(sampleBuffer, geometry.byteOffset, EncodeLe(value % 0x1_0000, bytes));
      } else if bytes == 4 {
        MemCopy(sampleBuffer, geometry.byteOffset, EncodeLe(value % 0x1_0000_0000, bytes));
      } else if bytes == 8 {
        MemCopy(sampleBuffer, geometry.byteOffset, EncodeLe(value % 0x1_0000_0000_0000_0000, bytes));
      } else {
        validity := false;
      }
    }

    /** `SetSignedValueBe`. */
    method SetSignedValueBe(value: int64, valid: bool) returns (validity: bool)
      requires IntegerFieldFits()
      modifies sampleBuffer
      ensures IntegerWidth(Bytes()) ==>
        validity == valid &&
        sampleBuffer[..] == Overwrite(old(sampleBuffer[..]), geometry.byteOffset,
                                      EncodeBe(value % Pow256(Bytes()), Bytes()))
      ensures !IntegerWidth(Bytes()) ==> !validity && sampleBuffer[..] == old(sampleBuffer[..])
    {
      validity := valid;
      var bytes := Bytes();
      Pow256Widths();
      if bytes == 1 {
        MemCopy(sampleBuffer, geometry.byteOffset, EncodeBe(value % 0x100, bytes));
      } else if bytes == 2 {
        MemCopy(sampleBuffer, geometry.byteOffset, EncodeBe(value % 0x1_0000, bytes));
      } else if bytes == 4 {
        MemCopy(sampleBuffer, geometry.byteOffset, EncodeBe(value % 0x1_0000_0000, bytes));
      } else if bytes == 8 {
        MemCopy(sampleBuffer, geometry.byteOffset, EncodeBe(value % 0x1_0000_0000_0000_0000, bytes));
      } else {
        validity := false;
      }
    }

    /** `SetTextValue`: a null-terminated string in a field of BitCount()/8 bytes. */
    method SetTextValue(value: seq<Byte>, valid: bool) returns (validity: bool)
      requires FieldFits()
      modifies sampleBuffer
      ensures Bytes() == 0 ==> !validity && sampleBuffer[..] == old(sampleBuffer[..])
      ensures Bytes() > 0 ==>
        validity == valid &&
        sampleBuffer[..] == Overwrite(old(sampleBuffer[..]), geometry.byteOffset, TextField(value, Bytes()))
    {
      validity := valid;
      var bytes := Bytes();
      if bytes == 0 {
        validity := false;
        return;
      }
      MemSet(sampleBuffer, geometry.byteOffset, bytes);
      if |value| < bytes {
        MemCopy(sampleBuffer, geometry.byteOffset, value);
        ZeroThenCopy(old(sampleBuffer[..]), geometry.byteOffset, bytes, value);
      } else {
        MemCopy(sampleBuffer, geometry.byteOffset, value[..bytes - 1]);
        ZeroThenCopy(old(sampleBuffer[..]), geometry.byteOffset, bytes, value[..bytes - 1]);
      }
    }

    /** `SetByteArray`: the value truncated or zero-padded to BitCount()/8 bytes, with no
        byte reserved for a terminator. */
    method SetByteArray(value: seq<Byte>, valid: bool) returns (validity: bool)
      requires FieldFits()
      modifies sampleBuffer
      ensures Bytes() == 0 ==> !validity && sampleBuffer[..] == old(sampleBuffer[..])
      ensures Bytes() > 0 ==>
        validity == valid &&
        sampleBuffer[..] == Overwrite(old(sampleBuffer[..]), geometry.byteOffset, ByteArrayField(value, Bytes()))
    {
      validity := valid;
      var bytes := Bytes();
      if bytes == 0 {
        validity := false;
        return;
      }
      MemSet(sampleBuffer, geometry.byteOffset, bytes);
      if |value| <= bytes {
        MemCopy(sampleBuffer, geometry.byteOffset, value);
        ZeroThenCopy(old(sampleBuffer[..]), geometry.byteOffset, bytes, value);
      } else {
        MemCopy(sampleBuffer, geometry.byteOffset, value[..bytes]);
        ZeroThenCopy(old(sampleBuffer[..]), geometry.byteOffset, bytes, value[..bytes]);
      }
    }

    /** `SetChannelValue` from a byte vector: only a ByteArray channel is written. */
    method SetChannelValueBytes(value: seq<Byte>, valid: bool) returns (validity: bool)
      requires geometry.dataType.ByteArray? ==> FieldFits()
      modifies sampleBuffer
      ensures geometry.dataType.ByteArray? && Bytes() > 0 ==>
        validity == valid &&
        sampleBuffer[..] == Overwrite(old(sampleBuffer[..]), geometry.byteOffset, ByteArrayField(value, Bytes()))
      ensures !(geometry.dataType.ByteArray? && Bytes() > 0) ==>
        !validity && sampleBuffer[..] == old(sampleBuffer[..])
    {
      if geometry.dataType.ByteArray? {
        validity := SetByteArray(value, valid);
      } else {
        validity := false;
      }
    }
  }

  // ---------------------------------------------------------------------------
  // Round trips between the setters and the getters

  /** A byte-aligned channel of 1, 2, 4 or 8 whole bytes that fits in a buffer of `size` bytes. */
  predicate AlignedIntegerField(g: Geometry, size: nat) {
    && g.bitOffset == 0 && g.bitCount % 8 == 0
    && IntegerWidth(g.bitCount / 8)
    && g.byteOffset + g.bitCount / 8 <= size
  }

  /** An aligned field reads back exactly the bytes last copied into its place. */
  lemma ExtractOverwritten(g: Geometry, buffer: seq<Byte>, field: seq<Byte>)
    requires g.bitOffset == 0 && |field| == NofBytes(g.bitCount)
    requires g.byteOffset + |field| <= |buffer|
    ensures FieldReadable(g, Overwrite(buffer, g.byteOffset, field))
    ensures ExtractField(g, Overwrite(buffer, g.byteOffset, field)) == field
  {
    var written := Overwrite(buffer, g.byteOffset, field);
    assert written[g.byteOffset .. g.byteOffset + |field|] == field;
  }

  /** What SetUnsignedValueLe/Be write, GetUnsignedValue reads back: the value modulo 256^n. */
  lemma UnsignedFieldRoundTrip(g: Geometry, buffer: seq<Byte>, value: uint64, dest: uint64)
    requires AlignedIntegerField(g, |buffer|)
    ensures var n := g.bitCount / 8; var v := value % Pow256(n);
      && GetUnsignedValue(g.(dataType := UnsignedIntegerLe),
                          Overwrite(buffer, g.byteOffset, EncodeLe(v, n)), dest) == Reading(true, v)
      && GetUnsignedValue(g.(dataType := UnsignedIntegerBe),
                          Overwrite(buffer, g.byteOffset, EncodeBe(v, n)), dest) == Reading(true, v)
  {
    var n := g.bitCount / 8;
    var p := Pow256(n);
    var v := value % p;
    ExtractOverwritten(g.(dataType := UnsignedIntegerLe), buffer, EncodeLe(v, n));
    ExtractOverwritten(g.(dataType := UnsignedIntegerBe), buffer, EncodeBe(v, n));
    UnsignedRoundTrip(v, n);
    DivModUnique(v, p, 0, v);
  }

  /** What SetSignedValueLe/Be write, GetSignedValue reads back: the value narrowed to
      n bytes, which is the value itself when it fits. */
  lemma SignedFieldRoundTrip(g: Geometry, buffer: seq<Byte>, value: int64, dest: int64)
    requires AlignedIntegerField(g, |buffer|)
    ensures var n := g.bitCount / 8; var v := value % Pow256(n);
      && GetSignedValue(g.(dataType := SignedIntegerLe),
                        Overwrite(buffer, g.byteOffset, EncodeLe(v, n)), dest) == Reading(true, Wrap(value, n))
      && GetSignedValue(g.(dataType := SignedIntegerBe),
                        Overwrite(buffer, g.byteOffset, EncodeBe(v, n)), dest) == Reading(true, Wrap(value, n))
    ensures -HalfRange(g.bitCount / 8) <= value < HalfRange(g.bitCount / 8) ==> Wrap(value, g.bitCount / 8) == value
  {
    SignedFieldRoundTripLe(g, buffer, value, dest);
    SignedFieldRoundTripBe(g, buffer, value, dest);
    SignedRoundTrip(value, g.bitCount / 8);
  }

  /** The little-endian half of SignedFieldRoundTrip. */
  lemma SignedFieldRoundTripLe(g: Geometry, buffer: seq<Byte>, value: int64, dest: int64)
    requires AlignedIntegerField(g, |buffer|)
    ensures var n := g.bitCount / 8;
      GetSignedValue(g.(dataType := SignedIntegerLe),
                     Overwrite(buffer, g.byteOffset, EncodeLe(value % Pow256(n), n)), dest)
      == Reading(true, Wrap(value, n))
  {
    var n := g.bitCount / 8;
    var field := EncodeLe(value % Pow256(n), n);
    assert |field| == NofBytes(g.bitCount);
    SignedOverwritten(g.(dataType := SignedIntegerLe), buffer, field, dest);
    SignedRoundTrip(value, n);
  }

  /** The big-endian half of SignedFieldRoundTrip. */
  lemma SignedFieldRoundTripBe(g: Geometry, buffer: seq<Byte>, value: int64, dest: int64)
    requires AlignedIntegerField(g, |buffer|)
    ensures var n := g.bitCount / 8;
      GetSignedValue(g.(dataType := SignedIntegerBe),
                     Overwrite(buffer, g.byteOffset, EncodeBe(value % Pow256(n), n)), dest)
      == Reading(true, Wrap(value, n))
  {
    var n := g.bitCount / 8;
    var field := EncodeBe(value % Pow256(n), n);
    assert |field| == NofBytes(g.bitCount);
    SignedOverwritten(g.(dataType := SignedIntegerBe), buffer, field, dest);
    SignedRoundTrip(value, n);
  }

  /** An aligned signed field reads back as the bytes last copied into its place, converted
      in the channel's byte order. */
  lemma SignedOverwritten(g: Geometry, buffer: seq<Byte>, field: seq<Byte>, dest: int64)
    requires g.dataType == SignedIntegerLe || g.dataType == SignedIntegerBe
    requires g.bitOffset == 0 && |field| == NofBytes(g.bitCount)
    requires g.byteOffset + |field| <= |buffer|
    ensures FieldReadable(g, Overwrite(buffer, g.byteOffset, field))
    ensures GetSignedValue(g, Overwrite(buffer, g.byteOffset, field), dest) ==
      Reading(true, if g.dataType == SignedIntegerLe then ConvertSignedLe(field) else ConvertSignedBe(field))
  {
    ExtractOverwritten(g, buffer, field);
  }

  /** The least significant byte of a decoded buffer is its first (little-endian) or last
      (big-endian) byte, for the signed readings as well. */
  lemma LowByte(b: seq<Byte>)
    requires IntegerSize(|b|)
    ensures ConvertUnsignedLe(b) % 0x100 == b[0] && ConvertSignedLe(b) % 0x100 == b[0]
    ensures ConvertUnsignedBe(b) % 0x100 == b[|b| - 1] && ConvertSignedBe(b) % 0x100 == b[|b| - 1]
  {
    var p := Pow256(|b|);
    assert p == 0x100 * Pow256(|b| - 1);
    DivModUnique(DecodeLe(b), 0x100, DecodeLe(b[1..]), b[0]);
    DivModUnique(DecodeBe(b), 0x100, DecodeBe(b[..|b| - 1]), b[|b| - 1]);
    DivModUnique(DecodeLe(b) - p, 0x100, DecodeLe(b[1..]) - Pow256(|b| - 1), b[0]);
    DivModUnique(DecodeBe(b) - p, 0x100, DecodeBe(b[..|b| - 1]) - Pow256(|b| - 1), b[|b| - 1]);
  }

  /** The byte-vector reading of an aligned integer channel is the byte of its field that
      holds the least significant bits: the first for little-endian, the last for big-endian. */
  lemma IntegerVectorIsLowByte(g: Geometry, record: seq<Byte>)
    requires g.bitOffset == 0 && IntegerSize(NofBytes(g.bitCount)) && FieldReadable(g, record)
    ensures var first, last := record[g.byteOffset], record[g.byteOffset + NofBytes(g.bitCount) - 1];
      && GetUnsignedValue(g.(dataType := UnsignedIntegerLe), record, 0).value % 0x100 == first
      && GetUnsignedValue(g.(dataType := UnsignedIntegerBe), record, 0).value % 0x100 == last
      && GetSignedValue(g.(dataType := SignedIntegerLe), record, 0).value % 0x100 == first
      && GetSignedValue(g.(dataType := SignedIntegerBe), record, 0).value % 0x100 == last
  {
    var n := NofBytes(g.bitCount);
    var b := record[g.byteOffset .. g.byteOffset + n];
    assert b == ExtractField(g, record);
    assert b[0] == record[g.byteOffset] && b[n - 1] == record[g.byteOffset + n - 1];
    LowByte(b);
    var ul := g.(dataType := UnsignedIntegerLe);
    assert ExtractField(ul, record) == b;
    assert GetUnsignedValue(ul, record, 0).value == ConvertUnsignedLe(b);
    var ub := g.(dataType := UnsignedIntegerBe);
    assert ExtractField(ub, record) == b;
    assert GetUnsignedValue(ub, record, 0).value == ConvertUnsignedBe(b);
    var sl := g.(dataType := SignedIntegerLe);
    assert ExtractField(sl, record) == b;
    assert GetSignedValue(sl, record, 0).value == ConvertSignedLe(b);
    var sb := g.(dataType := SignedIntegerBe);
    assert ExtractField(sb, record) == b;
    assert GetSignedValue(sb, record, 0).value == ConvertSignedBe(b);
  }

  /** CStringAt is determined by its characterisation: `s` read from `from`, no zero byte
      in it, and a zero byte or the end of the record right after it. */
  lemma {:induction false} CStringAtExactly(record: seq<Byte>, from: nat, s: seq<Byte>)
    requires from + |s| <= |record|
    requires forall i :: 0 <= i < |s| ==> record[from + i] == s[i] && s[i] != 0
    requires from + |s| == |record| || record[from + |s|] == 0
    ensures CStringAt(record, from) == s
    decreases |s|
  {
    if s != [] {
      assert record[from] == s[0] != 0;
      forall i | 0 <= i < |s| - 1
        ensures record[from + 1 + i] == s[1..][i] && s[1..][i] != 0
      {
        assert record[from + (i + 1)] == s[i + 1];
      }
      CStringAtExactly(record, from + 1, s[1..]);
      assert s == [s[0]] + s[1..];
    }
  }

  /** What SetTextValue writes, the text getter reads back (for text without zero bytes):
      the value, cut to leave room for the terminator. The read stops at the terminator
      the setter always writes into the field's last byte or earlier. SetTextValue's field
      is `n = BitCount() / 8` bytes at `at = ByteOffset()`. */
  lemma TextFieldRoundTrip(buffer: seq<Byte>, at: nat, value: seq<Byte>, n: nat)
    requires n > 0 && at + n <= |buffer|
    requires forall i :: 0 <= i < |value| ==> value[i] != 0
    ensures CStringAt(Overwrite(buffer, at, TextField(value, n)), at) == value[..Min(|value|, n - 1)]
  {
    var field := TextField(value, n);
    var written := Overwrite(buffer, at, field);
    var s := value[..Min(|value|, n - 1)];
    assert written[at + |s|] == field[|s|] == 0;
    forall i | 0 <= i < |s|
      ensures written[at + i] == s[i] && s[i] != 0
    {
      assert written[at + i] == field[i];
    }
    CStringAtExactly(written, at, s);
  }

  /** What SetByteArray writes, GetByteArrayValue reads back when DataBytes() is the field
      width: the value truncated or zero-padded to the field, so exactly the value when it
      has the field's length. */
  lemma ByteArrayRoundTrip(g: Geometry, buffer: seq<Byte>, value: seq<Byte>)
    requires g.dataBytes == g.bitCount / 8 > 0 && g.byteOffset + g.dataBytes <= |buffer|
    ensures var field := ByteArrayField(value, g.dataBytes);
      GetByteArrayValue(g, Overwrite(buffer, g.byteOffset, field)) == Reading(true, field)
    ensures |value| == g.dataBytes ==>
      GetByteArrayValue(g, Overwrite(buffer, g.byteOffset, ByteArrayField(value, g.dataBytes))).value == value
  {
    var field := ByteArrayField(value, g.dataBytes);
    var written := Overwrite(buffer, g.byteOffset, field);
    assert written[g.byteOffset .. g.byteOffset + g.dataBytes] == field;
    if |value| == g.dataBytes {
      assert field == value;
    }
  }

  /** Writing back what GetByteArrayValue read leaves the buffer as it was. */
  lemma ByteArrayRewriteIsIdentity(g: Geometry, buffer: seq<Byte>)
    requires g.dataBytes == g.bitCount / 8 > 0 && g.byteOffset + g.dataBytes <= |buffer|
    ensures Overwrite(buffer, g.byteOffset, ByteArrayField(GetByteArrayValue(g, buffer).value, g.dataBytes)) == buffer
  {
    var n, off := g.dataBytes, g.byteOffset;
    var read := GetByteArrayValue(g, buffer).value;
    assert read == buffer[off .. off + n];
    assert ByteArrayField(read, n) == read;
    assert buffer[..off] + buffer[off .. off + n] + buffer[off + n..] == buffer;
  }

  // ---------------------------------------------------------------------------
  // The single-bit path and the bit loop

  /** A one-bit channel at bit 3 of 0b100 reads 1, both as a value buffer and as an unsigned. */
  lemma SingleBitExample()
    ensures ExtractField(Geometry(0, 3, 1, 1, UnsignedIntegerLe), [0x04]) == [1]
    ensures GetUnsignedValue(Geometry(0, 3, 1, 1, UnsignedIntegerLe), [0x04], 7) == Reading(true, 1)
  {
    assert BitIsSet(0x04, 3);
    assert ConvertUnsignedLe([1]) == 1 by {
      assert [1][1..] == [];
    }
  }

  /** The `m` bits of `x` from bit `bitOffset` downwards, taken one at a time and appended
      below the bits already taken, as the loop means to pack them. */
  function FieldBits(x: Byte, bitOffset: BitPosition, m: nat): (r: nat)
    requires m <= bitOffset
    ensures r < Pow2(m)
  {
    if m == 0 then 0
    else 2 * FieldBits(x, bitOffset, m - 1) + (if BitIsSet(x, bitOffset - m + 1) then 1 else 0)
  }

  lemma Pow2AtMost(m: nat, n: nat)
    requires m <= n
    ensures Pow2(m) <= Pow2(n)
  {
    if m < n {
      Pow2AtMost(m, n - 1);
    }
  }

  /** Dividing by `a * b` is dividing by `a`, then by `b`. */
  lemma DivDiv(x: nat, a: nat, b: nat)
    requires a > 0 && b > 0
    ensures 0 <= x / a && x / (a * b) == (x / a) / b
  {
    var q, r := x / a, x % a;
    var z, s := q / b, q % b;
    MulMonotonic(s, b - 1, a);
    assert a * q == a * b * z + a * s;
    DivModUnique(x, a * b, z, a * s + r);
  }

  /** The bits packed one at a time are the field read in one go: `x` shifted right by
      `bitOffset - m` and masked to its low `m` bits. */
  lemma {:induction false} FieldBitsClosedForm(x: Byte, bitOffset: BitPosition, m: nat)
    requires m <= bitOffset
    ensures FieldBits(x, bitOffset, m) == (x / Pow2(bitOffset - m)) % Pow2(m)
  {
    if m > 0 {
      FieldBitsClosedForm(x, bitOffset, m - 1);
      BitIsSetByMask(x, bitOffset - m + 1);
      var k := bitOffset - m;
      var p, q := Pow2(k), Pow2(m - 1);
      assert Pow2(bitOffset - (m - 1)) == 2 * p && Pow2(m) == 2 * q;
      ShiftMaskStep(x, p, q);
    }
  }

  /** Shifting right by `p` and masking to `2q` is shifting by `2p`, masking to `q`, and
      appending the bit shifted out last. */
  lemma ShiftMaskStep(x: nat, p: nat, q: nat)
    requires p > 0 && q > 0
    ensures (x / p) % (2 * q) == 2 * ((x / (2 * p)) % q) + (x / p) % 2
  {
    DivDiv(x, p, 2);
    assert p * 2 == 2 * p;
    ModDouble(x / p, q);
  }

  /** Modulo `2p`, a number is twice its half modulo `p`, plus its last bit. */
  lemma ModDouble(y: nat, p: nat)
    requires p > 0
    ensures y % (2 * p) == 2 * ((y / 2) % p) + y % 2
  {
    var h, b := y / 2, y % 2;
    var z, r := h / p, h % p;
    assert y == 2 * (p * z + r) + b;
    assert y == (2 * p) * z + (2 * r + b);
    DivModUnique(y, 2 * p, z, 2 * r + b);
  }

  /** Iteration `m` of the loop on a channel inside one byte: the byte holding the first
      `m` field bits shifted left once takes the next bit, and is shifted again unless it
      was the last. */
  lemma IntendedPush(x: Byte, bitOffset: BitPosition, bitCount: nat, m: nat)
    requires 1 <= bitCount <= bitOffset && m < bitCount
    ensures 2 * FieldBits(x, bitOffset, m) < 0x100
    ensures var pushed := PushBit([2 * FieldBits(x, bitOffset, m)], m, BitIsSet(x, bitOffset - m), bitCount);
      |pushed| == 1 &&
      pushed[0] == if m < bitCount - 1 then 2 * FieldBits(x, bitOffset, m + 1) else FieldBits(x, bitOffset, m + 1)
  {
    var f0, f1 := FieldBits(x, bitOffset, m), FieldBits(x, bitOffset, m + 1);
    var bit := BitIsSet(x, bitOffset - m);
    FieldBitsBelow(x, bitOffset, m);
    assert f1 == 2 * f0 + (if bit then 1 else 0);
    if m < bitCount - 1 {
      FieldBitsBelow(x, bitOffset, m + 1);
    }
    PushIntoByte(f0, bit, m, bitCount, f1);
  }

  /** Up to 7 field bits fit below the top bit of a byte. */
  lemma FieldBitsBelow(x: Byte, bitOffset: BitPosition, m: nat)
    requires m <= bitOffset && m <= 7
    ensures FieldBits(x, bitOffset, m) < 0x80
  {
    Pow2AtMost(m, 7);
    assert Pow2(7) == 0x80;
  }

  /** PushBit on a one-byte buffer holding `2 * h`: the bit lands in the low bit, and
      the byte is doubled unless this was the last bit. */
  lemma PushIntoByte(h: nat, bit: bool, m: nat, bitCount: nat, d: nat)
    requires m < bitCount <= 8 && h < 0x80
    requires d == 2 * h + (if bit then 1 else 0)
    requires m < bitCount - 1 ==> d < 0x80
    ensures PushBit([2 * h], m, bit, bitCount) == [if m < bitCount - 1 then 2 * d else d]
  {
    assert m / 8 == 0;
  }

  /** The bit loop run from iteration `m` on a channel inside one byte, after the first `m`
      bits went in (the byte holds them shifted left once), ends with the whole field in
      the byte. */
  lemma {:induction false} IntendedLoopFrom(g: Geometry, record: seq<Byte>, m: nat, a: Byte)
    requires g.bitOffset != 0 && 1 <= g.bitCount <= g.bitOffset
    requires g.byteOffset < |record| && m < g.bitCount && WalkReadable(g, record, 0)
    requires a == 2 * FieldBits(record[g.byteOffset], g.bitOffset, m)
    ensures ShiftIn(g, record, [a], 0, m) == [FieldBits(record[g.byteOffset], g.bitOffset, g.bitCount)]
    decreases g.bitCount - m
  {
    var d := FieldBits(record[g.byteOffset], g.bitOffset, m + 1);
    IntendedShiftStep(g, record, m, a);
    if m < g.bitCount - 1 {
      IntendedLoopFrom(g, record, m + 1, 2 * d);
    } else {
      assert m + 1 == g.bitCount;
    }
  }

  /** One iteration of the loop started at 0 on a channel inside one byte: the byte then
      holds one more field bit, shifted left once unless it was the last. */
  lemma IntendedShiftStep(g: Geometry, record: seq<Byte>, m: nat, a: Byte)
    requires g.bitOffset != 0 && 1 <= g.bitCount <= g.bitOffset
    requires g.byteOffset < |record| && m < g.bitCount && WalkReadable(g, record, 0)
    requires a == 2 * FieldBits(record[g.byteOffset], g.bitOffset, m)
    ensures var d := FieldBits(record[g.byteOffset], g.bitOffset, m + 1);
      && (m < g.bitCount - 1 ==>
            2 * d < 0x100 && ShiftIn(g, record, [a], 0, m) == ShiftIn(g, record, [2 * d], 0, m + 1))
      && (m == g.bitCount - 1 ==> ShiftIn(g, record, [a], 0, m) == [d])
  {
    var x := record[g.byteOffset];
    var d := FieldBits(x, g.bitOffset, m + 1);
    var pushed := PushBit([a], m, BitIsSet(x, g.bitOffset - m), g.bitCount);
    IntendedPush(x, g.bitOffset, g.bitCount, m);
    WalkInFirstByte(g, m);
    ShiftInStep(g, record, [a], 0, m, g.byteOffset, g.bitOffset - m);
    if m < g.bitCount - 1 {
      assert pushed == [2 * d];
    } else {
      assert pushed == [d];
      assert ShiftIn(g, record, pushed, 0, m + 1) == pushed;
    }
  }

  /** One unfolding of ShiftIn: iteration `ii` pushes the bit under the cursor, which is
      bit `bit` of byte `at`. */
  lemma ShiftInStep(g: Geometry, record: seq<Byte>, data: seq<Byte>, start: nat, ii: nat,
                    at: nat, bit: BitPosition)
    requires g.bitOffset != 0 && |data| == NofBytes(g.bitCount)
    requires start <= ii < g.bitCount && WalkReadable(g, record, start)
    requires WalkPosition(g, ii - start) == (at, bit)
    ensures at < |record| && bit != 0
    ensures ShiftIn(g, record, data, start, ii)
      == ShiftIn(g, record, PushBit(data, ii, BitIsSet(record[at], bit), g.bitCount), start, ii + 1)
  {
    WalkMonotonic(g, ii - start, g.bitCount - 1 - start);
  }

  /** The bit loop as it evidently should run, starting at iteration 0: for a channel that
      lies inside its first byte it packs the bits BitOffset() down to
      BitOffset() - BitCount() + 1 into the value, most significant first. */
  lemma IntendedBitLoop(g: Geometry, record: seq<Byte>)
    requires g.bitOffset != 0 && 1 <= g.bitCount <= g.bitOffset && g.byteOffset < |record|
    ensures WalkReadable(g, record, 0)
    ensures ShiftIn(g, record, Zeros(1), 0, 0) == [FieldBits(record[g.byteOffset], g.bitOffset, g.bitCount)]
  {
    WalkInFirstByte(g, g.bitCount - 1);
    assert FieldBits(record[g.byteOffset], g.bitOffset, 0) == 0;
    IntendedLoopFrom(g, record, 0, 0);
    assert Zeros(1) == [0];
  }

  /** One of the first eight iterations over a record of all ones: the bit it reads, in the
      first byte, is set, so the output byte `x` becomes `(x | 1) << 1`. */
  lemma AllOnesStep(g: Geometry, record: seq<Byte>, x: Byte, ii: nat, y: Byte)
    requires g.byteOffset == 0 && g.bitOffset == 8 && g.bitCount == 9 && record == [0xFF, 0xFF]
    requires ii < 8 && x % 2 == 0 && y == (2 * x + 2) % 0x100
    ensures WalkReadable(g, record, 0)
    ensures ShiftIn(g, record, [x, 0], 0, ii) == ShiftIn(g, record, [y, 0], 0, ii + 1)
  {
    WalkInFirstByte(g, 7);
    WalkInFirstByte(g, ii);
    assert BitIsSet(record[0], 8 - ii);
    ShiftInStep(g, record, [x, 0], 0, ii, 0, 8 - ii);
    assert PushBit([x, 0], ii, true, 9) == [y, 0] by {
      assert ii / 8 == 0 && Or1(x) == x + 1;
    }
  }

  /** The last iteration reads bit 8 of the second byte into the second output byte, unshifted. */
  lemma AllOnesLastStep(g: Geometry, record: seq<Byte>, x: Byte)
    requires g.byteOffset == 0 && g.bitOffset == 8 && g.bitCount == 9 && record == [0xFF, 0xFF]
    ensures WalkReadable(g, record, 0)
    ensures ShiftIn(g, record, [x, 0], 0, 8) == [x, 1]
  {
    WalkInFirstByte(g, 7);
    assert WalkPosition(g, 8) == (1, 8);
    assert BitIsSet(record[1], 8);
    ShiftInStep(g, record, [x, 0], 0, 8, 1, 8);
    assert PushBit([x, 0], 8, true, 9) == [x, 1];
  }

  /** The first output byte before iteration `ii` over a record of all ones. */
  function AllOnesByte(ii: nat): (x: Byte)
    ensures x % 2 == 0
  {
    if ii == 0 then 0 else (2 * AllOnesByte(ii - 1) + 2) % 0x100
  }

  /** The loop from iteration `ii` on over a record of all ones ends with the same two bytes. */
  lemma {:induction false} AllOnesFrom(g: Geometry, record: seq<Byte>, ii: nat)
    requires g.byteOffset == 0 && g.bitOffset == 8 && g.bitCount == 9 && record == [0xFF, 0xFF]
    requires ii <= 8 && WalkReadable(g, record, 0)
    ensures ShiftIn(g, record, [AllOnesByte(ii), 0], 0, ii) == [AllOnesByte(8), 0x01]
    decreases 8 - ii
  {
    if ii == 8 {
      AllOnesLastStep(g, record, AllOnesByte(8));
    } else {
      AllOnesStep(g, record, AllOnesByte(ii), ii, AllOnesByte(ii + 1));
      AllOnesFrom(g, record, ii + 1);
    }
  }

  /** Even started at 0, the loop does not pack a field wider than its first byte: it shifts
      the output byte left after every bit but the last, so a nine-bit field of ones at bit 8
      loses its first bit off the top of byte 0 and reads 0xFE 0x01. */
  lemma WideFieldExample(g: Geometry, record: seq<Byte>)
    requires g.byteOffset == 0 && g.bitOffset == 8 && g.bitCount == 9 && record == [0xFF, 0xFF]
    ensures WalkReadable(g, record, 0)
    ensures ShiftIn(g, record, [0, 0], 0, 0) == [0xFE, 0x01]
  {
    assert AllOnesByte(0) == 0 && AllOnesByte(1) == 2 && AllOnesByte(2) == 6;
    assert AllOnesByte(3) == 14 && AllOnesByte(4) == 30 && AllOnesByte(5) == 62;
    assert AllOnesByte(6) == 126 && AllOnesByte(7) == 254 && AllOnesByte(8) == 254;
    AllOnesLastStep(g, record, 0xFE);
    AllOnesFrom(g, record, 0);
  }

  /** The loop as written starts at BitCount() and leaves the zero buffer: two bits at
      bit 2 of 0b11 read as 0, where the intended loop gives 3. */
  lemma DeadLoopExample(g: Geometry, record: seq<Byte>)
    requires g == Geometry(0, 2, 2, 1, UnsignedIntegerLe) && record == [0x03]
    ensures ExtractField(g, record) == Zeros(1)
    ensures ShiftIn(g, record, Zeros(1), 0, 0) == [3]
  {
    assert FieldBits(record[g.byteOffset], g.bitOffset, g.bitCount) == 3 by {
      assert BitIsSet(0x03, 2) && BitIsSet(0x03, 1);
    }
    IntendedBitLoop(g, record);
  }
}
