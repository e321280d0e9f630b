/**
 * The compressed data block of ASAM MDF 4 (DZBLOCK), `src/dz4block.cpp`.
 *
 * Reading the block consumes its generic header and then six fixed fields
 * (24 bytes, little-endian). Its payload is `dataLength` compressed bytes at
 * `dataPosition`; copying it out inflates them to `origDataLength` bytes and,
 * for the transpose kind, undoes the byte transposition.
 *
 * zlib's inflate and the inverse transposition are not part of this model:
 * they are passed in as functions. The file is a byte sequence with a
 * read position.
 */
module Dz4 {
  import opened Buffers
  import opened Endian

  datatype ZipType = Deflate | TransposeAndDeflate

  /** The stored code of a compression kind. */
  function ZipTypeCode(kind: ZipType): Byte {
    match kind
    case Deflate => 0
    case TransposeAndDeflate => 1
  }

  /** `static_cast<Dz4ZipType>(type_)`, with every code other than 0 and 1 unknown. */
  function ZipTypeOf(code: Byte): (r: Option<ZipType>)
    ensures r.Some? <==> code == 0 || code == 1
    ensures r.Some? ==> ZipTypeCode(r.value) == code
  {
    if code == 0 then Some(Deflate)
    else if code == 1 then Some(TransposeAndDeflate)
    else None
  }

  /** `MakeZipTypeString`: the display name of a kind code. */
  function MakeZipTypeString(code: Byte): (r: string)
    ensures r == "ZLIB Deflate" <==> ZipTypeOf(code) == Some(Deflate)
    ensures r == "Transposition + ZLIB Deflate" <==> ZipTypeOf(code) == Some(TransposeAndDeflate)
    ensures r == "Unknown" <==> ZipTypeOf(code).None?
  {
    match code
    case 0 => "ZLIB Deflate"
    case 1 => "Transposition + ZLIB Deflate"
    case _ => "Unknown"
  }

  // ---------------------------------------------------------------------------
  // The block's fixed fields

  /** The six fields after the block header, in file order. */
  datatype DzFields = DzFields(
    origBlockType: seq<Byte>,
    zipType: Byte,
    reserved: Byte,
    parameter: uint32,
    origDataLength: uint64,
    dataLength: uint64)

  /** Number of bytes the six fields occupy: 2 + 1 + 1 + 4 + 8 + 8. */
  const FieldsSize: nat := 24

  /** The fields as a writer lays them out, integers little-endian. */
  function EncodeFields(f: DzFields): (r: seq<Byte>)
    requires |f.origBlockType| == 2
    ensures |r| == FieldsSize
  {
    f.origBlockType + [f.zipType] + [f.reserved]
      + EncodeLe(f.parameter, 4) + EncodeLe(f.origDataLength, 8) + EncodeLe(f.dataLength, 8)
  }

  /** `ReadNumber` of a 32-bit unsigned field: its 4 bytes little-endian, so writing the
      number back gives the same 4 bytes. */
  function ReadUint32(b: seq<Byte>): (r: uint32)
    requires |b| == 4
    ensures EncodeLe(r, 4) == b
  {
    Pow256Widths();
    EncodeDecodeLe(b);
    DecodeLe(b)
  }

  /** `ReadNumber` of a 64-bit unsigned field: its 8 bytes little-endian, so writing the
      number back gives the same 8 bytes. */
  function ReadUint64(b: seq<Byte>): (r: uint64)
    requires |b| == 8
    ensures EncodeLe(r, 8) == b
  {
    Pow256Widths();
    EncodeDecodeLe(b);
    DecodeLe(b)
  }

  /** The fields read from their 24 bytes: laying them out again gives the same bytes. */
  function DecodeFields(b: seq<Byte>): (r: DzFields)
    requires |b| == FieldsSize
    ensures |r.origBlockType| == 2 && EncodeFields(r) == b
  {
    assert b == b[0..2] + [b[2]] + [b[3]] + b[4..8] + b[8..16] + b[16..24];
    DzFields(b[0..2], b[2], b[3], ReadUint32(b[4..8]), ReadUint64(b[8..16]), ReadUint64(b[16..24]))
  }

  /** Reading back what a writer laid out gives the same fields. */
  lemma FieldsRoundTrip(f: DzFields)
    requires |f.origBlockType| == 2
    ensures DecodeFields(EncodeFields(f)) == f
  {
    var b := EncodeFields(f);
    Pow256Widths();
    var h4 := f.origBlockType + [f.zipType] + [f.reserved];
    var h8 := h4 + EncodeLe(f.parameter, 4);
    var h16 := h8 + EncodeLe(f.origDataLength, 8);
    assert |h4| == 4 && |h8| == 8 && |h16| == 16;
    assert b == h16 + EncodeLe(f.dataLength, 8);
    assert b[..16] == h16 && h16[..8] == h8 && h8[..4] == h4;
    assert b[0..2] == f.origBlockType && b[2] == f.zipType && b[3] == f.reserved;
    assert b[4..8] == EncodeLe(f.parameter, 4);
    assert b[8..16] == EncodeLe(f.origDataLength, 8);
    assert b[16..24] == EncodeLe(f.dataLength, 8);
    DecodeEncodeLe(f.parameter, 4);
    DivModUnique(f.parameter, Pow256(4), 0, f.parameter);
    DecodeEncodeLe(f.origDataLength, 8);
    DivModUnique(f.origDataLength, Pow256(8), 0, f.origDataLength);
    DecodeEncodeLe(f.dataLength, 8);
    DivModUnique(f.dataLength, Pow256(8), 0, f.dataLength);
  }

  // ---------------------------------------------------------------------------
  // The source file

  /** An open file: its bytes and the read position. */
  class InputFile {
    const content: seq<Byte>
    var position: nat

    constructor (content: seq<Byte>)
      ensures this.content == content && position == 0
    {
      this.content := content;
      position := 0;
    }

    /** A read of `n` bytes at the current position, which it advances. */
    method ReadBytes(n: nat) returns (bytes: seq<Byte>)
      requires position + n <= |content|
      modifies this
      ensures bytes == content[old(position) .. old(position) + n]
      ensures position == old(position) + n
    {
      bytes := content[position .. position + n];
      position := position + n;
    }
  }

  /** The bytes a read of `length` bytes at `position` gets from `content`: fewer when
      the file ends first. */
  function Span(content: seq<Byte>, position: nat, length: nat): (r: seq<Byte>)
    ensures |r| <= length
    ensures position + |r| == |content| || |r| == length || (position >= |content| && r == [])
    ensures forall i :: 0 <= i < |r| ==> position + i < |content| && r[i] == content[position + i]
  {
    if position >= |content| then []
    else content[position .. Min(position + length, |content|)]
  }

  // ---------------------------------------------------------------------------
  // Decompression

  /** The outcome of an inflate call: success, and the bytes it produced. */
  datatype Inflated = Inflated(ok: bool, bytes: seq<Byte>)

  /** Inflate the compressed bytes into a zero-filled buffer of `origLength` bytes and, for
      the transpose kind, undo the transposition in place on that buffer. */
  function Decompress(kind: ZipType, compressed: seq<Byte>, origLength: nat, parameter: uint32,
                      inflate: seq<Byte> -> Inflated,
                      invTranspose: (seq<Byte>, uint32) -> seq<Byte>): (r: Inflated)
    ensures |r.bytes| == origLength
    ensures r.ok == inflate(compressed).ok
  {
    var result := inflate(compressed);
    var out := Fit(result.bytes, origLength);
    match kind
    case Deflate => Inflated(result.ok, out)
    case TransposeAndDeflate => Inflated(result.ok, Fit(invTranspose(out, parameter), origLength))
  }

  /** The transpose kind differs from plain deflate only by the inverse transposition
      applied to the inflated buffer. */
  lemma TransposeAddsOnlyInverse(compressed: seq<Byte>, origLength: nat, parameter: uint32,
                                 inflate: seq<Byte> -> Inflated,
                                 invTranspose: (seq<Byte>, uint32) -> seq<Byte>)
    ensures var plain := Decompress(Deflate, compressed, origLength, parameter, inflate, invTranspose);
      Decompress(TransposeAndDeflate, compressed, origLength, parameter, inflate, invTranspose)
        == Inflated(plain.ok, Fit(invTranspose(plain.bytes, parameter), origLength))
  {
  }

  // ---------------------------------------------------------------------------
  // The block

  class Dz4Block {
    var origBlockType: seq<Byte>
    var zipType: Byte
    var parameter: uint32
    var origDataLength: uint64
    var dataLength: uint64
    /** File position of the first compressed byte; 0 until the block is read. */
    var dataPosition: nat

    constructor ()
      ensures origBlockType == [] && zipType == 0 && parameter == 0
      ensures origDataLength == 0 && dataLength == 0 && dataPosition == 0
    {
      origBlockType := [];
      zipType := 0;
      parameter := 0;
      origDataLength := 0;
      dataLength := 0;
      dataPosition := 0;
    }

    /** A block with a zero data position, original length or compressed length has no payload. */
    predicate HasPayload()
      reads this
    {
      dataPosition != 0 && origDataLength != 0 && dataLength != 0
    }

    /** The compressed bytes as the copy operations see them: a zero-filled buffer of
        `dataLength` bytes into which the file's bytes at `dataPosition` were read. */
    function Compressed(content: seq<Byte>): (r: seq<Byte>)
      reads this
      ensures |r| == dataLength
      ensures forall i :: 0 <= i < |r| ==>
        r[i] == if dataPosition + i < |content| then content[dataPosition + i] else 0
    {
      Fit(Span(content, dataPosition, dataLength), dataLength)
    }

    /** `Read`: the generic block header (`headerBytes` bytes, read by the block base class),
        then the six fields. Returns the bytes consumed; the payload starts right after. */
    method Read(file: InputFile, headerBytes: nat) returns (bytes: nat)
      requires file.position + headerBytes + FieldsSize <= |file.content|
      modifies this, file
      ensures bytes == headerBytes + FieldsSize
      ensures file.position == old(file.position) + bytes
      ensures dataPosition == file.position
      ensures var f := DecodeFields(file.content[dataPosition - FieldsSize .. dataPosition]);
        && origBlockType == f.origBlockType && zipType == f.zipType && parameter == f.parameter
        && origDataLength == f.origDataLength && dataLength == f.dataLength
    {
      var header := file.ReadBytes(headerBytes);
      bytes := headerBytes;
      // The six field reads consume the next 24 bytes in order.
      var raw := file.ReadBytes(FieldsSize);
      origBlockType := raw[0..2];
      bytes := bytes + 2;
      zipType := raw[2];
      bytes := bytes + 1;
      bytes := bytes + 1;       // reserved byte
      parameter := ReadUint32(raw[4..8]);
      bytes := bytes + 4;
      origDataLength := ReadUint64(raw[8..16]);
      bytes := bytes + 8;
      dataLength := ReadUint64(raw[16..24]);
      bytes := bytes + 8;
      dataPosition := file.position;
    }

    /** `CopyDataToBuffer`: the decompressed payload copied into `buffer` at `bufferIndex`,
        whatever inflate reports. Returns the byte count and the advanced index. */
    method CopyDataToBuffer(content: seq<Byte>, buffer: array<Byte>, bufferIndex: nat,
                            inflate: seq<Byte> -> Inflated,
                            invTranspose: (seq<Byte>, uint32) -> seq<Byte>)
      returns (count: nat, newIndex: nat)
      requires HasPayload() && ZipTypeOf(zipType).Some? ==> bufferIndex + origDataLength <= buffer.Length
      modifies buffer
      ensures !HasPayload() || ZipTypeOf(zipType).None? ==>
        count == 0 && newIndex == bufferIndex && buffer[..] == old(buffer[..])
      ensures HasPayload() && ZipTypeOf(zipType).Some? ==>
        && count == origDataLength
        && newIndex == bufferIndex + count
        && buffer[..] == Overwrite(old(buffer[..]), bufferIndex,
             Decompress(ZipTypeOf(zipType).value, Compressed(content), origDataLength, parameter,
                        inflate, invTranspose).bytes)
    {
      count, newIndex := 0, bufferIndex;
      if !HasPayload() {
        return;
      }
      match ZipTypeOf(zipType) {
        case Some(Deflate) =>
          var temp := Compressed(content);
          var out := Fit(inflate(temp).bytes, origDataLength);
          count := origDataLength;
          MemCopy(buffer, bufferIndex, out);
          newIndex := bufferIndex + count;
        case Some(TransposeAndDeflate) =>
          var temp := Compressed(content);
          var out := Fit(inflate(temp).bytes, origDataLength);
          out := Fit(invTranspose(out, parameter), origDataLength);
          count := origDataLength;
          MemCopy(buffer, bufferIndex, out);
          newIndex := bufferIndex + count;
        case None =>
      }
    }

    /** `CopyDataToFile`: the bytes written to the destination file and the byte count,
        which is the original length when inflate succeeds and 0 when it fails. Plain deflate
        inflates straight from the file's bytes; the transpose kind goes through the
        zero-filled buffers and writes its buffer even when inflate fails. */
    method CopyDataToFile(content: seq<Byte>,
                          inflate: seq<Byte> -> Inflated,
                          invTranspose: (seq<Byte>, uint32) -> seq<Byte>)
      returns (count: nat, written: seq<Byte>)
      ensures !HasPayload() || ZipTypeOf(zipType).None? ==> count == 0 && written == []
      ensures HasPayload() && zipType == ZipTypeCode(Deflate) ==>
        var result := inflate(Span(content, dataPosition, dataLength));
        count == (if result.ok then origDataLength else 0) && written == result.bytes
      ensures HasPayload() && zipType == ZipTypeCode(TransposeAndDeflate) ==>
        var result := Decompress(TransposeAndDeflate, Compressed(content), origDataLength, parameter,
                                 inflate, invTranspose);
        count == (if result.ok then origDataLength else 0) && written == result.bytes
      ensures count != 0 ==> count == origDataLength
    {
      count, written := 0, [];
      if !HasPayload() {
        return;
      }
      match ZipTypeOf(zipType) {
        case Some(Deflate) =>
          var result := inflate(Span(content, dataPosition, dataLength));
          written := result.bytes;
          count := if result.ok then origDataLength else 0;
        case Some(TransposeAndDeflate) =>
          var temp := Compressed(content);
          var out := Fit(inflate(temp).bytes, origDataLength);
          var ok := inflate(temp).ok;
          out := Fit(invTranspose(out, parameter), origDataLength);
          written := out;
          count := if ok then origDataLength else 0;
        case None =>
      }
    }
  }
}
