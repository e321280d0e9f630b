# Record field codec, integer byte codec and DZ block of an MDF 4 reader/writer

This project models three codecs on the record and data path of an ASAM MDF
(Measurement Data Format) library and proves properties of them in Dafny.

- **Record field codec** (`IChannel`, `ichannel.dfy`). A channel's value sits in a
  fixed-length record at a byte offset, a bit offset (0 = byte aligned, otherwise
  bit 1..8 of the first byte) and a bit count. `CopyToDataBuffer` copies those bits
  into a zero-filled buffer of ceil(BitCount/8) bytes. The typed getters decode that
  buffer, or scan the record for text. The setters write an encoded value in place
  into the channel's sample buffer, which the class `Channel` holds as an array.
  A getter's result is a `Reading(valid, value)`. `SetValid` does nothing in this
  class, so each setter returns the flag it last passed to `SetValid` as `validity`.
- **Integer byte codec** (`Endian`, `endian.dfy`). `ConvertUnsignedLe/Be` and
  `ConvertSignedLe/Be` read a buffer of 1 to 8 bytes as an unsigned or a
  two's-complement signed integer, in either byte order. Any other buffer length
  reads as 0. `EncodeLe/Be` are the byte images the setters copy in, which come
  from the Boost endian buffers.
- **DZ block** (`Dz4`, `dz4block.dfy`). This is the compressed data block of
  ASAM MDF 4. `Read` decodes its six fixed fields and records where the payload
  starts. `CopyDataToBuffer` inflates the payload into a buffer of its original
  length. `CopyDataToFile` does the same for the transpose kind, and for plain
  deflate writes whatever inflate produced. For the transpose kind both also undo
  the byte transposition. zlib's inflate and the inverse transposition are
  not part of this model. They are function-valued parameters (`inflate`,
  `invTranspose`).
- `Buffers` (`buffers.dfy`) holds the byte types and the buffer primitives the C++
  code relies on:
  - `Overwrite` is what `memcpy` into a region leaves;
  - `Zeros` is `memset` to zero;
  - `Fit` is copying into a zero-filled buffer of fixed size;
  - `MemCopy` and `MemSet` are the same operations on arrays.

The general path of `CopyToDataBuffer` is meant to walk the field bit by bit and
pack it most significant bit first. The code's loop starts at `BitCount()` and
runs while the index is below `BitCount()`, so its body never executes, and a
field with a bit offset and more than one bit reads as zero bytes. The model
follows the code:
- `ShiftInBits` is the loop, with its first iteration as a parameter;
- `CopyToDataBuffer` calls it with `BitCount()`, as written.

The loop as intended (first iteration 0) is proved about separately and is not used
by the rest of the model:
- `IntendedBitLoop` shows what it would produce for a field that lies in its first byte;
- `DeadLoopExample` shows a field where the two differ (0 as written, 3 as intended);
- `WideFieldExample` shows that even the loop started at 0 loses the first byte's top bit
  of a wider field (nine bits of ones at bit 8 read 0xFE 0x01).

## Model

| member | source | states |
|---|---|---|
| Endian.ConvertUnsignedLe | src/boost/platform.cpp:9-63 | For 1 to 8 bytes the result is below 256^n. For any other length it is 0. |
| Endian.ConvertUnsignedBe | src/boost/platform.cpp:65-119 | For 1 to 8 bytes the result is below 256^n. For any other length it is 0. |
| Endian.ConvertSignedLe | src/boost/platform.cpp:121-175 | It is 0 outside 1..8 bytes. Otherwise it is the unsigned reading, minus 256^n when the top bit of the last (most significant) byte is set. It lies in [-2^(8n-1), 2^(8n-1)). |
| Endian.ConvertSignedBe | src/boost/platform.cpp:177-231 | The same as ConvertSignedLe, with the sign taken from the first byte. |
| Endian.ConvertUnsignedLeIsWeightedSum | src/boost/platform.cpp:9-58 | For 1 to 8 bytes the little-endian reading is the sum of b[i]·256^i. |
| Endian.ConvertBeIsReversedLe | src/boost/platform.cpp:65-119 | The big-endian readings, unsigned and signed, are the little-endian readings of the reversed bytes. |
| Endian.SingleByteOrderIrrelevant | src/boost/platform.cpp:12-16 | A single byte reads the same in both byte orders: unsigned as itself, signed as itself minus 256 when at least 0x80. |
| Endian.ConverterExamples | src/boost/platform.cpp:68-72 | 0xFF reads 255 in both orders. 01 00 reads 1 little-endian and 256 big-endian. 0xFF reads -1 signed, and FF FE reads -2 signed big-endian. |
| Endian.DecodeEncodeLe | src/ichannel.cpp:233-266 | The n little-endian bytes written for v read back as v mod 256^n. |
| Endian.EncodeDecodeLe | src/ichannel.cpp:233-266 | Encoding the value of any byte string at its own length gives back the same bytes. |
| Endian.EncodeBeIsReversedLe | src/ichannel.cpp:233-300 | The big-endian bytes a setter writes are its little-endian bytes in reverse order. |
| Endian.ReadingReencodes | src/boost/platform.cpp:9-119 | A reading of 1 to 8 bytes, written back at the same width in the same byte order, gives the same bytes. |
| Endian.UnsignedRoundTrip | src/boost/platform.cpp:9-119 | The bytes a setter writes for v at width n (1..8) convert back to v mod 256^n, in either byte order. |
| Endian.SignedRoundTrip | src/boost/platform.cpp:121-231 | The two's-complement bytes of v at width n convert back to v narrowed to n bytes, in either byte order. That is v itself when v fits. |
| IChannel.NofBytes | src/ichannel.cpp:23 | The byte count is the ceiling of BitCount/8: the least r with 8r ≥ BitCount. |
| IChannel.ShiftInBits | src/ichannel.cpp:36-54 | The bit loop leaves the buffer that the step-by-step specification ShiftIn gives. When its first iteration is not below BitCount, as written, the buffer is unchanged. |
| IChannel.WalkClosedForm | src/ichannel.cpp:37-38 | The step-by-step cursor (lines 49-53) agrees with the closed form. Its m-th position is byte ByteOffset + t/8, bit 8 - t%8, where t = 8 - BitOffset + m. |
| IChannel.WalkInFirstByte | src/ichannel.cpp:49-53 | Until BitOffset bits are taken, the cursor stays in byte ByteOffset at bit BitOffset - m. |
| IChannel.WalkMonotonic | src/ichannel.cpp:49-53 | The cursor's byte never decreases, so the last bit read bounds every byte the loop reads. |
| IChannel.CopyToDataBuffer | src/ichannel.cpp:22-57 | The buffer is ceil(BitCount/8) bytes on every path. With bit offset 0 it is the record's bytes at ByteOffset. For a single bit it is [1] or [0] by that bit. On the general path it is all zeros. |
| IChannel.GetUnsignedValue | src/ichannel.cpp:59-81 | It succeeds exactly for the text types and the two unsigned types. On failure dest is unchanged. On success the value is below 256^n, and 0 when n is outside 1..8. |
| IChannel.GetSignedValue | src/ichannel.cpp:83-101 | It succeeds exactly for the two signed types. On failure dest is unchanged. On success the value lies in the signed range of n bytes, and is 0 when n is outside 1..8. |
| IChannel.CStringAt | src/ichannel.cpp:148-156 | The text is the record's bytes from ByteOffset with no zero among them, and it lies inside the record. It is followed by a zero byte or the end of the whole record, not of the field. |
| IChannel.CStringAtExactly | src/ichannel.cpp:148-156 | Any byte string with the CStringAt properties is CStringAt, so the scan is uniquely determined. |
| IChannel.Utf16At | src/ichannel.cpp:162-171 | The code units contain no zero. They are followed by a zero unit or by fewer than 2 remaining bytes. |
| IChannel.Utf16AtUnits | src/ichannel.cpp:162-171 | Unit i of the UTF-16 scan is the 16-bit word at 2i bytes past its start, and lies inside the record. |
| IChannel.UnitAt | src/ichannel.cpp:164-167 | A UTF-16 code unit is the 2 bytes at its position read little-endian, or big-endian for the Be type (lines 183-186). |
| IChannel.ScanCString | src/ichannel.cpp:129-136 | The byte loop of the ASCII and UTF-8 cases returns exactly CStringAt. |
| IChannel.ScanUtf16 | src/ichannel.cpp:180-190 | The code-unit loop of the UTF-16 cases returns exactly Utf16At, in the given byte order. |
| IChannel.GetTextValue | src/ichannel.cpp:123-202 | UTF-8 is valid and gives the bytes up to the first zero or the end of the record. ASCII gives the transcoded text, or the raw bytes with valid false if transcoding fails. UTF-16 gives the transcoded text, or empty with valid false. Any other type is valid and gives empty. |
| IChannel.GetByteArrayValue | src/ichannel.cpp:204-213 | It always succeeds with DataBytes bytes, byte i being the record's byte at ByteOffset + i. |
| IChannel.GetChannelValueBytes | src/ichannel.cpp:451-519 | An integer channel gives one byte, its value mod 256. Text gives the GetTextValue result. Byte array and mime types give the GetByteArrayValue result. A CANopen date (7 bytes) or time (6 bytes) gives its converted time mod 256. |
| IChannel.LowByte | src/ichannel.cpp:455-470 | Modulo 256, an unsigned or signed reading is the first byte (little-endian) or the last byte (big-endian). |
| IChannel.IntegerVectorIsLowByte | src/ichannel.cpp:455-470 | The one-byte vector form of an aligned integer channel is the field byte holding its least significant bits. |
| IChannel.TextField | src/ichannel.cpp:425-431 | The field image keeps the first min(size, bytes-1) value bytes, and the rest is zero. Its last byte is always 0. |
| IChannel.ZeroThenCopy | src/ichannel.cpp:425-431 | memset of the field then memcpy of a value no longer than the field leaves the value zero-padded to the field. |
| IChannel.Channel.SetUnsignedValueLe | src/ichannel.cpp:233-266 | For widths 1, 2, 4 and 8 it writes the value mod 256^bytes little-endian at ByteOffset and nothing else, keeping the flag. Otherwise the buffer is unchanged and the flag is false. |
| IChannel.Channel.SetUnsignedValueBe | src/ichannel.cpp:268-300 | The same as SetUnsignedValueLe, in big-endian order. |
| IChannel.Channel.SetSignedValueLe | src/ichannel.cpp:302-335 | The same as SetUnsignedValueLe, with the two's-complement bytes of the narrowed value (value mod 256^bytes). |
| IChannel.Channel.SetSignedValueBe | src/ichannel.cpp:337-369 | The same as SetSignedValueLe, in big-endian order. |
| IChannel.Channel.SetTextValue | src/ichannel.cpp:417-432 | With a zero width the buffer is unchanged and the flag is false. Otherwise the field becomes TextField and no other byte changes. |
| IChannel.Channel.SetByteArray | src/ichannel.cpp:434-449 | With a zero width the buffer is unchanged and the flag is false. Otherwise the field becomes the value truncated or zero-padded to the width, with no terminator reserved. No other byte changes. |
| IChannel.Channel.SetChannelValueBytes | src/ichannel.cpp:655-680 | Only a ByteArray channel is written, as by SetByteArray. Every other type leaves the buffer unchanged and the flag false. |
| IChannel.ExtractOverwritten | src/ichannel.cpp:29-31 | An aligned field reads back exactly the bytes last copied into its place. |
| IChannel.UnsignedFieldRoundTrip | src/ichannel.cpp:233-300 | GetUnsignedValue of what SetUnsignedValueLe or Be wrote is valid and equals the value mod 256^bytes. |
| IChannel.SignedFieldRoundTrip | src/ichannel.cpp:302-369 | GetSignedValue of what SetSignedValueLe or Be wrote is the value narrowed to the width. That is the value itself when it fits. |
| IChannel.SignedFieldRoundTripLe | src/ichannel.cpp:302-335 | GetSignedValue of the little-endian two's-complement bytes of the narrowed value, copied into an aligned field, reads back that value. |
| IChannel.SignedFieldRoundTripBe | src/ichannel.cpp:337-369 | The same as SignedFieldRoundTripLe, in big-endian order. |
| IChannel.TextFieldRoundTrip | src/ichannel.cpp:417-432 | Reading back an n-byte text field written by SetTextValue gives the value cut to n-1 bytes, for text without zero bytes. The read goes up to the first zero byte. |
| IChannel.ByteArrayRoundTrip | src/ichannel.cpp:434-449 | GetByteArrayValue of what SetByteArray wrote is the fitted value, so the value itself when it has the field's length. |
| IChannel.ByteArrayRewriteIsIdentity | src/ichannel.cpp:204-213 | Writing back what GetByteArrayValue read leaves the buffer as it was. |
| IChannel.SingleBitExample | src/ichannel.cpp:32-35 | Bit 3 of 0b100 as a one-bit channel reads [1], and 1 as an unsigned value. |
| IChannel.FieldBitsClosedForm | src/ichannel.cpp:39-47 | The bits the loop takes one at a time from BitOffset down, each appended below the others, form the byte shifted right by BitOffset - m and masked to its low m bits. |
| IChannel.BitIsSetByMask | src/ichannel.cpp:40-42 | The test of a byte against the mask 0x01 << (k-1) holds exactly when the byte divided by 2^(k-1) is odd. |
| IChannel.IntendedPush | src/ichannel.cpp:40-47 | On a byte holding the first m field bits shifted left once, one iteration ORs in the next field bit and shifts left again unless it was the last, giving the first m+1 field bits (shifted once unless complete). |
| IChannel.IntendedLoopFrom | src/ichannel.cpp:39-54 | Run from iteration m, the loop that starts at 0 finishes with the whole field in the byte. |
| IChannel.IntendedShiftStep | src/ichannel.cpp:39-54 | On a channel inside one byte, one iteration of the loop started at 0 appends the next field bit to the byte, and shifts the byte left unless that was the last bit. |
| IChannel.IntendedBitLoop | src/ichannel.cpp:39-54 | The loop started at 0 packs the field's bits, from BitOffset down, most significant first, when the field lies in its first byte. |
| IChannel.DeadLoopExample | src/ichannel.cpp:39 | Two bits at bit 2 of 0b11 read as [0] as written, and as [3] with the loop started at 0. |
| IChannel.WideFieldExample | src/ichannel.cpp:39-54 | With the loop started at 0, nine bits of ones at bit 8 read as 0xFE 0x01: the shift after the eighth bit drops the first bit off the top of byte 0. |
| Dz4.ZipTypeOf | src/dz4block.cpp:58 | Only codes 0 and 1 name a compression kind, and each names the kind whose code it is. |
| Dz4.MakeZipTypeString | src/dz4block.cpp:12-22 | It is "ZLIB Deflate" exactly for 0, "Transposition + ZLIB Deflate" exactly for 1, and "Unknown" exactly for any other code. |
| Dz4.ReadUint32 | src/dz4block.cpp:43 | The number read from a 32-bit field, written back as 4 little-endian bytes, gives the same 4 bytes: the reading loses nothing. |
| Dz4.ReadUint64 | src/dz4block.cpp:44-45 | The number read from a 64-bit field, written back as 8 little-endian bytes, gives the same 8 bytes. |
| Dz4.DecodeFields | src/dz4block.cpp:39-45 | Laying the decoded fields out again gives back the 24 bytes they came from. With FieldsRoundTrip, decoding is the exact inverse of the layout. |
| Dz4.FieldsRoundTrip | src/dz4block.cpp:39-45 | Decoding the 24 bytes a writer lays out for the six fields gives the same fields. |
| Dz4.Span | src/dz4block.cpp:95 | A read returns at most the requested bytes, all of them from the file at the position, and stops early only at the end of the file. |
| Dz4.InputFile.ReadBytes | src/dz4block.cpp:38-45 | A read of n bytes returns the n bytes at the file position and advances the position by n. |
| Dz4.Decompress | src/dz4block.cpp:94-116 | The output is always exactly the original length. Its success flag is inflate's. |
| Dz4.Dz4Block.Compressed | src/dz4block.cpp:94-95 | The compressed buffer has DataLength bytes. Byte i is the file's byte at the data position + i, or 0 past the end of the file. |
| Dz4.TransposeAddsOnlyInverse | src/dz4block.cpp:105-116 | The transpose kind differs from plain deflate only by the inverse transposition of the inflated buffer. |
| Dz4.Dz4Block.Read | src/dz4block.cpp:37-48 | It returns the header byte count plus 24. The fields are the little-endian decoding of the 24 bytes after the header. The data position is the file position right after them. |
| Dz4.Dz4Block.CopyDataToBuffer | src/dz4block.cpp:82-123 | With no payload or an unknown kind it returns 0 and leaves the index and buffer unchanged. Otherwise, whatever inflate reports, it writes exactly the original length of decompressed bytes at the index and changes nothing else. It then advances the index by that count and returns it. |
| Dz4.Dz4Block.CopyDataToFile | src/dz4block.cpp:50-80 | With no payload or an unknown kind it returns 0 and writes nothing. Otherwise it returns the original length if inflate succeeded and 0 if it failed. The transpose kind writes its full buffer even on failure. |

## Left out

- Floating point: `ConvertFloatLe/Be`, `SetFloatValueLe/Be`, `GetFloatValue` and the float case of `GetChannelValue`, because IEEE 754 decoding is outside this model.
- IChannel.GetChannelValueBytes: requires a non-float channel, because its FloatLe/FloatBe case goes through `GetFloatValue`.
- Text transcoding (Latin-1 to UTF-8, UTF-16 to UTF-8) is a parameter that may fail (`None` stands for the exception). The Boost.Locale conversion itself is not part of this model.
- The CANopen date/time conversions are parameters. The `MdfHelper` conversions and the time-zone-dependent formatting are not part of this model.
- Numeric text parsing and printing (`GetChannelValue` and `SetChannelValue` for strings) are library calls with exception behaviour, so they are left out.
- zlib's inflate and the inverse transposition (`mdf/zlibutil.h`) are not part of this model. They are function parameters, so the exactness of the transposition inverse is not stated.
- File I/O:
  - The file is a byte sequence. `ReadHeader4` is not part of this model, and its byte count is the parameter `headerBytes`.
  - The destination file of `CopyDataToFile` is the returned byte sequence.
  - The file position after a copy operation is not modelled.
- Dz4.Dz4Block.Read: requires the file to hold the header and the 24 field bytes. What the field readers do on a short read is not part of this model. The six field reads are modelled as one read of 24 bytes, decoded field by field.
- Dz4.Dz4Block.CopyDataToFile: the plain-deflate case inflates the bytes read from the file at the data position (at most DataLength of them) and writes whatever inflate produced. The stream inflater's partial output on failure is not modelled beyond that.
- Dz4.Decompress: inflate's output lands in a zero-filled buffer of the original length, modelled as truncating or zero-padding. The inverse transposition works in place on that buffer, so its result is fitted to the same length.
- `Dz4Block::GetBlockProperty` only builds display strings, so it is left out.
- `Sync`, `Range`, `Limit` and `ExtLimit` have empty bodies, so they are left out.
- The data-list and PR3 blocks have no bodies, and `mdf4file.h` is file-level orchestration, so they are left out.
- IChannel.UnsignedFieldRoundTrip: holds only for byte-aligned fields of 8, 16, 32 or 64 bits (`AlignedIntegerField`). The integer setters write floor(BitCount/8) bytes at ByteOffset and ignore BitOffset, while the getters read ceil(BitCount/8) bytes through `CopyToDataBuffer`. So, as in the code, a 12-bit field does not round-trip.
- IChannel.SignedFieldRoundTrip: holds only for byte-aligned fields of 8, 16, 32 or 64 bits, for the same reason.
- Bit offsets above 8, where the C++ `uint8_t` shift truncates, are not modelled. The bit offset is typed 0..8.
- `DataBytes()` comes from the concrete channel class, which is not part of this model. It is a field of the geometry.
- The unchecked reads and writes of the C++ code are preconditions on the record or sample buffer size:
  - `FieldReadable` and `ValueReadable` for the record;
  - `IntegerFieldFits` and `FieldFits` for the sample buffer;
  - the buffer-size requirement of `CopyDataToBuffer`.
