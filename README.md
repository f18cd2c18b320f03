# niimprint core, modelled in Dafny

niimprint drives NIIMBOT label printers. This project models three parts of it:

- **The wire frame** (`niimprint/packet.py`). Every command and reply travels as
  `55 55 | kind | length | data ... | checksum | AA AA`.
  The checksum is the XOR of the kind, the length and each data byte.
- **The scan-line encoder** (`niimprint/image.py`). It turns a bilevel picture into one
  command `0x85` per row. Each command carries:
  - a six-byte header: the row index as a big-endian 16-bit number, three zero counts, then `1`;
  - the row's pixels, read as one binary number and written big-endian in `ceil(W / 8)` bytes.
- **The capability check and the model table** (`niimprint/image.py`, `niimprint/models.py`).
  A picture is refused when its density or its width exceeds the chosen printer model's limit.

## Layout

| file | module | contents |
|---|---|---|
| `common.dfy` | `Bytes`, `Results` | The byte type (`bv8`, so XOR is native) and the result types. Python exceptions become these result values. |
| `packet.dfy` | `Packets` | `to_bytes` and `from_bytes`: a recursive XOR fold, the two loop methods proved equal to it, and the codec's properties. |
| `row_packing.dfy` | `RowPacking` | Turning one row of pixels into bytes: `int(bits, 2).to_bytes(ceil(W / 8), "big")`. |
| `image.dfy` | `Images` | `_encode_image` as a loop method, proved against a functional specification, and `validate_image`. |
| `models.dfy` | `Models` | `Device`, `SUPPORTED_DEVICES` and the `SupportedDevice` enumeration. |

Each Python exception on these paths is an error value:

- `to_bytes`: `bytes(...)` raises ValueError when a value is outside 0..255. This becomes `ByteOutOfRange`.
- `from_bytes`: each of its three `assert` statements fails with its own error. These are `BadHead`, `BadTail` and `BadChecksum`.
- `_encode_image` with a zero-width picture: `int("", 2)` raises ValueError. This becomes `EmptyRow`.
- `_encode_image` at row 65536: `struct.pack(">H", y)` raises struct.error. This becomes `LineIndexOverflow`.
- `validate_image`: `NiimPrintError` becomes `DensityUnsupported` or `WidthUnsupported`. Each carries the values its message prints.

Notes on the code's behaviour:

- A packed row is right-aligned. Padding sits in the high bits of the first byte, so two ink pixels pack to `0x03`. The frame of that one-line picture ends `... 01 03 80 AA AA`.
- `from_bytes` reads the trailer and the checksum from the end of the buffer. Bytes after a frame are therefore read as its trailer and checksum, not skipped.
- The encoder has no check for an empty picture and none for an over-long row:
  - a picture with no rows encodes to an empty payload;
  - a picture with rows but no columns fails inside `int("", 2)`;
  - a row over 1992 pixels yields a packet that `to_bytes` later refuses.
- `validate_image` checks the density before the width.

## Model

| member | source | states |
|---|---|---|
| `Packets.Serialized` | niimprint/packet.py:24-30 | `to_bytes` succeeds exactly when the kind is in 0..255 and the data has at most 255 bytes; the frame is then `len(data) + 7` bytes long |
| `Packets.ChecksumOf` | niimprint/packet.py:25-27 | the `checksum ^= i` loop computes the left XOR fold of the data, starting from kind XOR length |
| `Packets.Checksum` | niimprint/packet.py:25-27 | the checksum is kind XOR length XOR the XOR of all data bytes |
| `Packets.XorFoldShift` | niimprint/packet.py:25-27 | the fold's starting value can be pulled out: folding from `acc` is `acc` XOR folding from 0 |
| `Packets.XorFoldAppend` | niimprint/packet.py:25-27 | folding over `s + t` is folding over `t` from the result of folding over `s` |
| `Packets.ToBytes` | niimprint/packet.py:24-30 | the step-by-step `to_bytes`, including its loop, yields exactly the specified frame or the error |
| `Packets.Parsed` | niimprint/packet.py:10-22 | `from_bytes` fails on the head marker exactly when the first two bytes are not `55 55`, and on the trailer exactly when the head is right but the last two bytes are not `AA AA`; it fails on the checksum exactly when both markers are right and the fold over the sliced data differs from the third-from-last byte. On success the kind is byte 2, the data is the slice `pkt[4 : 4 + length]` clamped to the buffer, and the checksum matches |
| `Packets.FromBytes` | niimprint/packet.py:10-22 | the step-by-step `from_bytes`, including its loop, yields exactly the specified result |
| `Packets.SerializedLayout` | niimprint/packet.py:28-30 | the frame is `55 55`, kind, length, the data, the checksum, `AA AA`, each at its place |
| `Packets.FrameOfIsSerialized` | niimprint/packet.py:28-30 | a buffer has that field-by-field layout for a packet if and only if it is that packet's `to_bytes` output |
| `Packets.FrameContentXorsToZero` | niimprint/packet.py:25-29 | the XOR of kind, length, every data byte and the checksum byte of a frame is zero |
| `Packets.XorFoldUpdate` | niimprint/packet.py:25-27 | replacing one byte changes the checksum by exactly the old byte XOR the new one |
| `Packets.ChecksumSensitiveToKind` | niimprint/packet.py:25-27 | a different kind gives a different checksum |
| `Packets.ChecksumSensitiveToData` | niimprint/packet.py:25-27 | a different value of any one data byte gives a different checksum |
| `Packets.RoundTrip` | niimprint/packet.py:10-30 | `from_bytes(to_bytes(p)) == p` for every packet `to_bytes` accepts |
| `Packets.CorruptedContentRejected` | niimprint/packet.py:17-20 | changing the kind byte, any data byte or the checksum byte of a frame to another value makes `from_bytes` fail its checksum assertion |
| `Packets.CorruptedMarkerRejected` | niimprint/packet.py:11-12 | changing any byte of either marker of a frame makes `from_bytes` fail on that marker |
| `Packets.ShortBufferAccepted` | niimprint/packet.py:10-22 | `from_bytes` accepts the five-byte buffer `55 55 00 AA AA` as the packet (0, [AA]), whose own frame is different |
| `Packets.ParsedStrict` | niimprint/packet.py:10-22 | `from_bytes` with the missing length check: the same marker errors, a length error exactly when both markers are right but the buffer is not `length + 7` bytes, and on success the data is everything between byte 4 and the checksum, whose fold matches |
| `Packets.StrictParseInvertsSerialize` | niimprint/packet.py:10-30 | with the length check added, parsing returns `p` from `b` if and only if `to_bytes(p) == b` |
| `Packets.StrictAgreesWithParsed` | niimprint/packet.py:10-22 | wherever the length-checked parser succeeds, `from_bytes` as written returns the same packet |
| `RowPacking.PackRow` | niimprint/image.py:16-18 | a packed row has `ceil(W / 8)` bytes; what they hold is stated by `PackRowValue`, `PackRowLayout` and `PackRowAligned` |
| `RowPacking.BigEndianValue` | niimprint/image.py:18 | `to_bytes(n, "big")` of a number below 2^(8n) reads back as that number |
| `RowPacking.PackRowValue` | niimprint/image.py:16-18 | a packed row has `ceil(W / 8)` bytes; the row's number always fits, so `to_bytes` never overflows; read back big-endian it is the number whose binary digits are the pixels (0 for value 0, 1 otherwise), leftmost pixel most significant |
| `RowPacking.PackRowLayout` | niimprint/image.py:17-18 | the packed row is `8 * ceil(W / 8) - W` zero bits, then the pixel bits left to right, cut into bytes most significant bit first: padding sits in the high bits of the first byte |
| `RowPacking.ByteWeights` | niimprint/image.py:17-18 | the i-th bit of an eight-bit group, counting from 0, carries weight 2^(7 - i) in its byte |
| `RowPacking.PackRowAligned` | niimprint/image.py:17-18 | when W is a multiple of 8, pixel 8k + i sets bit 7 - i of byte k |
| `RowPacking.TwoInkPixels` | niimprint/image.py:16-18 | two ink pixels pack to `0x03` |
| `RowPacking.AlternatingPixels` | niimprint/image.py:16-18 | the row 1,0,1,0,1,0,1,0 packs to `0xAA` |
| `Images.EncodeImage` | niimprint/image.py:12-28 | the row loop that appends one packet per row yields exactly the specified encoding, errors included |
| `Images.Encoded` | niimprint/image.py:12-28 | encoding fails only for a picture with rows but no columns, or with more than 65536 rows; otherwise it keeps width, height and density and yields one packet per row, none for a picture with no rows |
| `Images.LinesGrow` | niimprint/image.py:15-21 | one more iteration appends line y's packet after the packets of lines 0 .. y-1 and changes none of them |
| `Images.EncodedLine` | niimprint/image.py:15-21 | packet y has kind `0x85` and `6 + ceil(W / 8)` data bytes; its header carries line index y, so the lines run 0 .. H-1 in order, then `00 00 00 01`, then row y packed |
| `Images.LineHeader` | niimprint/image.py:20 | the `>H3BB` header is six bytes whose first two give back y big-endian, followed by `00 00 00 01` |
| `Images.LinePacket` | niimprint/image.py:19-21 | the packet for line y has kind `0x85` and `6 + ceil(W / 8)` data bytes: line index y big-endian, `00 00 00 01`, then the packed row |
| `Images.LinePacketSerializable` | niimprint/image.py:19-21 | a line packet fits the frame's one-byte length exactly when the row is at most 1992 pixels wide; its frame is then `13 + ceil(W / 8)` bytes |
| `Images.TwoInkPixelImage` | niimprint/image.py:12-28 | the 2 x 1 picture with both pixels inked encodes to the single packet `0x85` with data `00 00 00 00 00 01 03` |
| `Images.TwoInkPixelFrame` | niimprint/image.py:21 | that packet's frame is `55 55 85 07 00 00 00 00 00 01 03 80 AA AA` |
| `Images.Validate` | niimprint/image.py:40-51 | the check passes if and only if density <= max density and width <= max width; it reports the density if and only if the density is too high, and the width if and only if only the width is too large |
| `Images.ValidatedLimits` | niimprint/image.py:40-51 | a picture that passes the check for any supported model has density at most 5 and width at most 384 |
| `Images.ValidationExamples` | niimprint/image.py:42-51 | both limits are inclusive, and a picture over both limits is refused for its density |
| `Images.ValidatedImageSerializes` | niimprint/image.py:40-51 | every line of an encoded picture that passes the check for a supported model serialises, as a frame of `13 + ceil(W / 8)` bytes, and its density is at most 5; the check sets no lower bound, so density 0 passes too |
| `Models.Name` | niimprint/models.py:23 | every enumeration member names a table entry whose `name` field is that key |
| `Models.Profile` | niimprint/__main__.py:89 | the lookup `SUPPORTED_DEVICES[model.name]` always succeeds, returns the model's own entry, and its max density lies in the command line's range 1..5 (`__main__.py:43`) |
| `Models.TableKeys` | niimprint/models.py:13-19 | the table holds exactly D11, D110, B1, B18 and B21, and each key equals its entry's `name` |
| `Models.EnumerationMatchesTable` | niimprint/models.py:23 | the enumeration's members are exactly the table's keys, one member per key |
| `Models.DeviceLimits` | niimprint/models.py:14-18 | D11 and D110 allow density 3 and width 96; B1 and B21 allow 5 and 384; B18 allows 3 and 384 |

## Findings

| source | as written | input that shows it | evidently intended | confidence | as-written member | corrected member |
|---|---|---|---|---|---|---|
| niimprint/packet.py:10-22 | `from_bytes` never checks that the buffer is `length + 7` bytes long. The data slice is clamped to the buffer, while the checksum and the trailer are read from its end, so the same bytes can serve as both. | `55 55 00 AA AA` is accepted as the packet (0, [AA]); that packet's own frame is `55 55 00 01 AA AB AA AA` | accept exactly the frames `to_bytes` produces | not executed | `Packets.ShortBufferAccepted` | `Packets.StrictParseInvertsSerialize` |

## Left out

- `niimprint/transport.py`: Bluetooth RFCOMM and serial I/O with timeouts.
- `niimprint/__main__.py`: click parsing, logging, opening and rotating the picture, and the printer session.
  - Kept: its density range 1..5 (line 43) and its table lookup (line 89).
  - Its call at line 91 passes keyword arguments `validate_image` does not take, so it is not modelled.
- `prepare_image` (`niimprint/image.py:31-37`): file I/O and PIL rotation.
- The PIL conversion at `niimprint/image.py:13`: grayscale, invert, then 1-bit with dithering.
  - The model's input is the resulting pixel matrix, `pixels[y][x]`.
  - Pixel value 0 means no ink; any other value means ink.
- `NiimbotImage` is imported from `niimprint/packet.py`, but that file does not define it. It is a plain record here: width, height, payload and density, as built at `niimprint/image.py:23-28`.
- `niimprint/__init__.py`, the `exceptions` module and the `printer` module (`PrinterClient`) are not part of this model.
- `NiimPrintError` messages: only the values they print are kept, not the text.
- `Images.EncodeImage` builds the payload as a sequence value. The identity of the Python list object is not modelled.
- `RowPacking.PackRow` computes `math.ceil(W / 8)` exactly, as `(W + 7) / 8`. Python goes through a float division, which agrees for every width below 2^53.
- `Images.ValidatedImageSerializes`: promises only density at most 5. `validate_image` sets no lower bound on the density; only the command line's `click.IntRange(1, 5)` does, and that is not modelled.
- Python `assert` statements vanish under `python -O`. The model treats the three assertions of `from_bytes` as always checked.
