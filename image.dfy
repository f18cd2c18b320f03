/**
 * Turning a bilevel picture into printer commands, and checking it against a
 * model's limits (niimprint/image.py).
 */
module Images {
  import opened Bytes
  import opened Results
  import opened Packets
  import opened RowPacking
  import opened Models

  /**
   * The bilevel picture `_encode_image` reads with `getpixel((x, y))`:
   * `pixels[y][x]`, 0 for no ink and anything else for ink.
   */
  datatype Raster = Raster(width: nat, height: nat, pixels: seq<seq<int>>)

  predicate WellFormed(image: Raster)
  {
    |image.pixels| == image.height &&
    forall y :: 0 <= y < image.height ==> |image.pixels[y]| == image.width
  }

  /** `NiimbotImage`: the picture's size, the requested density and one packet per line. */
  datatype NiimbotImage = NiimbotImage(width: nat, height: nat, payload: seq<Packet>, density: int)

  datatype EncodeError =
    | EmptyRow           // `int("", 2)` raises ValueError on a picture with no columns
    | LineIndexOverflow  // `struct.pack(">H", y)` raises struct.error once y reaches 65536

  /** The command kind of one scan line. */
  const LineKind: int := 0x85

  /** Line indices must fit the 16-bit field of the header. */
  const MaxLines: nat := 0x1_0000

  /** `struct.pack(">H3BB", y, 0, 0, 0, 1)`: y big-endian, three zero counts, then 1. */
  function LineHeader(y: nat): (h: seq<byte>)
    requires y < MaxLines
    ensures |h| == 6 && LineIndex(h) == y
    ensures h[2..] == [0, 0, 0, 1]
  {
    ByteOfInt(y / 256);
    ByteOfInt(y % 256);
    [(y / 256) as byte, (y % 256) as byte, 0, 0, 0, 1]
  }

  /** The line index a header carries, read back as a big-endian 16-bit number. */
  function LineIndex(data: seq<byte>): nat
    requires |data| >= 2
  {
    data[0] as nat * 256 + data[1] as nat
  }

  /** `NiimbotPacket(0x85, header + line_data)` for line `y`. */
  function LinePacket(row: seq<int>, y: nat): (p: Packet)
    requires y < MaxLines
    ensures p.kind == LineKind && |p.data| == 6 + ByteCount(|row|)
    ensures LineIndex(p.data) == y && p.data[2..6] == [0, 0, 0, 1] && p.data[6..] == PackRow(row)
  {
    var header, lineData := LineHeader(y), PackRow(row);
    assert (header + lineData)[2..6] == header[2..];
    assert (header + lineData)[6..] == lineData;
    Packet(LineKind, header + lineData)
  }

  /** A line packet is the 0x85 command holding the header and then the packed row. */
  lemma LinePacketParts(row: seq<int>, y: nat)
    requires y < MaxLines
    ensures LinePacket(row, y) == Packet(LineKind, LineHeader(y) + PackRow(row))
  {
  }

  /** The packets of the first `n` scan lines, in order. */
  function Lines(image: Raster, n: nat): seq<Packet>
    requires WellFormed(image) && n <= image.height && n <= MaxLines
  {
    seq(n, y requires 0 <= y < n => LinePacket(image.pixels[y], y))
  }

  /** One more scan line appends its packet and leaves the earlier ones alone. */
  lemma LinesGrow(image: Raster, n: nat)
    requires WellFormed(image) && n < image.height && n < MaxLines
    ensures Lines(image, n + 1) == Lines(image, n) + [LinePacket(image.pixels[n], n)]
  {
    var longer := Lines(image, n + 1);
    assert longer[..n] == Lines(image, n);
    assert longer[n] == LinePacket(image.pixels[n], n);
    LastSplit(longer);
  }

  /** A non-empty sequence is its prefix followed by its last element. */
  lemma LastSplit<T>(s: seq<T>)
    requires |s| > 0
    ensures s == s[..|s| - 1] + [s[|s| - 1]]
  {
  }

  /** `_encode_image`, with the picture already reduced to two levels. */
  function Encoded(image: Raster, density: int): (r: Result<NiimbotImage, EncodeError>)
    requires WellFormed(image)
    ensures r.Ok? <==> (image.height == 0 || image.width > 0) && image.height <= MaxLines
    ensures r == Err(EmptyRow) <==> image.height > 0 && image.width == 0
    ensures r.Ok? ==>
      r.value.width == image.width && r.value.height == image.height &&
      r.value.density == density && |r.value.payload| == image.height
    ensures image.height == 0 ==> r == Ok(NiimbotImage(image.width, 0, [], density))
  {
    if image.height > 0 && image.width == 0 then Err(EmptyRow)
    else if image.height > MaxLines then Err(LineIndexOverflow)
    else Ok(NiimbotImage(image.width, image.height, Lines(image, image.height), density))
  }

  /** `_encode_image`, one scan line per iteration. */
  method EncodeImage(image: Raster, density: int) returns (r: Result<NiimbotImage, EncodeError>)
    requires WellFormed(image)
    ensures r == Encoded(image, density)
  {
    var payload: seq<Packet> := [];
    for y := 0 to image.height
      invariant y <= MaxLines
      invariant y > 0 ==> image.width > 0
      invariant payload == Lines(image, y)
    {
      if image.width == 0 {
        return Err(EmptyRow);
      }
      if y >= MaxLines {
        return Err(LineIndexOverflow);
      }
      var lineData := PackRow(image.pixels[y]);
      var header := LineHeader(y);
      LinePacketParts(image.pixels[y], y);
      LinesGrow(image, y);
      payload := payload + [Packet(LineKind, header + lineData)];
    }
    r := Ok(NiimbotImage(image.width, image.height, payload, density));
  }

  // ---------------------------------------------------------------------
  // Properties of the encoder

  /**
   * Packet y is a 0x85 command whose data is the header for line y (so the
   * lines run 0 .. H-1 in order) followed by row y packed into ceil(W / 8) bytes.
   */
  lemma EncodedLine(image: Raster, density: int, y: nat)
    requires WellFormed(image) && Encoded(image, density).Ok?
    requires y < image.height
    ensures var p := Encoded(image, density).value.payload[y];
      p.kind == LineKind &&
      |p.data| == 6 + ByteCount(image.width) &&
      LineIndex(p.data) == y &&
      p.data[2..6] == [0, 0, 0, 1] &&
      p.data[6..] == PackRow(image.pixels[y])
  {
    var p := Encoded(image, density).value.payload[y];
    assert p == LinePacket(image.pixels[y], y);
  }

  /**
   * A line packet fits the frame's one-byte length field exactly when the
   * row is at most 1992 pixels wide; the encoder itself never checks this.
   */
  lemma LinePacketSerializable(row: seq<int>, y: nat)
    requires y < MaxLines
    ensures Serializable(LinePacket(row, y)) <==> |row| <= 1992
    ensures |row| <= 1992 ==> |Serialized(LinePacket(row, y)).value| == 13 + ByteCount(|row|)
  {
    assert |LinePacket(row, y).data| == 6 + ByteCount(|row|);
    assert ByteCount(|row|) < 250 <==> |row| <= 1992;
  }

  /** The 2-pixel, 1-line picture with both pixels inked gives one line packet ending in 0x03. */
  lemma TwoInkPixelImage()
    ensures Encoded(Raster(2, 1, [[255, 255]]), 3) ==
      Ok(NiimbotImage(2, 1, [Packet(0x85, [0x00, 0x00, 0x00, 0x00, 0x00, 0x01, 0x03])], 3))
  {
    TwoInkPixels();
    var data: seq<byte> := [0x00, 0x00, 0x00, 0x00, 0x00, 0x01, 0x03];
    assert LineHeader(0) + PackRow([255, 255]) == data;
    var out := Encoded(Raster(2, 1, [[255, 255]]), 3).value;
    assert out.payload == [LinePacket([255, 255], 0)];
  }

  /** The checksum of that packet: 0x85 ^ 0x07 ^ 0x01 ^ 0x03. */
  lemma TwoInkPixelChecksum()
    ensures Checksum(0x85, 0x07, [0x00, 0x00, 0x00, 0x00, 0x00, 0x01, 0x03]) == 0x80
  {
    var data: seq<byte> := [0x00, 0x00, 0x00, 0x00, 0x00, 0x01, 0x03];
    var acc: byte := 0x85 ^ 0x07;
    assert XorFold(acc, data[..0]) == 0x82;
    assert data[..1][..0] == data[..0];
    assert XorFold(acc, data[..1]) == 0x82;
    assert data[..2][..1] == data[..1];
    assert XorFold(acc, data[..2]) == 0x82;
    assert data[..3][..2] == data[..2];
    assert XorFold(acc, data[..3]) == 0x82;
    assert data[..4][..3] == data[..3];
    assert XorFold(acc, data[..4]) == 0x82;
    assert data[..5][..4] == data[..4];
    assert XorFold(acc, data[..5]) == 0x82;
    assert data[..6][..5] == data[..5];
    assert XorFold(acc, data[..6]) == 0x83;
    assert data[..7][..6] == data[..6];
    assert data[..7] == data;
  }

  /** ... and that packet goes on the wire as 55 55 85 07 00 00 00 00 00 01 03 80 AA AA. */
  lemma TwoInkPixelFrame()
    ensures Serialized(Packet(0x85, [0x00, 0x00, 0x00, 0x00, 0x00, 0x01, 0x03])) ==
      Ok([0x55, 0x55, 0x85, 0x07, 0x00, 0x00, 0x00, 0x00, 0x00, 0x01, 0x03, 0x80, 0xAA, 0xAA])
  {
    var data: seq<byte> := [0x00, 0x00, 0x00, 0x00, 0x00, 0x01, 0x03];
    TwoInkPixelChecksum();
    assert Serialized(Packet(0x85, data)) == Ok(Frame(0x85, 0x07, data));
    assert Frame(0x85, 0x07, data) ==
      [0x55, 0x55, 0x85, 0x07, 0x00, 0x00, 0x00, 0x00, 0x00, 0x01, 0x03, 0x80, 0xAA, 0xAA];
  }

  // ---------------------------------------------------------------------
  // Checking a picture against a model

  datatype ValidationError =
    | DensityUnsupported(device: string, density: int, maxDensity: int)
    | WidthUnsupported(device: string, maxWidth: int, width: int)

  /** `validate_image`: the density check comes first, then the width check. */
  function Validate(device: Device, image: NiimbotImage): (r: Outcome<ValidationError>)
    ensures r.Pass? <==> image.density <= device.maxDensity && image.width <= device.maxWidth
    ensures r.Fail? && r.error.DensityUnsupported? <==> image.density > device.maxDensity
    ensures r.Fail? && r.error.WidthUnsupported? <==>
      image.density <= device.maxDensity && image.width > device.maxWidth
  {
    if image.density > device.maxDensity then
      Fail(DensityUnsupported(device.name, image.density, device.maxDensity))
    else if image.width > device.maxWidth then
      Fail(WidthUnsupported(device.name, device.maxWidth, image.width))
    else
      Pass
  }

  /** Both limits are inclusive; a picture over both limits reports the density. */
  lemma ValidationExamples()
    ensures Validate(Profile(D11), NiimbotImage(50, 1, [], 4)).Fail?
    ensures Validate(Profile(D11), NiimbotImage(50, 1, [], 4)).error.DensityUnsupported?
    ensures Validate(Profile(D11), NiimbotImage(200, 1, [], 3)).Fail?
    ensures Validate(Profile(D11), NiimbotImage(200, 1, [], 3)).error.WidthUnsupported?
    ensures Validate(Profile(D11), NiimbotImage(200, 1, [], 4)).Fail?
    ensures Validate(Profile(D11), NiimbotImage(200, 1, [], 4)).error.DensityUnsupported?
    ensures Validate(Profile(B1), NiimbotImage(384, 1, [], 5)).Pass?
  {
  }

  /**
   * Every line of an encoded picture that passes the check for a supported
   * model serialises, each as a frame of 13 + ceil(W / 8) bytes, and its
   * density is at most 5, the top of the command line's range (the check
   * itself sets no lower bound).
   */
  lemma ValidatedImageSerializes(m: SupportedDevice, image: Raster, density: int)
    requires WellFormed(image) && Encoded(image, density).Ok?
    requires Validate(Profile(m), Encoded(image, density).value).Pass?
    ensures var out := Encoded(image, density).value;
      out.density <= MaxCliDensity &&
      forall y :: 0 <= y < |out.payload| ==>
        Serialized(out.payload[y]).Ok? &&
        |Serialized(out.payload[y]).value| == 13 + ByteCount(image.width)
  {
    var out := Encoded(image, density).value;
    ValidatedLimits(m, out);
    forall y | 0 <= y < |out.payload|
      ensures Serialized(out.payload[y]).Ok?
      ensures |Serialized(out.payload[y]).value| == 13 + ByteCount(image.width)
    {
      assert out.payload[y] == LinePacket(image.pixels[y], y);
      LinePacketSerializable(image.pixels[y], y);
    }
  }

  /** No supported model takes a density above 5 or a picture wider than 384 pixels. */
  lemma ValidatedLimits(m: SupportedDevice, image: NiimbotImage)
    requires Validate(Profile(m), image).Pass?
    ensures image.density <= MaxCliDensity && image.width <= 384
  {
    DeviceLimits();
    match m
    case D11 =>
    case D110 =>
    case B1 =>
    case B18 =>
    case B21 =>
  }

}
