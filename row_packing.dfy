/**
 * Packing one scan line into bytes (niimprint/image.py:16-18): every pixel
 * becomes one binary digit ("0" for pixel value 0, "1" otherwise), the digits
 * are read as one binary number, and that number is written big-endian in
 * ceil(W / 8) bytes. Any padding therefore lands in the HIGH bits of the
 * first byte.
 */
module RowPacking {
  import opened Bytes

  /** `"0" if pix == 0 else "1"` */
  function Bit(pixel: int): nat
  {
    if pixel == 0 then 0 else 1
  }

  /** The digits of a row, left to right. */
  function RowBits(row: seq<int>): seq<nat>
  {
    seq(|row|, i requires 0 <= i < |row| => Bit(row[i]))
  }

  predicate IsBits(bits: seq<nat>)
  {
    forall i :: 0 <= i < |bits| ==> bits[i] <= 1
  }

  function Pow2(k: nat): (r: nat)
    ensures r >= 1
  {
    if k == 0 then 1 else 2 * Pow2(k - 1)
  }

  /** `int(bits, 2)`: the number whose binary digits, most significant first, are `bits`. */
  function BitsValue(bits: seq<nat>): nat
  {
    if |bits| == 0 then 0 else 2 * BitsValue(bits[..|bits| - 1]) + bits[|bits| - 1]
  }

  /** `math.ceil(width / 8)` */
  function ByteCount(width: nat): nat
  {
    (width + 7) / 8
  }

  /** Number of unused bits in a packed row of `width` pixels. */
  function Padding(width: nat): nat
  {
    8 * ByteCount(width) - width
  }

  /** `value.to_bytes(n, "big")`: the low `n` bytes of `value`, most significant first. */
  function BigEndian(value: nat, n: nat): (r: seq<byte>)
    ensures |r| == n
  {
    if n == 0 then [] else BigEndian(value / 256, n - 1) + [(value % 256) as byte]
  }

  /** `int.from_bytes(bytes, "big")` */
  function BytesValue(bytes: seq<byte>): nat
  {
    if |bytes| == 0 then 0 else 256 * BytesValue(bytes[..|bytes| - 1]) + bytes[|bytes| - 1] as nat
  }

  /** Lines 16-18 of image.py for one row of pixels. */
  function PackRow(row: seq<int>): (r: seq<byte>)
    ensures |r| == ByteCount(|row|)
  {
    BigEndian(BitsValue(RowBits(row)), ByteCount(|row|))
  }

  function Zeros(k: nat): seq<nat>
  {
    seq(k, _ => 0)
  }

  /** Eight digits, most significant first, as one byte. */
  function ByteOf(bits: seq<nat>): (r: byte)
    requires |bits| == 8 && IsBits(bits)
    ensures r as int == BitsValue(bits)
  {
    BitsValueBound(bits);
    Pow2Byte();
    ByteOfInt(BitsValue(bits));
    BitsValue(bits) as byte
  }

  /** A digit string cut into bytes of eight digits, most significant digit first. */
  function Chunks(bits: seq<nat>): (r: seq<byte>)
    requires |bits| % 8 == 0 && IsBits(bits)
    ensures |r| == |bits| / 8
    decreases |bits|
  {
    if |bits| == 0 then [] else Chunks(bits[..|bits| - 8]) + [ByteOf(bits[|bits| - 8..])]
  }

  // ---------------------------------------------------------------------
  // Arithmetic facts

  lemma {:induction false} Pow2Monotone(a: nat, b: nat)
    requires a <= b
    ensures Pow2(a) <= Pow2(b)
    decreases b
  {
    if a < b {
      Pow2Monotone(a, b - 1);
    }
  }

  /** A string of `k` binary digits denotes a number below 2^k. */
  lemma {:induction false} BitsValueBound(bits: seq<nat>)
    requires IsBits(bits)
    ensures BitsValue(bits) < Pow2(|bits|)
    decreases |bits|
  {
    if |bits| > 0 {
      BitsValueBound(bits[..|bits| - 1]);
    }
  }

  /** Appending digits shifts the value left by their count. */
  lemma {:induction false} BitsValueAppend(a: seq<nat>, b: seq<nat>)
    ensures BitsValue(a + b) == BitsValue(a) * Pow2(|b|) + BitsValue(b)
    decreases |b|
  {
    if |b| == 0 {
      assert a + b == a;
    } else {
      var b' := b[..|b| - 1];
      assert (a + b)[..|a + b| - 1] == a + b';
      BitsValueAppend(a, b');
      ShiftStep(BitsValue(a), Pow2(|b'|), BitsValue(b'), b[|b| - 1]);
    }
  }

  lemma ShiftStep(x: nat, p: nat, y: nat, d: nat)
    ensures 2 * (x * p + y) + d == x * (2 * p) + (2 * y + d)
  {
  }

  lemma {:induction false} ZerosValue(k: nat)
    ensures BitsValue(Zeros(k)) == 0
    decreases k
  {
    if k > 0 {
      assert Zeros(k)[..k - 1] == Zeros(k - 1);
      ZerosValue(k - 1);
    }
  }

  /** Leading zero digits do not change the value. */
  lemma LeadingZerosValue(k: nat, bits: seq<nat>)
    ensures BitsValue(Zeros(k) + bits) == BitsValue(bits)
  {
    BitsValueAppend(Zeros(k), bits);
    ZerosValue(k);
  }

  // ---------------------------------------------------------------------
  // Properties of the packing

  /** Reading the bytes back big-endian gives the number that was written. */
  lemma {:induction false} BigEndianValue(value: nat, n: nat)
    requires value < Pow2(8 * n)
    ensures BytesValue(BigEndian(value, n)) == value
    decreases n
  {
    if n > 0 {
      Pow2Step(n);
      DivBelow(value, Pow2(8 * (n - 1)));
      BigEndianValue(value / 256, n - 1);
      BigEndianLast(value, n);
    }
  }

  lemma Pow2Step(n: nat)
    requires n > 0
    ensures Pow2(8 * n) == 256 * Pow2(8 * (n - 1))
  {
    var m := 8 * (n - 1);
    assert m + 8 == 8 * n;
    Pow2Succ(m + 7);
    Pow2Succ(m + 6);
    Pow2Succ(m + 5);
    Pow2Succ(m + 4);
    Pow2Succ(m + 3);
    Pow2Succ(m + 2);
    Pow2Succ(m + 1);
    Pow2Succ(m);
  }

  lemma Pow2Succ(k: nat)
    ensures Pow2(k + 1) == 2 * Pow2(k)
  {
  }

  lemma Pow2Byte()
    ensures Pow2(8) == 256
  {
    assert Pow2(4) == 16;
  }

  /** The last byte written is the value's low byte; the others are the rest of the value. */
  lemma BigEndianLast(value: nat, n: nat)
    requires n > 0
    ensures var r := BigEndian(value, n);
      r[..n - 1] == BigEndian(value / 256, n - 1) && r[n - 1] as nat == value % 256
  {
    ByteOfInt(value % 256);
    assert BigEndian(value, n)[..n - 1] == BigEndian(value / 256, n - 1);
  }

  lemma DivBelow(value: nat, q: nat)
    requires value < 256 * q
    ensures value / 256 < q
  {
  }

  /**
   * The packed row has ceil(W / 8) bytes, the row's number always fits in
   * them (so `to_bytes` never raises OverflowError), and reading them back
   * big-endian gives that number.
   */
  lemma PackRowValue(row: seq<int>)
    ensures |PackRow(row)| == ByteCount(|row|)
    ensures BitsValue(RowBits(row)) < Pow2(8 * ByteCount(|row|))
    ensures BytesValue(PackRow(row)) == BitsValue(RowBits(row))
  {
    var bits := RowBits(row);
    BitsValueBound(bits);
    Pow2Monotone(|row|, 8 * ByteCount(|row|));
    BigEndianValue(BitsValue(bits), ByteCount(|row|));
  }

  /** Writing a digit string of whole bytes big-endian is cutting it into bytes. */
  lemma {:induction false} BigEndianChunks(bits: seq<nat>)
    requires |bits| % 8 == 0 && IsBits(bits)
    ensures BigEndian(BitsValue(bits), |bits| / 8) == Chunks(bits)
    decreases |bits|
  {
    if |bits| > 0 {
      var front, last := bits[..|bits| - 8], bits[|bits| - 8..];
      assert bits == front + last;
      BitsValueAppend(front, last);
      BitsValueBound(last);
      Pow2Byte();
      var v := BitsValue(bits);
      assert v == BitsValue(front) * 256 + BitsValue(last);
      assert v / 256 == BitsValue(front);
      assert v % 256 == BitsValue(last);
      BigEndianChunks(front);
      assert (|bits| - 8) / 8 == |bits| / 8 - 1;
    }
  }

  /**
   * The packed row is the row's digits, preceded by Padding(W) zero digits,
   * cut into bytes of eight digits most significant first: padding sits in
   * the high bits of the first byte, and pixels follow left to right.
   */
  lemma PackRowLayout(row: seq<int>)
    ensures PackRow(row) == Chunks(Zeros(Padding(|row|)) + RowBits(row))
  {
    var padded := Zeros(Padding(|row|)) + RowBits(row);
    assert |padded| == 8 * ByteCount(|row|);
    LeadingZerosValue(Padding(|row|), RowBits(row));
    BigEndianChunks(padded);
  }

  /** Byte `k` of a chunked digit string holds digits 8k .. 8k+7. */
  lemma {:induction false} ChunkAt(bits: seq<nat>, k: nat)
    requires |bits| % 8 == 0 && IsBits(bits)
    requires k < |bits| / 8
    ensures Chunks(bits)[k] == ByteOf(bits[8 * k..8 * k + 8])
    decreases |bits|
  {
    var front := bits[..|bits| - 8];
    if k < |bits| / 8 - 1 {
      ChunkAt(front, k);
      assert front[8 * k..8 * k + 8] == bits[8 * k..8 * k + 8];
    } else {
      assert 8 * k == |bits| - 8;
      assert bits[|bits| - 8..] == bits[8 * k..8 * k + 8];
    }
  }

  /** Digit i of a byte, i = 0 first, carries weight 2^(7 - i). */
  lemma ByteWeights(bits: seq<nat>)
    requires |bits| == 8 && IsBits(bits)
    ensures ByteOf(bits) as int ==
      128 * bits[0] + 64 * bits[1] + 32 * bits[2] + 16 * bits[3] +
      8 * bits[4] + 4 * bits[5] + 2 * bits[6] + bits[7]
  {
    assert bits[..1][..0] == [];
    assert bits[..2][..1] == bits[..1];
    assert bits[..3][..2] == bits[..2];
    assert bits[..4][..3] == bits[..3];
    assert bits[..5][..4] == bits[..4];
    assert bits[..6][..5] == bits[..5];
    assert bits[..7][..6] == bits[..6];
    assert bits[..8][..7] == bits[..7];
    assert bits[..8] == bits;
    assert BitsValue(bits[..1]) == bits[0];
    assert BitsValue(bits[..2]) == 2 * bits[0] + bits[1];
    assert BitsValue(bits[..3]) == 4 * bits[0] + 2 * bits[1] + bits[2];
    assert BitsValue(bits[..4]) == 8 * bits[0] + 4 * bits[1] + 2 * bits[2] + bits[3];
    assert BitsValue(bits[..5]) == 2 * BitsValue(bits[..4]) + bits[4];
    assert BitsValue(bits[..6]) == 2 * BitsValue(bits[..5]) + bits[5];
    assert BitsValue(bits[..7]) == 2 * BitsValue(bits[..6]) + bits[6];
  }

  /** When W is a multiple of 8 there is no padding: byte k holds pixels 8k .. 8k+7. */
  lemma PackRowAlignedChunk(row: seq<int>, k: nat)
    requires |row| % 8 == 0 && k < |row| / 8
    ensures PackRow(row)[k] == ByteOf(RowBits(row)[8 * k..8 * k + 8])
  {
    var bits := RowBits(row);
    assert Padding(|row|) == 0;
    assert Zeros(0) + bits == bits;
    PackRowLayout(row);
    ChunkAt(bits, k);
  }

  /**
   * When W is a multiple of 8, pixel x sets bit 7 - (x mod 8) of byte x div 8:
   * pixel 8k + i carries weight 2^(7 - i) in byte k.
   */
  lemma PackRowAligned(row: seq<int>, k: nat)
    requires |row| % 8 == 0 && k < |row| / 8
    ensures PackRow(row)[k] as int ==
      128 * Bit(row[8 * k]) + 64 * Bit(row[8 * k + 1]) + 32 * Bit(row[8 * k + 2]) +
      16 * Bit(row[8 * k + 3]) + 8 * Bit(row[8 * k + 4]) + 4 * Bit(row[8 * k + 5]) +
      2 * Bit(row[8 * k + 6]) + Bit(row[8 * k + 7])
  {
    var c := RowBits(row)[8 * k..8 * k + 8];
    PackRowAlignedChunk(row, k);
    ByteWeights(c);
    assert c[0] == Bit(row[8 * k]) && c[1] == Bit(row[8 * k + 1]);
    assert c[2] == Bit(row[8 * k + 2]) && c[3] == Bit(row[8 * k + 3]);
    assert c[4] == Bit(row[8 * k + 4]) && c[5] == Bit(row[8 * k + 5]);
    assert c[6] == Bit(row[8 * k + 6]) && c[7] == Bit(row[8 * k + 7]);
  }

  /** Two ink pixels pack right-aligned into 0x03: the padding takes the six high bits. */
  lemma TwoInkPixels()
    ensures PackRow([255, 255]) == [0x03]
  {
    var bits := RowBits([255, 255]);
    assert bits == [1, 1];
    assert bits[..1] == [1] && bits[..1][..0] == [];
    assert BitsValue(bits) == 3;
  }

  /** The alternating row 1,0,1,0,1,0,1,0 packs to 0xAA. */
  lemma AlternatingPixels()
    ensures PackRow([1, 0, 1, 0, 1, 0, 1, 0]) == [0xAA]
  {
    var row := [1, 0, 1, 0, 1, 0, 1, 0];
    PackRowAligned(row, 0);
    assert |PackRow(row)| == 1;
  }
}
