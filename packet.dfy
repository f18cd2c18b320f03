/**
 * The printer's wire frame (niimprint/packet.py):
 *
 *   55 55 | kind | length | data ... | checksum | AA AA
 *
 * where the checksum is the XOR of kind, length and every data byte.
 */
module Packets {
  import opened Bytes
  import opened Results

  const HeadMarker: byte := 0x55
  const TailMarker: byte := 0xAA

  /** `NiimbotPacket`: a command tag and its payload. `kind` is a Python int. */
  datatype Packet = Packet(kind: int, data: seq<byte>)

  /** `bytes(...)` in `to_bytes` raises ValueError on a value outside 0..255. */
  datatype SerializeError = ByteOutOfRange

  /** Which `assert` of `from_bytes` fails; BadLength is only raised by ParsedStrict. */
  datatype ParseError = BadHead | BadTail | BadLength | BadChecksum

  function Min(a: int, b: int): int { if a <= b then a else b }

  /** The left fold of XOR over `s`, starting from `acc`: ((acc ^ s[0]) ^ s[1]) ^ ... */
  function XorFold(acc: byte, s: seq<byte>): byte
    decreases |s|
  {
    if |s| == 0 then acc else XorFold(acc, s[..|s| - 1]) ^ s[|s| - 1]
  }

  /** The frame checksum: kind XOR length XOR each data byte in turn. */
  function Checksum(kind: byte, length: byte, data: seq<byte>): (r: byte)
    ensures r == kind ^ length ^ XorFold(0, data)
  {
    XorFoldShift(kind ^ length, data);
    XorFold(kind ^ length, data)
  }

  /** What `bytes(...)` accepts: the kind and the length each fit in one byte. */
  predicate Serializable(p: Packet)
  {
    0 <= p.kind < 256 && |p.data| < 256
  }

  /** `NiimbotPacket.to_bytes`. */
  function Serialized(p: Packet): (r: Result<seq<byte>, SerializeError>)
    ensures r.Ok? <==> Serializable(p)
    ensures r.Ok? ==> |r.value| == |p.data| + 7
  {
    if !Serializable(p) then Err(ByteOutOfRange)
    else Ok(Frame(p.kind as byte, |p.data| as byte, p.data))
  }

  /** The bytes `to_bytes` hands to `bytes(...)`, once kind and length are known to fit. */
  function Frame(kind: byte, length: byte, data: seq<byte>): seq<byte>
  {
    [HeadMarker, HeadMarker, kind, length] + data + [Checksum(kind, length, data), TailMarker, TailMarker]
  }

  /**
   * `b` is the frame of `p`: both markers, the kind, the length, the data,
   * the checksum and both trailer bytes, each at its place.
   */
  predicate FrameOf(b: seq<byte>, p: Packet)
  {
    var n := |p.data|;
    Serializable(p) && |b| == n + 7 &&
    b[0] == HeadMarker && b[1] == HeadMarker &&
    b[2] == p.kind as byte && b[3] == n as byte &&
    b[4..4 + n] == p.data &&
    b[4 + n] == Checksum(b[2], b[3], p.data) &&
    b[5 + n] == TailMarker && b[6 + n] == TailMarker
  }

  /** `pkt[:2] == b"\x55\x55"` */
  predicate HasHead(b: seq<byte>)
  {
    |b| >= 2 && b[0] == HeadMarker && b[1] == HeadMarker
  }

  /** `pkt[-2:] == b"\xaa\xaa"` */
  predicate HasTail(b: seq<byte>)
  {
    |b| >= 2 && b[|b| - 2] == TailMarker && b[|b| - 1] == TailMarker
  }

  /**
   * `NiimbotPacket.from_bytes`, as written: the data is `pkt[4 : 4 + length]`
   * (a Python slice, cut short at the end of the buffer), while the checksum
   * and the trailer are read from the END of the buffer.
   */
  function Parsed(b: seq<byte>): (r: Result<Packet, ParseError>)
    ensures r == Err(BadHead) <==> !HasHead(b)
    ensures r == Err(BadTail) <==> HasHead(b) && !HasTail(b)
    ensures r != Err(BadLength)
    ensures r == Err(BadChecksum) <==> (HasHead(b) && HasTail(b) &&
      Checksum(b[2], b[3], b[4..Min(4 + b[3] as int, |b|)]) != b[|b| - 3])
    ensures r.Ok? ==>
      |b| >= 5 && Serializable(r.value) &&
      r.value.kind == b[2] as int &&
      |r.value.data| <= b[3] as int && 4 + |r.value.data| <= |b| &&
      r.value.data == b[4..Min(4 + b[3] as int, |b|)] &&
      Checksum(b[2], b[3], r.value.data) == b[|b| - 3]
  {
    if !HasHead(b) then Err(BadHead)
    else if !HasTail(b) then Err(BadTail)
    else
      var kind, length := b[2], b[3];
      var data := b[4..Min(4 + length as int, |b|)];
      if Checksum(kind, length, data) != b[|b| - 3] then Err(BadChecksum)
      else Ok(Packet(kind as int, data))
  }

  /** The checksum loop that both `to_bytes` and `from_bytes` run. */
  method ChecksumOf(kind: byte, length: byte, data: seq<byte>) returns (checksum: byte)
    ensures checksum == Checksum(kind, length, data)
  {
    checksum := kind ^ length;
    for i := 0 to |data|
      invariant checksum == XorFold(kind ^ length, data[..i])
    {
      assert data[..i + 1][..i] == data[..i];
      checksum := checksum ^ data[i];
    }
    assert data[..|data|] == data;
  }

  /** `NiimbotPacket.to_bytes`, step by step. */
  method ToBytes(p: Packet) returns (r: Result<seq<byte>, SerializeError>)
    ensures r == Serialized(p)
  {
    if !(0 <= p.kind < 256 && |p.data| < 256) {
      return Err(ByteOutOfRange);
    }
    var kind, length := p.kind as byte, |p.data| as byte;
    var checksum := ChecksumOf(kind, length, p.data);
    r := Ok([HeadMarker, HeadMarker, kind, length] + p.data + [checksum, TailMarker, TailMarker]);
    assert r == Ok(Frame(kind, length, p.data));
  }

  /** `NiimbotPacket.from_bytes`, step by step. */
  method FromBytes(b: seq<byte>) returns (r: Result<Packet, ParseError>)
    ensures r == Parsed(b)
  {
    if !(|b| >= 2 && b[0] == HeadMarker && b[1] == HeadMarker) {
      return Err(BadHead);
    }
    if !(b[|b| - 2] == TailMarker && b[|b| - 1] == TailMarker) {
      return Err(BadTail);
    }
    var kind, length := b[2], b[3];
    var data := b[4..Min(4 + length as int, |b|)];
    var checksum := ChecksumOf(kind, length, data);
    if checksum != b[|b| - 3] {
      return Err(BadChecksum);
    }
    r := Ok(Packet(kind as int, data));
  }

  // ---------------------------------------------------------------------
  // Facts about the XOR fold

  lemma {:induction false} XorFoldAppend(acc: byte, s: seq<byte>, t: seq<byte>)
    ensures XorFold(acc, s + t) == XorFold(XorFold(acc, s), t)
    decreases |t|
  {
    if |t| == 0 {
      assert s + t == s;
    } else {
      var t' := t[..|t| - 1];
      assert (s + t)[..|s + t| - 1] == s + t';
      XorFoldAppend(acc, s, t');
    }
  }

  /** The starting value can be pulled out of the fold. */
  lemma {:induction false} XorFoldShift(acc: byte, s: seq<byte>)
    ensures XorFold(acc, s) == acc ^ XorFold(0, s)
    decreases |s|
  {
    if |s| > 0 {
      XorFoldShift(acc, s[..|s| - 1]);
    }
  }

  /** Replacing one byte of `s` changes the fold by exactly the old byte XOR the new one. */
  lemma {:induction false} XorFoldUpdate(acc: byte, s: seq<byte>, i: nat, v: byte)
    requires i < |s|
    ensures XorFold(acc, s[i := v]) == XorFold(acc, s) ^ s[i] ^ v
    decreases |s|
  {
    var last := |s| - 1;
    if i == last {
      assert s[i := v][..last] == s[..last];
    } else {
      assert s[i := v][..last] == s[..last][i := v];
      XorFoldUpdate(acc, s[..last], i, v);
    }
  }

  // ---------------------------------------------------------------------
  // Properties of the codec

  /** The frame to_bytes builds has each field at its place. */
  lemma SerializedLayout(p: Packet)
    requires Serializable(p)
    ensures FrameOf(Serialized(p).value, p)
  {
    FrameFields(p);
  }

  lemma FrameFields(p: Packet)
    requires Serializable(p)
    ensures FrameOf(Frame(p.kind as byte, |p.data| as byte, p.data), p)
  {
    FrameLayout(p.kind as byte, |p.data| as byte, p.data);
  }

  /** Where each field of a frame lands. */
  lemma FrameLayout(kind: byte, length: byte, data: seq<byte>)
    ensures var b, n := Frame(kind, length, data), |data|;
      |b| == n + 7 &&
      b[0] == HeadMarker && b[1] == HeadMarker && b[2] == kind && b[3] == length &&
      b[4..4 + n] == data &&
      b[4 + n] == Checksum(kind, length, data) && b[5 + n] == TailMarker && b[6 + n] == TailMarker
  {
    var b, n := Frame(kind, length, data), |data|;
    assert b[4..4 + n] == data;
  }

  lemma FramesAgree(b: seq<byte>, c: seq<byte>, p: Packet)
    requires FrameOf(b, p) && FrameOf(c, p)
    ensures b == c
  {
    var n := |p.data|;
    assert b[..4] == c[..4];
    assert b[4..4 + n] == c[4..4 + n];
    assert b[4 + n..] == c[4 + n..];
    assert b == b[..4] + b[4..4 + n] + b[4 + n..];
    assert c == c[..4] + c[4..4 + n] + c[4 + n..];
  }

  /** The frame layout determines the serialised bytes exactly, and back. */
  lemma FrameOfIsSerialized(b: seq<byte>, p: Packet)
    ensures FrameOf(b, p) <==> Serialized(p) == Ok(b)
  {
    if FrameOf(b, p) {
      SerializedLayout(p);
      FramesAgree(b, Serialized(p).value, p);
    }
    if Serialized(p) == Ok(b) {
      SerializedLayout(p);
    }
  }

  /**
   * The checksum byte makes the XOR of every content byte of a frame
   * (kind, length, data, checksum) zero.
   */
  lemma FrameContentXorsToZero(p: Packet)
    requires Serializable(p)
    ensures var b := Serialized(p).value; XorFold(0, b[2..|b| - 2]) == 0
  {
    var b := Serialized(p).value;
    SerializedLayout(p);
    FrameXorsToZero(b, p);
  }

  lemma FrameXorsToZero(b: seq<byte>, p: Packet)
    requires FrameOf(b, p)
    ensures XorFold(0, b[2..|b| - 2]) == 0
  {
    var n := |p.data|;
    assert b[2..|b| - 2] == [b[2], b[3]] + p.data + [b[4 + n]];
    ContentXorsToZero(b[2], b[3], p.data);
  }

  lemma ContentXorsToZero(kind: byte, length: byte, data: seq<byte>)
    ensures XorFold(0, [kind, length] + data + [Checksum(kind, length, data)]) == 0
  {
    var pair: seq<byte> := [kind, length];
    var checksum := Checksum(kind, length, data);
    XorFoldPair(kind, length);
    XorFoldAppend(0, pair, data);
    XorFoldAppend(0, pair + data, [checksum]);
    XorFoldSingle(checksum, checksum);
    XorSelfCancels(checksum);
  }

  lemma XorFoldSingle(acc: byte, x: byte)
    ensures XorFold(acc, [x]) == acc ^ x
  {
    assert [x][..0] == [];
  }

  lemma XorFoldPair(x: byte, y: byte)
    ensures XorFold(0, [x, y]) == x ^ y
  {
    var pair: seq<byte> := [x, y];
    assert pair[..1] == [x];
    XorFoldSingle(0, x);
  }

  lemma XorSelfCancels(x: byte)
    ensures x ^ x == 0
  {
  }

  /** from_bytes(to_bytes(p)) == p for every packet that to_bytes accepts. */
  lemma RoundTrip(p: Packet)
    requires Serializable(p)
    ensures Parsed(Serialized(p).value) == Ok(p)
  {
    SerializedLayout(p);
    FrameParses(Serialized(p).value, p);
  }

  lemma FrameParses(b: seq<byte>, p: Packet)
    requires FrameOf(b, p)
    ensures Parsed(b) == Ok(p)
  {
    var n := |p.data|;
    ByteOfInt(p.kind);
    ByteOfInt(n);
    assert HasHead(b) && HasTail(b);
    assert Min(4 + b[3] as int, |b|) == 4 + n;
    assert b[|b| - 3] == b[4 + n];
  }

  lemma XorDiffers(a: byte, b: byte, c: byte, x: byte)
    requires a != b
    ensures a ^ c ^ x != b ^ c ^ x
  {
  }

  lemma XorChanged(a: byte, b: byte, x: byte)
    requires a != b
    ensures x ^ a ^ b != x
  {
  }

  /** A different kind byte gives a different checksum. */
  lemma ChecksumSensitiveToKind(kind: byte, v: byte, length: byte, data: seq<byte>)
    requires kind != v
    ensures Checksum(v, length, data) != Checksum(kind, length, data)
  {
    XorFoldShift(v ^ length, data);
    XorFoldShift(kind ^ length, data);
    XorDiffers(v, kind, length, XorFold(0, data));
  }

  /** Changing one data byte to a different value gives a different checksum. */
  lemma ChecksumSensitiveToData(kind: byte, length: byte, data: seq<byte>, j: nat, v: byte)
    requires j < |data| && data[j] != v
    ensures Checksum(kind, length, data[j := v]) != Checksum(kind, length, data)
  {
    XorFoldUpdate(kind ^ length, data, j, v);
    XorChanged(data[j], v, Checksum(kind, length, data));
  }

  /**
   * Replacing the kind byte, any data byte or the checksum byte of a
   * serialised frame with a different value makes from_bytes fail its
   * checksum assertion.
   */
  lemma CorruptedContentRejected(p: Packet, i: nat, v: byte)
    requires Serializable(p)
    requires i == 2 || 4 <= i <= 4 + |p.data|
    requires v != Serialized(p).value[i]
    ensures Parsed(Serialized(p).value[i := v]) == Err(BadChecksum)
  {
    SerializedLayout(p);
    CorruptedFrameRejected(Serialized(p).value, p, i, v);
  }

  lemma CorruptedFrameRejected(b: seq<byte>, p: Packet, i: nat, v: byte)
    requires FrameOf(b, p)
    requires i == 2 || 4 <= i <= 4 + |p.data|
    requires v != b[i]
    ensures Parsed(b[i := v]) == Err(BadChecksum)
  {
    if i == 2 {
      CorruptedKindByte(b, p, v);
    } else if i < 4 + |p.data| {
      CorruptedDataByte(b, p, i, v);
    } else {
      CorruptedChecksumByte(b, p, v);
    }
  }

  /** Past the head marker and before the trailer, a changed byte leaves the markers and the length alone. */
  lemma CorruptedFrameShape(b: seq<byte>, p: Packet, i: nat, v: byte)
    requires FrameOf(b, p)
    requires i == 2 || 4 <= i <= 4 + |p.data|
    ensures var c := b[i := v]; HasHead(c) && HasTail(c) && Min(4 + c[3] as int, |c|) == 4 + |p.data|
  {
    ByteOfInt(|p.data|);
  }

  /** from_bytes fails its checksum assertion when the fold over the n data bytes differs. */
  lemma MismatchRejected(c: seq<byte>, n: nat)
    requires HasHead(c) && HasTail(c) && Min(4 + c[3] as int, |c|) == 4 + n
    requires Checksum(c[2], c[3], c[4..4 + n]) != c[|c| - 3]
    ensures Parsed(c) == Err(BadChecksum)
  {
  }

  lemma CorruptedKindByte(b: seq<byte>, p: Packet, v: byte)
    requires FrameOf(b, p) && v != b[2]
    ensures Parsed(b[2 := v]) == Err(BadChecksum)
  {
    var c, n := b[2 := v], |p.data|;
    CorruptedFrameShape(b, p, 2, v);
    assert c[4..4 + n] == p.data;
    ChecksumSensitiveToKind(b[2], v, b[3], p.data);
    MismatchRejected(c, n);
  }

  lemma CorruptedDataByte(b: seq<byte>, p: Packet, i: nat, v: byte)
    requires FrameOf(b, p) && 4 <= i < 4 + |p.data| && v != b[i]
    ensures Parsed(b[i := v]) == Err(BadChecksum)
  {
    var c, n := b[i := v], |p.data|;
    CorruptedFrameShape(b, p, i, v);
    assert b[i] == p.data[i - 4];
    assert c[4..4 + n] == p.data[i - 4 := v];
    ChecksumSensitiveToData(b[2], b[3], p.data, i - 4, v);
    MismatchRejected(c, n);
  }

  lemma CorruptedChecksumByte(b: seq<byte>, p: Packet, v: byte)
    requires FrameOf(b, p) && v != b[4 + |p.data|]
    ensures Parsed(b[4 + |p.data| := v]) == Err(BadChecksum)
  {
    var c, n := b[4 + |p.data| := v], |p.data|;
    CorruptedFrameShape(b, p, 4 + n, v);
    assert c[4..4 + n] == p.data;
    MismatchRejected(c, n);
  }

  /**
   * Replacing either byte of the head marker or of the tail marker of a
   * serialised frame with another value makes from_bytes fail on that marker.
   */
  lemma CorruptedMarkerRejected(p: Packet, i: nat, v: byte)
    requires Serializable(p)
    requires i < |p.data| + 7 && (i < 2 || i >= |p.data| + 5)
    requires v != Serialized(p).value[i]
    ensures Parsed(Serialized(p).value[i := v]) == if i < 2 then Err(BadHead) else Err(BadTail)
  {
    SerializedLayout(p);
    var c := Serialized(p).value[i := v];
    if i < 2 {
      assert !HasHead(c);
    } else {
      assert HasHead(c) && !HasTail(c);
    }
  }

  // ---------------------------------------------------------------------
  // The length check from_bytes does not make

  /**
   * from_bytes as written accepts the five-byte buffer 55 55 00 AA AA: the
   * length byte 0xAA is read from the tail marker, the slice `pkt[4:174]`
   * holds one byte, and the kind byte doubles as the checksum. The packet it
   * returns serialises to a different, eight-byte frame.
   */
  lemma ShortBufferAccepted()
    ensures Parsed([0x55, 0x55, 0x00, 0xAA, 0xAA]) == Ok(Packet(0, [0xAA]))
    ensures Serialized(Packet(0, [0xAA])) != Ok([0x55, 0x55, 0x00, 0xAA, 0xAA])
  {
    var b: seq<byte> := [0x55, 0x55, 0x00, 0xAA, 0xAA];
    assert b[4..Min(4 + b[3] as int, |b|)] == [0xAA];
    assert [0xAA as byte][..0] == [];
    assert XorFold(0x00 ^ 0xAA, [0xAA]) == 0;
  }

  /**
   * from_bytes with the check that the buffer holds exactly one frame of
   * the length its length byte announces.
   */
  function ParsedStrict(b: seq<byte>): (r: Result<Packet, ParseError>)
    ensures r == Err(BadHead) <==> !HasHead(b)
    ensures r == Err(BadTail) <==> HasHead(b) && !HasTail(b)
    ensures r == Err(BadLength) <==> HasHead(b) && HasTail(b) && |b| != b[3] as int + 7
    ensures r.Ok? ==>
      Serializable(r.value) && |b| == |r.value.data| + 7 &&
      r.value.kind == b[2] as int && r.value.data == b[4..|b| - 3] &&
      Checksum(b[2], b[3], r.value.data) == b[|b| - 3]
  {
    if !HasHead(b) then Err(BadHead)
    else if !HasTail(b) then Err(BadTail)
    else if |b| != b[3] as int + 7 then Err(BadLength)
    else
      var data := b[4..|b| - 3];
      if Checksum(b[2], b[3], data) != b[|b| - 3] then Err(BadChecksum)
      else Ok(Packet(b[2] as int, data))
  }

  /** The strict parser accepts exactly the serialised frames, and inverts to_bytes. */
  lemma StrictParseInvertsSerialize(b: seq<byte>, p: Packet)
    ensures ParsedStrict(b) == Ok(p) <==> Serialized(p) == Ok(b)
  {
    FrameOfIsSerialized(b, p);
    if ParsedStrict(b) == Ok(p) {
      StrictParseIsFrame(b, p);
    }
    if FrameOf(b, p) {
      FrameParsesStrictly(b, p);
    }
  }

  lemma StrictParseIsFrame(b: seq<byte>, p: Packet)
    requires ParsedStrict(b) == Ok(p)
    ensures FrameOf(b, p)
  {
    assert b[4..4 + |p.data|] == p.data;
    ByteOfInt(|p.data|);
  }

  lemma FrameParsesStrictly(b: seq<byte>, p: Packet)
    requires FrameOf(b, p)
    ensures ParsedStrict(b) == Ok(p)
  {
    ByteOfInt(p.kind);
    ByteOfInt(|p.data|);
    assert b[4..|b| - 3] == p.data;
    assert b[|b| - 3] == b[4 + |p.data|];
  }

  /** Wherever the strict parser succeeds, from_bytes as written gives the same packet. */
  lemma StrictAgreesWithParsed(b: seq<byte>)
    requires ParsedStrict(b).Ok?
    ensures Parsed(b) == ParsedStrict(b)
  {
    assert Min(4 + b[3] as int, |b|) == |b| - 3;
  }
}
