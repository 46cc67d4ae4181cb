/**
  Wire vocabulary of the Person Sensor driver: byte types, the layout
  constants of the result frame read over I2C, and the decoders for the
  individual fields of that frame (single bytes, the signed id byte, the
  16-bit checksum and one 8-byte face record).
 */
module Wire {

  /** An unsigned 8-bit value, as `struct` format "B" yields it. */
  type byte = b: int | 0 <= b < 256

  /** A signed 8-bit value, as `struct` format "b" yields it. */
  type int8 = i: int | -128 <= i < 128

  datatype Option<+T> = None | Some(value: T)

  datatype Result<+T, +E> = Success(value: T) | Failure(error: E)

  /** Byte order of the host's native `struct` mode, which decides how "H" is read. */
  datatype ByteOrder = LittleEndian | BigEndian

  // ---------------------------------------------------------------------
  // Layout constants
  // ---------------------------------------------------------------------

  /** Default I2C address of the sensor. */
  const I2cAddress: byte := 0x62

  /** Size of the header "BBH": two pad bytes and a 16-bit payload length. */
  const HeaderByteCount: nat := 4

  /** Size of one face record "BBBBBBbB". */
  const FaceByteCount: nat := 8

  /** The device reports at most this many faces. */
  const FaceMax: nat := 4

  /** Offset of the face-count byte, right after the header. */
  const CountOffset: nat := HeaderByteCount

  /** Bytes of header, count byte and all face slots, packed: 37. */
  const PackedRecordsEnd: nat := HeaderByteCount + 1 + FaceByteCount * FaceMax

  /**
    Size of the whole result frame as native `calcsize` computes it: the
    trailing "H" is aligned to an even offset, so one pad byte precedes it
    and the buffer is 40 bytes, not 39.
   */
  const ResultByteCount: nat := PackedRecordsEnd + PackedRecordsEnd % 2 + 2

  /** Offset of face record `i` (counted from 0). */
  function RecordOffset(i: nat): nat
  {
    HeaderByteCount + 1 + FaceByteCount * i
  }

  // ---------------------------------------------------------------------
  // Field decoders
  // ---------------------------------------------------------------------

  /** Reads an unsigned byte as two's-complement signed ("b"). */
  function Int8(b: byte): (i: int8)
    ensures i % 256 == b
    ensures i < 0 <==> b >= 128
  {
    if b < 128 then b else b - 256
  }

  /** The byte whose signed reading is `i`; inverse of Int8. */
  function Uint8(i: int8): (b: byte)
    ensures Int8(b) == i
  {
    if i >= 0 then i else i + 256
  }

  lemma Int8RoundTrip(b: byte)
    ensures Uint8(Int8(b)) == b
  {
  }

  /** The 16-bit unsigned value ("H") held by two consecutive bytes. */
  function U16(b0: byte, b1: byte, order: ByteOrder): (v: nat)
    ensures v < 0x1_0000
    ensures order == LittleEndian ==> v % 256 == b0 && v / 256 == b1
    ensures order == BigEndian ==> v / 256 == b0 && v % 256 == b1
  {
    match order
    case LittleEndian => b0 + 256 * b1
    case BigEndian => 256 * b0 + b1
  }

  /** The two bytes that hold `v` in the given order; inverse of U16. */
  function U16Bytes(v: nat, order: ByteOrder): (bs: seq<byte>)
    requires v < 0x1_0000
    ensures |bs| == 2 && U16(bs[0], bs[1], order) == v
  {
    match order
    case LittleEndian => [v % 256, v / 256]
    case BigEndian => [v / 256, v % 256]
  }

  lemma U16RoundTrip(b0: byte, b1: byte, order: ByteOrder)
    ensures U16Bytes(U16(b0, b1, order), order) == [b0, b1]
  {
  }

  // ---------------------------------------------------------------------
  // Face records
  // ---------------------------------------------------------------------

  /** One detected face, the eight fields of a "BBBBBBbB" record in order. */
  datatype Face = Face(
    boxConfidence: byte,
    boxLeft: byte,
    boxTop: byte,
    boxRight: byte,
    boxBottom: byte,
    idConfidence: byte,
    id: int8,
    isFacing: byte)

  /** Unpacks the face record that starts at `offset`, field by field. */
  function FaceAt(buf: seq<byte>, offset: nat): (f: Face)
    requires offset + FaceByteCount <= |buf|
    ensures f.id < 0 <==> buf[offset + 6] >= 128
  {
    Face(buf[offset], buf[offset + 1], buf[offset + 2], buf[offset + 3],
         buf[offset + 4], buf[offset + 5], Int8(buf[offset + 6]), buf[offset + 7])
  }

  /** The 8 bytes of a face record; the inverse of FaceAt. */
  function FaceBytes(f: Face): (bs: seq<byte>)
    ensures |bs| == FaceByteCount
  {
    [f.boxConfidence, f.boxLeft, f.boxTop, f.boxRight,
     f.boxBottom, f.idConfidence, Uint8(f.id), f.isFacing]
  }

  /** Packing a face and unpacking it gives the face back. */
  lemma FaceRoundTrip(f: Face)
    ensures FaceAt(FaceBytes(f), 0) == f
  {
  }

  /** Unpacking a record and packing it gives the record's bytes back. */
  lemma FaceBytesRoundTrip(buf: seq<byte>, offset: nat)
    requires offset + FaceByteCount <= |buf|
    ensures FaceBytes(FaceAt(buf, offset)) == buf[offset..offset + FaceByteCount]
  {
  }

  /** A record whose bytes are those of `f` unpacks to `f`, wherever it sits. */
  lemma FaceAtBytes(buf: seq<byte>, offset: nat, f: Face)
    requires offset + FaceByteCount <= |buf|
    requires buf[offset..offset + FaceByteCount] == FaceBytes(f)
    ensures FaceAt(buf, offset) == f
  {
  }

  /** FaceAt reads only the eight bytes of its record. */
  lemma {:induction false} FaceAtDependsOnRecord(a: seq<byte>, b: seq<byte>, offset: nat)
    requires offset + FaceByteCount <= |a| && offset + FaceByteCount <= |b|
    requires a[offset..offset + FaceByteCount] == b[offset..offset + FaceByteCount]
    ensures FaceAt(a, offset) == FaceAt(b, offset)
  {
    forall j | offset <= j < offset + FaceByteCount
      ensures a[j] == b[j]
    {
      assert a[offset..offset + FaceByteCount][j - offset] == b[offset..offset + FaceByteCount][j - offset];
    }
  }
}
