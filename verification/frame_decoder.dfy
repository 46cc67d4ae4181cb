/**
  The result-frame decoder of `PersonSensor.get_faces`: the part that runs
  after the bus read, turning the raw buffer into the list of faces and the
  checksum kept in `last_checksum`.

  `Decode` is the specification, stated in closed form over the buffer;
  `DecodeResult` is the decoding loop itself, proved equal to it. The
  lemmas state what the decoder promises: the count byte decides the number
  of faces, each face comes from its own 8 bytes, the header is never read,
  the checksum is passed through unverified, and a count above `FaceMax`
  runs off the end of the fixed-size buffer.
 */
module FrameDecoder {
  import opened Wire

  /**
    The exception `unpack_from` raises (MicroPython's `ValueError`, "buffer
    too small") when reading `size` bytes at `offset` would run past the end
    of the buffer.
   */
  datatype DecodeError = Truncated(offset: nat, size: nat)

  /** One decode: the face list returned to the caller and the raw checksum. */
  datatype Frame = Frame(faces: seq<Face>, checksum: nat)

  /**
    Decodes a result buffer. The count byte sits after the 4-byte header;
    `count` records follow it; the checksum is read right after the last
    record decoded, at `RecordOffset(count)`. Each unpack fails when its
    bytes do not all lie in the buffer, and the first failing unpack is the
    error reported.
   */
  function Decode(buf: seq<byte>, order: ByteOrder): (r: Result<Frame, DecodeError>)
    ensures r.Success? <==> CountOffset < |buf| && RecordOffset(buf[CountOffset]) + 2 <= |buf|
    ensures r.Success? ==> |r.value.faces| == buf[CountOffset]
    ensures r.Success? ==> r.value.checksum < 0x1_0000
    ensures r.Failure? ==> |buf| < r.error.offset + r.error.size
  {
    if |buf| < CountOffset + 1 then
      Failure(Truncated(CountOffset, 1))
    else
      var count := buf[CountOffset] as nat;
      if |buf| < RecordOffset(count) then
        // the first record that does not fit is the one that fails
        Failure(Truncated(RecordOffset((|buf| - RecordOffset(0)) / FaceByteCount), FaceByteCount))
      else if |buf| < RecordOffset(count) + 2 then
        Failure(Truncated(RecordOffset(count), 2))
      else
        var faces := seq(count, i requires 0 <= i < count => FaceAt(buf, RecordOffset(i)));
        var sum := RecordOffset(count);
        Success(Frame(faces, U16(buf[sum], buf[sum + 1], order)))
  }

  /**
    The decoding loop: skip the header, read the count byte, unpack `count`
    records while advancing `offset`, then read the checksum at `offset`.
   */
  method DecodeResult(buffer: seq<byte>, order: ByteOrder) returns (r: Result<Frame, DecodeError>)
    ensures r == Decode(buffer, order)
  {
    var offset := 0;
    offset := offset + HeaderByteCount;
    if |buffer| < offset + 1 {
      return Failure(Truncated(offset, 1));
    }
    var numFaces := buffer[offset] as nat;
    offset := offset + 1;

    var faces: seq<Face> := [];
    for k := 0 to numFaces
      invariant offset == RecordOffset(k) <= |buffer|
      invariant |faces| == k
      invariant forall i :: 0 <= i < k ==> faces[i] == FaceAt(buffer, RecordOffset(i))
    {
      if |buffer| < offset + FaceByteCount {
        assert (|buffer| - RecordOffset(0)) / FaceByteCount == k;
        return Failure(Truncated(offset, FaceByteCount));
      }
      faces := faces + [FaceAt(buffer, offset)];
      offset := offset + FaceByteCount;
    }

    if |buffer| < offset + 2 {
      return Failure(Truncated(offset, 2));
    }
    var checksum := U16(buffer[offset], buffer[offset + 1], order);
    assert faces == seq(numFaces, i requires 0 <= i < numFaces => FaceAt(buffer, RecordOffset(i)));
    return Success(Frame(faces, checksum));
  }

  // ---------------------------------------------------------------------
  // Properties of the decoder
  // ---------------------------------------------------------------------

  /** Face `i` is built positionally from bytes `5+8i .. 5+8i+7`; only `id` is signed. */
  lemma DecodedFields(buf: seq<byte>, order: ByteOrder, i: nat)
    requires Decode(buf, order).Success?
    requires i < |Decode(buf, order).value.faces|
    ensures RecordOffset(i) + FaceByteCount <= |buf|
    ensures var f := Decode(buf, order).value.faces[i]; var o := RecordOffset(i);
      && f.boxConfidence == buf[o] && f.boxLeft == buf[o + 1]
      && f.boxTop == buf[o + 2] && f.boxRight == buf[o + 3]
      && f.boxBottom == buf[o + 4] && f.idConfidence == buf[o + 5]
      && f.id == Int8(buf[o + 6]) && f.isFacing == buf[o + 7]
  {
  }

  /** A zero count decodes to no faces, with the checksum read right after the count byte. */
  lemma ZeroFaces(buf: seq<byte>, order: ByteOrder)
    requires CountOffset + 3 <= |buf| && buf[CountOffset] == 0
    ensures Decode(buf, order) == Success(Frame([], U16(buf[CountOffset + 1], buf[CountOffset + 2], order)))
  {
  }

  /**
    On the fixed-size buffer that `get_faces` reads, decoding succeeds
    exactly when the count byte is at most `FaceMax`; a larger count fails
    on the fifth record, which would start at offset 37 and end past 40.
   */
  lemma FixedBufferCount(buf: seq<byte>, order: ByteOrder)
    requires |buf| == ResultByteCount
    ensures Decode(buf, order).Success? <==> buf[CountOffset] <= FaceMax
    ensures Decode(buf, order).Failure? ==>
      Decode(buf, order).error == Truncated(RecordOffset(FaceMax), FaceByteCount)
  {
  }

  /**
    On the fixed-size buffer, the 4 header bytes and the last byte (the
    second half of the padded checksum slot) never affect the result: only
    bytes 4 to 38 are read.
   */
  lemma {:induction false} OnlyBytesFourToThirtyEightRead(a: seq<byte>, b: seq<byte>, order: ByteOrder)
    requires |a| == |b| == ResultByteCount
    requires a[CountOffset..ResultByteCount - 1] == b[CountOffset..ResultByteCount - 1]
    ensures Decode(a, order) == Decode(b, order)
  {
    forall j | CountOffset <= j < ResultByteCount - 1
      ensures a[j] == b[j]
    {
      assert a[CountOffset..ResultByteCount - 1][j - CountOffset] == a[j];
      assert b[CountOffset..ResultByteCount - 1][j - CountOffset] == b[j];
    }
    if a[CountOffset] <= FaceMax {
      var count := a[CountOffset] as nat;
      forall i | 0 <= i < count
        ensures FaceAt(a, RecordOffset(i)) == FaceAt(b, RecordOffset(i))
      {
        var o := RecordOffset(i);
        assert a[o..o + FaceByteCount] == b[o..o + FaceByteCount];
        FaceAtDependsOnRecord(a, b, o);
      }
      assert seq(count, i requires 0 <= i < count => FaceAt(a, RecordOffset(i)))
          == seq(count, i requires 0 <= i < count => FaceAt(b, RecordOffset(i)));
      var sum := RecordOffset(count);
      assert a[sum] == b[sum] && a[sum + 1] == b[sum + 1];
    }
  }

  /**
    The checksum is never compared with anything: whatever two bytes sit at
    the checksum offset, the decode succeeds with the same faces and hands
    those bytes' value through.
   */
  lemma {:induction false} ChecksumNotVerified(buf: seq<byte>, order: ByteOrder, v: nat)
    requires Decode(buf, order).Success?
    requires v < 0x1_0000
    ensures var sum := RecordOffset(buf[CountOffset]);
      var forged := buf[..sum] + U16Bytes(v, order) + buf[sum + 2..];
      Decode(forged, order) == Success(Frame(Decode(buf, order).value.faces, v))
  {
    var count := buf[CountOffset] as nat;
    var sum := RecordOffset(count);
    var forged := buf[..sum] + U16Bytes(v, order) + buf[sum + 2..];
    assert |forged| == |buf|;
    assert forged[CountOffset] == buf[CountOffset];
    forall i | 0 <= i < count
      ensures FaceAt(forged, RecordOffset(i)) == FaceAt(buf, RecordOffset(i))
    {
      var o := RecordOffset(i);
      assert forged[o..o + FaceByteCount] == buf[o..o + FaceByteCount];
      FaceAtDependsOnRecord(forged, buf, o);
    }
    assert seq(count, i requires 0 <= i < count => FaceAt(forged, RecordOffset(i)))
        == seq(count, i requires 0 <= i < count => FaceAt(buf, RecordOffset(i)));
    assert forged[sum] == U16Bytes(v, order)[0] && forged[sum + 1] == U16Bytes(v, order)[1];
  }

  /**
    On the fixed-size buffer, fewer than `FaceMax` faces put the checksum
    read inside the first unused record slot, not in the checksum slot at
    the end of the frame.
   */
  lemma ChecksumFromUnusedSlot(buf: seq<byte>, order: ByteOrder)
    requires |buf| == ResultByteCount && buf[CountOffset] < FaceMax
    ensures var count := buf[CountOffset] as nat; var slot := RecordOffset(count);
      && slot + FaceByteCount <= PackedRecordsEnd
      && Decode(buf, order).Success?
      && Decode(buf, order).value.checksum == U16(buf[slot], buf[slot + 1], order)
  {
  }

  // ---------------------------------------------------------------------
  // Encoding: the inverse of Decode
  // ---------------------------------------------------------------------

  /** The records of `faces`, back to back. */
  function FacesBytes(faces: seq<Face>): (bs: seq<byte>)
    ensures |bs| == FaceByteCount * |faces|
  {
    if faces == [] then [] else FaceBytes(faces[0]) + FacesBytes(faces[1..])
  }

  lemma {:induction false} FacesBytesAt(faces: seq<Face>, i: nat)
    requires i < |faces|
    ensures FacesBytes(faces)[FaceByteCount * i..FaceByteCount * (i + 1)] == FaceBytes(faces[i])
  {
    var bs := FacesBytes(faces);
    if i == 0 {
      assert bs[..FaceByteCount] == FaceBytes(faces[0]);
    } else {
      FacesBytesAt(faces[1..], i - 1);
      var rest := FacesBytes(faces[1..]);
      assert bs == FaceBytes(faces[0]) + rest;
      assert bs[FaceByteCount * i..FaceByteCount * (i + 1)]
          == rest[FaceByteCount * (i - 1)..FaceByteCount * i];
    }
  }

  /** A result buffer: header, count byte, the face records, then `tail`. */
  function Encode(header: seq<byte>, faces: seq<Face>, tail: seq<byte>): (buf: seq<byte>)
    requires |header| == HeaderByteCount && |faces| < 256
    ensures |buf| == RecordOffset(|faces|) + |tail|
  {
    header + [|faces|] + FacesBytes(faces) + tail
  }

  /**
    Decoding an encoded buffer gives back the faces, in order, and the
    value of the first two bytes after them as the checksum, whatever the
    header holds.
   */
  lemma {:induction false} RoundTrip(header: seq<byte>, faces: seq<Face>, tail: seq<byte>, order: ByteOrder)
    requires |header| == HeaderByteCount && |faces| < 256 && 2 <= |tail|
    ensures Decode(Encode(header, faces, tail), order) == Success(Frame(faces, U16(tail[0], tail[1], order)))
  {
    var buf := Encode(header, faces, tail);
    var body := FacesBytes(faces);
    assert buf[CountOffset] == |faces|;
    forall i | 0 <= i < |faces|
      ensures FaceAt(buf, RecordOffset(i)) == faces[i]
    {
      var o := RecordOffset(i);
      FacesBytesAt(faces, i);
      assert buf[o..o + FaceByteCount] == body[FaceByteCount * i..FaceByteCount * (i + 1)];
      FaceAtBytes(buf, o, faces[i]);
    }
    var sum := RecordOffset(|faces|);
    assert buf[sum] == tail[0] && buf[sum + 1] == tail[1];
    var decoded := Decode(buf, order).value.faces;
    assert decoded == faces;
  }

  /**
    For up to `FaceMax` faces, a tail that pads the frame to
    `ResultByteCount` gives a buffer of the size `get_faces` reads, and it
    decodes back to the same faces.
   */
  lemma {:induction false} RoundTripFixed(header: seq<byte>, faces: seq<Face>, tail: seq<byte>, order: ByteOrder)
    requires |header| == HeaderByteCount && |faces| <= FaceMax
    requires |tail| == ResultByteCount - RecordOffset(|faces|)
    ensures |Encode(header, faces, tail)| == ResultByteCount
    ensures Decode(Encode(header, faces, tail), order).Success?
    ensures Decode(Encode(header, faces, tail), order).value.faces == faces
  {
    RoundTrip(header, faces, tail, order);
  }
}
