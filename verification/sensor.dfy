/**
  The `PersonSensor` object and its `get_faces` operation. The object keeps
  the auto-delay switch, the I2C address, the last result buffer, the tick
  stored as `last_read` and the checksum of the last decode. The bus read,
  the clock and the sleep are outside the model: the tick and the 40 bytes
  the device returns are parameters, and the sleep is returned as a
  duration in milliseconds.
 */
module Sensor {
  import opened Wire
  import opened FrameDecoder
  import opened RateLimit

  class PersonSensor {
    /** Whether `GetFaces` waits out the minimum interval between inferences. */
    var autoDelay: bool
    /** The I2C address the driver talks to. */
    const address: byte
    /** The host's native byte order, which the 16-bit checksum read follows. */
    const order: ByteOrder
    /** The last result buffer read; empty before the first read. */
    var buffer: seq<byte>
    /** The tick the rate limit measures from. */
    var lastRead: int
    /** The checksum of the last successful decode; `None` before the first one. */
    var lastChecksum: Option<nat>

    /**
      Construction at tick `now`, which becomes the first `lastRead`.
      Auto-delay is on and the address is the sensor's default unless given.
     */
    constructor (now: int, order: ByteOrder, autoDelay: bool := true, address: byte := I2cAddress)
      ensures this.autoDelay == autoDelay && this.address == address && this.order == order
      ensures buffer == [] && lastRead == now && lastChecksum == None
    {
      this.autoDelay := autoDelay;
      this.address := address;
      this.order := order;
      buffer := [];
      lastRead := now;
      lastChecksum := None;
    }

    /**
      `get_faces` called at tick `now`, where `reading` is what the device
      returns into the fresh buffer. It returns the faces (or the unpack
      error) and how long it slept before the read. The sleep and the new
      `lastRead` are those of `Pace`; the faces and the checksum are those
      of `Decode` on the bytes read, so they depend on nothing else, and on
      this fixed-size buffer they are returned exactly when the count byte
      is at most `FaceMax`. `lastRead` moves before the decode, so it moves
      even when the decode fails; `lastChecksum` moves only on success.
     */
    method GetFaces(now: int, reading: seq<byte>) returns (faces: Result<seq<Face>, DecodeError>, sleepMs: nat)
      requires |reading| == ResultByteCount
      modifies this
      ensures autoDelay == old(autoDelay)
      ensures buffer == reading
      ensures Pacing(sleepMs, lastRead) == Pace(old(autoDelay), old(lastRead), now)
      ensures faces.Success? <==> reading[CountOffset] <= FaceMax
      ensures faces.Success? ==> |faces.value| == reading[CountOffset]
      ensures match Decode(reading, order)
        case Success(frame) => faces == Success(frame.faces) && lastChecksum == Some(frame.checksum)
        case Failure(e) => faces == Failure(e) && lastChecksum == old(lastChecksum)
    {
      sleepMs := 0;
      if autoDelay {
        var delta := now - lastRead;
        var delay := Delay - delta;
        if delta < Delay {
          sleepMs := delay;
        }
        lastRead := now + delay;
      }

      // the fresh buffer, filled by the bus read
      buffer := reading;

      var r := DecodeResult(buffer, order);
      FixedBufferCount(buffer, order);
      match r
      case Success(frame) =>
        lastChecksum := Some(frame.checksum);
        faces := Success(frame.faces);
      case Failure(e) =>
        faces := Failure(e);
    }
  }

  /**
    A client: a sensor built with the default arguments at tick 0 and
    polled at ticks 1000 and 1001 reads twice without sleeping.
   */
  method IdleBurstOnSensor(reading: seq<byte>)
    requires |reading| == ResultByteCount
  {
    var sensor := new PersonSensor(0, LittleEndian);
    assert sensor.autoDelay && sensor.address == 0x62;
    var first, slept1 := sensor.GetFaces(1000, reading);
    var second, slept2 := sensor.GetFaces(1001, reading);
    assert slept1 == 0 && slept2 == 0 && sensor.lastRead == 400;
    assert first == second;
  }
}
