# Person Sensor driver: a Dafny model

This project models the core of a MicroPython driver for the Useful Sensors
Person Sensor. The sensor is a face detector on an I2C bus. The model covers
three parts of `person_sensor.py`:

- **The result-frame decoder** (`FrameDecoder`). This is the part of
  `get_faces` that runs after the bus read. The buffer is laid out as follows:
  - a 4-byte header (`"BBH"`);
  - a face-count byte at offset 4;
  - `count` face records of 8 bytes (`"BBBBBBbB"`) from offset 5;
  - a 16-bit checksum read right after the last record decoded.

  The buffer is `ResultByteCount` = 40 bytes. Native `struct` alignment puts a
  pad byte before the trailing `"H"`, so it is not 39. `Decode` is the decoder
  stated in closed form. `DecodeResult` is the loop that advances `offset`,
  proved equal to `Decode`. `Encode` builds a buffer from faces; the round-trip
  lemmas tie it to `Decode`.
- **The auto-delay rate limiter** (`RateLimit`). `Pace` is one call. It
  decides whether to sleep, for how long, and what to store as `last_read`.
  `Run` is a sequence of calls. Its closed form is proved in `RunClosedForm`.
- **The register commands** (`Commands`). Each setter returns the 2-byte
  `[register, value]` command it writes, or the `ValueError` it raises.
  `Interpret` reads a command back as the register table defines it. It is
  the reference each setter is stated against.

`Sensor.PersonSensor` is the driver object. Its fields are `autoDelay`,
`address`, `buffer`, `lastRead` and `lastChecksum`. Its `GetFaces` method does
the auto-delay in place, stores the bytes read, runs `DecodeResult` and
updates `lastChecksum`.

Modelling choices:

- Bytes are the subset type `byte` (0..255). The signed `id` field is `int8`.
- Clock ticks are unbounded integers that the caller supplies.
- The bytes returned by the I2C read are a parameter of `GetFaces`. The sleep
  is returned as a whole number of milliseconds.
- The native byte order of the `"H"` checksum is a field of the object
  (`order`). It is fixed at construction.
- A failed `struct.unpack_from` (MicroPython raises `ValueError`, "buffer too
  small") is `Truncated(offset, size)`. This means the unpack of `size` bytes
  at `offset` ran past the end of the buffer.

Three places where the code does less than its own declarations and comments
suggest; the model follows what the code does:

- `PERSON_SENSOR_RESULT_FORMAT` (`person_sensor.py` lines 17-22) lays out the
  checksum `"H"` after all four face slots. But line 170 reads it at
  `5 + 8 * count`, right after the last decoded face. So with fewer than four
  faces, the value stored in `last_checksum` is the first two bytes of the
  first unused record slot (`ChecksumFromUnusedSlot`). The last byte of the
  buffer is never read (`OnlyBytesFourToThirtyEightRead`).
- `PERSON_SENSOR_FACE_MAX` (line 16) is never compared with the count byte.
  A count above 4 is caught only because the fifth record's unpack runs off
  the 40-byte buffer, which raises the exception `unpack_from` raises
  (`FixedBufferCount`).
- The comment at line 135 promises that at least `PERSON_SENSOR_DELAY`
  milliseconds pass since the last reading. Line 142 stores `now + delay`,
  which equals `last_read + 200` whether or not the call slept. After an idle
  gap the stored value lags behind the clock. The calls that follow then read
  at once, as close together as they come. `RunClosedForm` gives the exact
  rule: call `k` of a run never reads before `last_read + 200 * (k + 1)`.
  `BurstExample` shows two reads 1 ms apart.

## Model

| member | source | states |
|---|---|---|
| `Wire.Int8` | person_sensor.py:13-14 | the `id` byte is read as two's complement: negative exactly when the byte is 128 or more, and equal to the byte modulo 256 |
| `Wire.Uint8` | person_sensor.py:13-14 | inverse of the signed read: the byte whose signed reading is the given `id` |
| `Wire.U16` | person_sensor.py:170 | the checksum read is a 16-bit value whose low and high bytes are the two bytes read, in the order the byte order says |
| `Wire.U16Bytes` | person_sensor.py:170 | inverse of the checksum read: two bytes that read back as the given 16-bit value |
| `Wire.U16RoundTrip` | person_sensor.py:170 | encoding a read checksum gives back the two bytes it was read from |
| `Wire.FaceAt` | person_sensor.py:44-56 | one record unpacks into the eight face fields; the `id` is negative exactly when byte 6 of the record is 128 or more |
| `Wire.FaceBytesRoundTrip` | person_sensor.py:162-167 | unpacking a record and packing it again gives the record's 8 bytes back |
| `Wire.FaceAtBytes` | person_sensor.py:162-167 | 8 bytes packed from a face unpack to that face, at whatever offset they sit |
| `FrameDecoder.Decode` | person_sensor.py:147-171 | decoding succeeds exactly when the count byte exists and `count` records plus a 16-bit checksum fit after it; the face list then has `count` entries and the checksum is below 65536; every failure names an unpack that runs past the end of the buffer |
| `FrameDecoder.DecodeResult` | person_sensor.py:147-171 | the decoding loop, which advances `offset` by 8 per record and reads the checksum where it stops, returns exactly what `Decode` specifies, including the same error |
| `FrameDecoder.DecodedFields` | person_sensor.py:162-167 | face `i` is built positionally from bytes `5+8i` to `5+8i+7`; the seventh field is signed and all others are unsigned |
| `FrameDecoder.ZeroFaces` | person_sensor.py:155-170 | a zero count gives an empty face list and takes the checksum from bytes 5 and 6 |
| `FrameDecoder.FixedBufferCount` | person_sensor.py:162-167 | on the 40-byte buffer, decoding succeeds if and only if the count is at most 4; a larger count fails on the record at offset 37 |
| `FrameDecoder.OnlyBytesFourToThirtyEightRead` | person_sensor.py:148-155 | two 40-byte buffers that agree on bytes 4 to 38 decode identically, so the header and the last byte never affect the result |
| `FrameDecoder.ChecksumNotVerified` | person_sensor.py:169-171 | whatever value sits at the checksum offset, decoding still succeeds with the same faces and passes that value through unchecked |
| `FrameDecoder.ChecksumFromUnusedSlot` | person_sensor.py:168-170 | on the 40-byte buffer with fewer than 4 faces, the checksum is read from the first two bytes of the first unused record slot, inside the 37 packed bytes |
| `FrameDecoder.FacesBytesAt` | person_sensor.py:162-167 | in the packed records, bytes `8i` to `8i+7` are the record of face `i` |
| `FrameDecoder.RoundTrip` | person_sensor.py:155-170 | decoding an encoded buffer returns the faces in order and count, with the first two tail bytes as checksum, whatever the header holds |
| `FrameDecoder.RoundTripFixed` | person_sensor.py:17-23 | up to 4 faces padded to the result size give a 40-byte buffer that decodes back to the same faces |
| `RateLimit.Pace` | person_sensor.py:136-142 | with auto-delay on, the call sleeps exactly when `now - last_read < 200`, for `200 - (now - last_read)` ms; `last_read` becomes the old value plus 200 either way; the read starts at the later of `now` and the new `last_read`; with a clock not behind `last_read` it sleeps at most 200 ms; with auto-delay off there is no sleep and `last_read` stays |
| `RateLimit.RunClosedForm` | person_sensor.py:136-142 | after call `k` of a run, `last_read` is the start value plus `200*(k+1)`; call `k` sleeps exactly when its tick is before that; its read starts at the later of the two |
| `RateLimit.RunWithoutAutoDelay` | person_sensor.py:136 | with auto-delay off, no call of a run ever sleeps and `last_read` never moves |
| `RateLimit.IdleBurst` | person_sensor.py:142 | every call whose tick is at or past its due time `last_read + 200*(k+1)` reads without sleeping |
| `RateLimit.BurstExample` | person_sensor.py:142 | from `last_read` 0, calls at ticks 1000 and 1001 both read at once, 1 ms apart |
| `Commands.BoolByte` | person_sensor.py:77 | a boolean is sent as 0x01 when true and 0x00 when false |
| `Commands.Interpret` | person_sensor.py:31-42 | only a 2-byte command can mean anything |
| `Commands.InterpretInjective` | person_sensor.py:31-37 | two byte strings that mean the same command are equal, so each setter's bytes are fixed by what they mean |
| `Commands.EnableDebugMode` | person_sensor.py:75-78 | writes the command that sets the debug LED to the given boolean |
| `Commands.EnableId` | person_sensor.py:80-85 | writes the command that turns face identification on or off as given |
| `Commands.SetMode` | person_sensor.py:87-100 | succeeds exactly for standby (0x00) and continuous (0x01), then writes the command selecting that mode; any other mode raises the invalid-mode error and writes nothing |
| `Commands.TriggerSingleShot` | person_sensor.py:102-105 | writes the single-shot inference command |
| `Commands.LabelNextId` | person_sensor.py:107-114 | succeeds exactly for ids 0 to 7, then writes the command labelling the next face with that id; any other id raises the invalid-id error and writes nothing |
| `Commands.SetPersistIds` | person_sensor.py:116-119 | writes the command that keeps or drops learned ids across power cycles, as given |
| `Commands.EraseIds` | person_sensor.py:121-123 | writes the command that erases all learned ids |
| `Sensor.PersonSensor.constructor` | person_sensor.py:60-70 | a new sensor keeps the given auto-delay and address (by default `True` and 0x62, as in the source), has no buffer and no checksum yet, and takes `last_read` from the clock at construction |
| `Sensor.PersonSensor.GetFaces` | person_sensor.py:125-171 | sleep and new `last_read` are those of `Pace`; the buffer holds the bytes read; the result and `last_checksum` are those of `Decode` on those bytes alone; faces come back exactly when the count is at most 4, one per count; on failure `last_read` has still moved and `last_checksum` keeps its old value |

## Left out

- The I2C transport (`i2c.readfrom_into`, `i2c.writeto`, `_write`) is a foreign call. The read is the `reading` parameter of `GetFaces`. Each setter returns the bytes it would write.
- `time.sleep` takes float seconds. The model returns the sleep as whole milliseconds and does not perform it.
- `time.ticks_ms()` wraps around on the device. The code uses plain subtraction, not `ticks_diff`. Ticks here are unbounded integers supplied by the caller.
- `del self.buffer` and the fresh `bytearray` are memory management. The buffer field is simply replaced by the bytes read, and it is empty before the first read where the source has `None`.
- The `typing` import shim, the `const(...)` wrappers and the `namedtuple` machinery are left out. `Face` is a datatype with the same eight fields.
- `last_checksum` is a one-element tuple in the source. The model keeps the value alone.
- Native `struct` details beyond the fixed offsets are left out. The checksum's byte order is a parameter, and unaligned reads are assumed allowed.
- `Commands.EnableDebugMode`: takes a `bool`, while the source accepts any Python value and uses its truthiness.
- `Commands.EnableId`: takes a `bool`; Python truthiness is not modelled.
- `Commands.SetPersistIds`: takes a `bool`; Python truthiness is not modelled.
- `Commands.SetMode`: takes an integer. Python's `True == 1` and `1.0 in (0, 1)` cases are not modelled.
- Reads shorter than 40 bytes cannot reach the decoder through `get_faces`, because the read fills the whole buffer. `Decode` still handles any length.
