# SCD40 CO2 sensor driver — a Dafny model

This project models the micro:bit driver for the Sensirion SCD40 CO2 sensor.
The driver is a single namespace, `scd40`. It has four parts:

- a CRC-8 checksum (polynomial 0x31, initial value 0xFF, MSB first, no
  reflection, no final XOR);
- `startMeasurement`, which writes the command word 0x21B1 to bus address 0x62
  and then pauses 500 ms;
- three read operations: `readCO2`, `readTemperature` and `readHumidity`.
  Each writes the command word 0xEC05 and then reads a 9-byte response.
  Each decodes its own big-endian word from that response and checks it
  against the CRC byte that follows it;
- the conversion of raw words into ppm, degrees Celsius and percent relative
  humidity.

Two modules:

- `Crc8` (`crc.dfy`) gives the checksum as a left fold of a byte step over
  `bv8`, where a left shift drops bit 8 the way the driver's `& 0xFF` does.
  `ComputeCrc` is the driver's nested loop as written. It works on 32-bit
  words, because JavaScript's bitwise operators work on 32 bits, and it keeps
  the explicit masks. It is proved to compute the fold and to stay within
  0..255. The lemmas cover three things:
  - the fold structure;
  - that the checksum catches any error confined to one byte, so any single
    flipped bit;
  - reference values, including Sensirion's check value `CRC(BE EF) = 92`.
- `Scd40` (`scd40.dfy`) holds the wire constants and the pure decoders of a
  9-byte response, with the scalings as exact reals. It also holds a
  `Sensor` class whose `trace` records the platform calls the driver makes:
  `Write(addr, word)`, `Read(addr, count)` and `Delay(ms)`. The bytes the
  sensor answers are a parameter of each read method. The module also
  proves these properties:
  - each field decodes only from its own three bytes;
  - a valid field with any one byte corrupted is rejected;
  - a response built the way the sensor builds it decodes to the measured
    words;
  - the scalings are invertible and strictly increasing.

Invalid readings: CO2 keeps the driver's sentinel -1. The NaN that
temperature and humidity return is modelled as `None`.

## Model

| member | source | states |
|---|---|---|
| `Crc8.ComputeCrc` | scd40.ts:8-22 | the driver's loop, on 32-bit words with `& 0xFF` masks, returns a value in 0..255 equal to the CRC-8 fold `Crc` over the input |
| `Crc8.CrcEmpty` | scd40.ts:9-21 | the checksum of no bytes is the initial value 0xFF |
| `Crc8.CrcFromAppend` | scd40.ts:11-20 | folding over a concatenation is folding over the first part and continuing over the second |
| `Crc8.CrcSnoc` | scd40.ts:11-20 | the checksum is a byte-wise left fold: `Crc(a + [b]) == Step(Crc(a), b)` |
| `Crc8.CrcOfWord` | scd40.ts:44 | the checksum of a two-byte word is two steps from 0xFF |
| `Crc8.RoundInjective` | scd40.ts:13-19 | one shift/reduce round loses no information: equal outputs mean equal inputs |
| `Crc8.RoundsInjective` | scd40.ts:13-19 | any number of rounds loses no information |
| `Crc8.StepInjectiveInByte` | scd40.ts:12-19 | from the same accumulator, two different bytes give two different accumulators |
| `Crc8.CrcFromInjective` | scd40.ts:11-20 | two different accumulators stay different whatever bytes follow |
| `Crc8.SingleByteErrorDetected` | scd40.ts:8-22 | two equal-length inputs that differ in exactly one byte (in particular by one bit) have different checksums |
| `Crc8.KnownVectors` | scd40.ts:8-22 | CRC(BE EF) = 0x92, CRC(01 90) = 0x4C, CRC(00 00) = 0x81 |
| `Crc8.MaskedRound` | scd40.ts:14-18 | the driver's round on a 32-bit accumulator holding a byte, masked with 0xFF, equals the byte round |
| `Crc8.WideXor` | scd40.ts:12 | XOR-ing a byte into a 32-bit accumulator holding a byte equals the byte XOR |
| `Scd40.Word` | scd40.ts:43 | shifting `hi` left by 8 and OR-ing `lo` on 32-bit integers is `hi * 256 + lo`, in 0..65535 |
| `Scd40.CheckedWord` | scd40.ts:43-44 | a field is absent exactly when the CRC of its two bytes differs from its third byte; otherwise it is the big-endian word |
| `Scd40.DecodeCo2` | scd40.ts:43-45 | the CO2 reading is -1 exactly when the CRC over bytes 0..1 differs from byte 2; otherwise it is `byte0 * 256 + byte1`, in 0..65535 |
| `Scd40.DecodeTemperature` | scd40.ts:56-58 | the temperature is absent exactly when the CRC over bytes 3..4 differs from byte 5; otherwise it lies in [-45, 130) and maps back to the word in bytes 3..4 |
| `Scd40.DecodeHumidity` | scd40.ts:69-71 | the humidity is absent exactly when the CRC over bytes 6..7 differs from byte 8; otherwise it lies in [0, 100) and maps back to the word in bytes 6..7 |
| `Scd40.Temperature` | scd40.ts:58 | -45 + 175 * raw / 65536 lies in [-45, 130) for every 16-bit raw word |
| `Scd40.Humidity` | scd40.ts:71 | 100 * raw / 65536 lies in [0, 100) for every 16-bit raw word |
| `Scd40.TemperatureRoundTrip` | scd40.ts:58 | the raw word is recovered exactly from the temperature |
| `Scd40.HumidityRoundTrip` | scd40.ts:71 | the raw word is recovered exactly from the humidity |
| `Scd40.ScalingMonotonic` | scd40.ts:58-71 | both scalings are strictly increasing in the raw word |
| `Scd40.ScalingReferencePoints` | scd40.ts:58-71 | raw 0, 0x8000 and 0xFFFF map to -45, 42.5 and 130 - 175/65536 degrees, and to 0, 50 and 100 - 100/65536 percent |
| `Scd40.InvalidCo2IsNoReading` | scd40.ts:44-45 | the CO2 reading is -1 exactly when its checksum fails and non-negative exactly when it passes |
| `Scd40.FieldIsolation` | scd40.ts:43-71 | CO2 depends only on bytes 0..2, temperature only on bytes 3..5, humidity only on bytes 6..8 |
| `Scd40.DecodeEncodeResponse` | scd40.ts:42-71 | a response whose fields carry their own CRC decodes to the CO2 word and to the scaled temperature and humidity words |
| `Scd40.SingleByteCorruptionDetected` | scd40.ts:44 | a valid field with any one of its three bytes changed fails its checksum |
| `Scd40.Co2Example` | scd40.ts:43-45 | word 01 90 with CRC 0x4C reads 400 ppm; with any other CRC byte it reads -1 |
| `Scd40.Sensor.WriteWord` | scd40.ts:31 | a big-endian word write appends exactly one `Write(addr, word)` event |
| `Scd40.Sensor.ReadBuffer` | scd40.ts:42 | a buffer read appends exactly one `Read(addr, count)` event and returns the device's bytes |
| `Scd40.Sensor.Pause` | scd40.ts:32 | a pause appends exactly one `Delay(ms)` event |
| `Scd40.Sensor.StartMeasurement` | scd40.ts:29-33 | appends exactly `Write(0x62, 0x21B1)` then `Delay(500)`, and no read |
| `Scd40.Sensor.ReadCo2` | scd40.ts:40-46 | appends exactly `Write(0x62, 0xEC05)` then `Read(0x62, 9)` and returns the CO2 decoding of the response |
| `Scd40.Sensor.ReadTemperature` | scd40.ts:53-59 | appends exactly `Write(0x62, 0xEC05)` then `Read(0x62, 9)` and returns the temperature decoding of the response |
| `Scd40.Sensor.ReadHumidity` | scd40.ts:66-72 | appends exactly `Write(0x62, 0xEC05)` then `Read(0x62, 9)` and returns the humidity decoding of the response |
| `Scd40.ReadAll` | scd40.ts:40-72 | three reads in a row are three separate write/read transactions, each decoding its own response |

## Left out

- The I2C transport (`pins.i2cWriteNumber`, `pins.i2cReadBuffer`) and the pause (`basic.pause`) are platform calls. They appear only as trace events. The bytes a read returns are a parameter.
- Short or malformed reads and bus errors: the driver does not check the buffer length. A response of 9 bytes is a precondition of the decoders and the read methods.
- IEEE-754 behaviour of JavaScript numbers: the scalings are exact reals, so float rounding of `175 * raw / 65536` is not modelled, and NaN is modelled as `None`.
- Whether `startMeasurement` was called before a read: the driver neither tracks nor enforces it, and neither does the model.
- Sharing the bus between concurrent callers: the driver has no locking, and the model is sequential.
- The MakeCode block annotations (`//% ...`) have no behaviour.
- The driver's bytes are JavaScript numbers in 0..255. The model uses `bv8`, which has exactly those values.
