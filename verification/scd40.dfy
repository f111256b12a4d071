/** The SCD40 driver: the bus commands it issues and the decoding of the
    sensor's 9-byte measurement response.

    The response carries three big-endian 16-bit words, each followed by its
    own CRC-8 byte: CO2 at offsets 0..2, temperature at 3..5, relative
    humidity at 6..8. A word whose checksum does not match is reported as
    invalid: CO2 as -1, temperature and humidity as `None` (the driver's
    NaN). Physical values are exact reals. */
module Scd40 {
  import opened Crc8

  /** Wire constants. */
  const Address: int := 0x62
  const StartPeriodicMeasurement: int := 0x21B1
  const ReadMeasurement: int := 0xEC05
  const ResponseLength: nat := 9
  const SettlingDelayMs: nat := 500

  /** Offsets of the three fields of a response. */
  const Co2Offset: nat := 0
  const TemperatureOffset: nat := 3
  const HumidityOffset: nat := 6

  /** The value CO2 reads report for a word whose checksum failed. */
  const InvalidCo2: int := -1

  datatype Option<T> = None | Some(value: T)

  // ---------------------------------------------------------------------
  // Words and fields

  /** The raw word `(hi << 8) | lo`, computed as the driver does on 32-bit
      integers. */
  function Word(hi: Byte, lo: Byte): (raw: int)
    ensures 0 <= raw < 65536
    ensures raw == hi as int * 256 + lo as int
  {
    (((hi as bv32) << 8) | (lo as bv32)) as int
  }

  /** The word at `off`, `off + 1` of a response if the byte at `off + 2` is
      its checksum. */
  function CheckedWord(buf: seq<Byte>, off: nat): (w: Option<int>)
    requires off + 3 <= |buf|
    ensures w.None? <==> Crc([buf[off], buf[off + 1]]) != buf[off + 2]
    ensures w.Some? ==> w.value == buf[off] as int * 256 + buf[off + 1] as int
  {
    if Crc([buf[off], buf[off + 1]]) != buf[off + 2] then None
    else Some(Word(buf[off], buf[off + 1]))
  }

  /** The three bytes the sensor sends for one word. */
  function EncodeField(hi: Byte, lo: Byte): (field: seq<Byte>) {
    [hi, lo, Crc([hi, lo])]
  }

  /** A whole response as the sensor builds it. */
  function EncodeResponse(co2: (Byte, Byte), t: (Byte, Byte), h: (Byte, Byte)): (buf: seq<Byte>)
    ensures |buf| == ResponseLength
  {
    EncodeField(co2.0, co2.1) + EncodeField(t.0, t.1) + EncodeField(h.0, h.1)
  }

  // ---------------------------------------------------------------------
  // Physical units

  /** Temperature in degrees Celsius: -45 + 175 * raw / 65536. */
  function Temperature(raw: int): (celsius: real)
    requires 0 <= raw < 65536
    ensures -45.0 <= celsius < 130.0
  {
    -45.0 + 175.0 * (raw as real) / 65536.0
  }

  /** Relative humidity in percent: 100 * raw / 65536. */
  function Humidity(raw: int): (percent: real)
    requires 0 <= raw < 65536
    ensures 0.0 <= percent < 100.0
  {
    100.0 * (raw as real) / 65536.0
  }

  /** The raw word a temperature came from. */
  function TemperatureRaw(celsius: real): real {
    (celsius + 45.0) * 65536.0 / 175.0
  }

  /** The raw word a humidity came from. */
  function HumidityRaw(percent: real): real {
    percent * 65536.0 / 100.0
  }

  // ---------------------------------------------------------------------
  // Decoding a response

  /** CO2 in ppm, unscaled, or -1 when the CO2 checksum fails. */
  function DecodeCo2(buf: seq<Byte>): (ppm: int)
    requires |buf| == ResponseLength
    ensures ppm == InvalidCo2 <==> Crc([buf[0], buf[1]]) != buf[2]
    ensures ppm != InvalidCo2 ==> 0 <= ppm < 65536 && ppm == buf[0] as int * 256 + buf[1] as int
  {
    match CheckedWord(buf, Co2Offset)
    case None => InvalidCo2
    case Some(raw) => raw
  }

  /** Temperature in degrees Celsius, or `None` when its checksum fails. */
  function DecodeTemperature(buf: seq<Byte>): (celsius: Option<real>)
    requires |buf| == ResponseLength
    ensures celsius.None? <==> Crc([buf[3], buf[4]]) != buf[5]
    ensures celsius.Some? ==> -45.0 <= celsius.value < 130.0
    ensures celsius.Some? ==> TemperatureRaw(celsius.value) == (buf[3] as int * 256 + buf[4] as int) as real
  {
    match CheckedWord(buf, TemperatureOffset)
    case None => None
    case Some(raw) => TemperatureRoundTrip(raw); Some(Temperature(raw))
  }

  /** Relative humidity in percent, or `None` when its checksum fails. */
  function DecodeHumidity(buf: seq<Byte>): (percent: Option<real>)
    requires |buf| == ResponseLength
    ensures percent.None? <==> Crc([buf[6], buf[7]]) != buf[8]
    ensures percent.Some? ==> 0.0 <= percent.value < 100.0
    ensures percent.Some? ==> HumidityRaw(percent.value) == (buf[6] as int * 256 + buf[7] as int) as real
  {
    match CheckedWord(buf, HumidityOffset)
    case None => None
    case Some(raw) => HumidityRoundTrip(raw); Some(Humidity(raw))
  }

  // ---------------------------------------------------------------------
  // Properties of decoding

  /** Scaling inverts: the raw word can be recovered from a temperature. */
  lemma TemperatureRoundTrip(raw: int)
    requires 0 <= raw < 65536
    ensures TemperatureRaw(Temperature(raw)) == raw as real
  {
  }

  /** Scaling inverts: the raw word can be recovered from a humidity. */
  lemma HumidityRoundTrip(raw: int)
    requires 0 <= raw < 65536
    ensures HumidityRaw(Humidity(raw)) == raw as real
  {
  }

  /** Both scalings are strictly increasing, so distinct words give distinct
      readings and their order is kept. */
  lemma ScalingMonotonic(r1: int, r2: int)
    requires 0 <= r1 < r2 < 65536
    ensures Temperature(r1) < Temperature(r2)
    ensures Humidity(r1) < Humidity(r2)
  {
  }

  /** The transfer functions at zero, half and full scale. */
  lemma ScalingReferencePoints()
    ensures Temperature(0) == -45.0 && Temperature(0x8000) == 42.5
    ensures Temperature(0xFFFF) == 130.0 - 175.0 / 65536.0
    ensures Humidity(0) == 0.0 && Humidity(0x8000) == 50.0
    ensures Humidity(0xFFFF) == 100.0 - 100.0 / 65536.0
  {
  }

  /** The sentinel -1 is never a valid CO2 reading: a reading is -1 exactly
      when its checksum failed. */
  lemma InvalidCo2IsNoReading(buf: seq<Byte>)
    requires |buf| == ResponseLength
    ensures DecodeCo2(buf) == InvalidCo2 <==> CheckedWord(buf, Co2Offset).None?
    ensures DecodeCo2(buf) >= 0 <==> CheckedWord(buf, Co2Offset).Some?
  {
  }

  /** Each reading depends on its own three bytes and on no others. */
  lemma FieldIsolation(b1: seq<Byte>, b2: seq<Byte>)
    requires |b1| == ResponseLength && |b2| == ResponseLength
    ensures b1[0..3] == b2[0..3] ==> DecodeCo2(b1) == DecodeCo2(b2)
    ensures b1[3..6] == b2[3..6] ==> DecodeTemperature(b1) == DecodeTemperature(b2)
    ensures b1[6..9] == b2[6..9] ==> DecodeHumidity(b1) == DecodeHumidity(b2)
  {
    if b1[0..3] == b2[0..3] {
      assert b1[0] == b2[0] && b1[1] == b2[1] && b1[2] == b2[2] by {
        assert b1[0..3][0] == b2[0..3][0] && b1[0..3][1] == b2[0..3][1] && b1[0..3][2] == b2[0..3][2];
      }
    }
    if b1[3..6] == b2[3..6] {
      assert b1[3] == b2[3] && b1[4] == b2[4] && b1[5] == b2[5] by {
        assert b1[3..6][0] == b2[3..6][0] && b1[3..6][1] == b2[3..6][1] && b1[3..6][2] == b2[3..6][2];
      }
    }
    if b1[6..9] == b2[6..9] {
      assert b1[6] == b2[6] && b1[7] == b2[7] && b1[8] == b2[8] by {
        assert b1[6..9][0] == b2[6..9][0] && b1[6..9][1] == b2[6..9][1] && b1[6..9][2] == b2[6..9][2];
      }
    }
  }

  /** What the sensor sends decodes to what it measured. */
  lemma DecodeEncodeResponse(co2: (Byte, Byte), t: (Byte, Byte), h: (Byte, Byte))
    ensures DecodeCo2(EncodeResponse(co2, t, h)) == Word(co2.0, co2.1)
    ensures DecodeTemperature(EncodeResponse(co2, t, h)) == Some(Temperature(Word(t.0, t.1)))
    ensures DecodeHumidity(EncodeResponse(co2, t, h)) == Some(Humidity(Word(h.0, h.1)))
  {
    var buf := EncodeResponse(co2, t, h);
    assert buf[0] == co2.0 && buf[1] == co2.1 && buf[2] == Crc([co2.0, co2.1]);
    assert buf[3] == t.0 && buf[4] == t.1 && buf[5] == Crc([t.0, t.1]);
    assert buf[6] == h.0 && buf[7] == h.1 && buf[8] == Crc([h.0, h.1]);
  }

  /** A valid field with any one of its three bytes corrupted is reported
      as invalid. */
  lemma SingleByteCorruptionDetected(b1: seq<Byte>, b2: seq<Byte>, off: nat, i: nat)
    requires off + 3 <= |b1| == |b2|
    requires off <= i < off + 3 && b1[i] != b2[i]
    requires forall j :: 0 <= j < |b1| && j != i ==> b1[j] == b2[j]
    requires CheckedWord(b1, off).Some?
    ensures CheckedWord(b2, off).None?
  {
    if i < off + 2 {
      var w1, w2 := [b1[off], b1[off + 1]], [b2[off], b2[off + 1]];
      SingleByteErrorDetected(w1, w2, i - off);
    }
  }

  /** The reference word 400 ppm with its checksum, and with that checksum
      corrupted. */
  lemma Co2Example(buf: seq<Byte>)
    requires |buf| == ResponseLength && buf[0] == 0x01 && buf[1] == 0x90
    ensures buf[2] == 0x4C ==> DecodeCo2(buf) == 400
    ensures buf[2] != 0x4C ==> DecodeCo2(buf) == InvalidCo2
  {
    KnownVectors();
  }

  // ---------------------------------------------------------------------
  // The driver and its bus

  /** What the driver does on the platform: write a 16-bit word big-endian,
      read a number of bytes, or pause. */
  datatype Event = Write(addr: int, word: int) | Read(addr: int, count: nat) | Delay(ms: nat)

  /** The driver, with the platform calls it has made so far. */
  class Sensor {
    var trace: seq<Event>

    constructor ()
      ensures trace == []
    {
      trace := [];
    }

    /** The platform's big-endian 16-bit write. */
    method WriteWord(addr: int, word: int)
      modifies this
      ensures trace == old(trace) + [Write(addr, word)]
    {
      trace := trace + [Write(addr, word)];
    }

    /** The platform's buffer read; `incoming` is what the device answers. */
    method ReadBuffer(addr: int, count: nat, incoming: seq<Byte>) returns (buf: seq<Byte>)
      requires |incoming| == count
      modifies this
      ensures trace == old(trace) + [Read(addr, count)]
      ensures buf == incoming
    {
      trace := trace + [Read(addr, count)];
      buf := incoming;
    }

    /** The platform's pause. */
    method Pause(ms: nat)
      modifies this
      ensures trace == old(trace) + [Delay(ms)]
    {
      trace := trace + [Delay(ms)];
    }

    /** Start periodic measurement, then wait for the first sample. */
    method StartMeasurement()
      modifies this
      ensures trace == old(trace) + [Write(0x62, 0x21B1), Delay(500)]
    {
      WriteWord(Address, StartPeriodicMeasurement);
      Pause(SettlingDelayMs);
    }

    /** Read CO2 in ppm; `response` is what the sensor answers. */
    method ReadCo2(response: seq<Byte>) returns (ppm: int)
      requires |response| == ResponseLength
      modifies this
      ensures trace == old(trace) + [Write(0x62, 0xEC05), Read(0x62, 9)]
      ensures ppm == DecodeCo2(response)
    {
      WriteWord(Address, ReadMeasurement);
      var buf := ReadBuffer(Address, ResponseLength, response);
      ppm := DecodeCo2(buf);
    }

    /** Read temperature in degrees Celsius; `response` is what the sensor
        answers. */
    method ReadTemperature(response: seq<Byte>) returns (celsius: Option<real>)
      requires |response| == ResponseLength
      modifies this
      ensures trace == old(trace) + [Write(0x62, 0xEC05), Read(0x62, 9)]
      ensures celsius == DecodeTemperature(response)
    {
      WriteWord(Address, ReadMeasurement);
      var buf := ReadBuffer(Address, ResponseLength, response);
      celsius := DecodeTemperature(buf);
    }

    /** Read relative humidity in percent; `response` is what the sensor
        answers. */
    method ReadHumidity(response: seq<Byte>) returns (percent: Option<real>)
      requires |response| == ResponseLength
      modifies this
      ensures trace == old(trace) + [Write(0x62, 0xEC05), Read(0x62, 9)]
      ensures percent == DecodeHumidity(response)
    {
      WriteWord(Address, ReadMeasurement);
      var buf := ReadBuffer(Address, ResponseLength, response);
      percent := DecodeHumidity(buf);
    }
  }

  /** Three reads in a row are three separate command/read transactions,
      each decoding its own response. */
  method ReadAll(s: Sensor, r1: seq<Byte>, r2: seq<Byte>, r3: seq<Byte>)
    returns (ppm: int, celsius: Option<real>, percent: Option<real>)
    requires |r1| == |r2| == |r3| == ResponseLength
    modifies s
    ensures s.trace == old(s.trace) + [Write(0x62, 0xEC05), Read(0x62, 9),
                                       Write(0x62, 0xEC05), Read(0x62, 9),
                                       Write(0x62, 0xEC05), Read(0x62, 9)]
    ensures ppm == DecodeCo2(r1) && celsius == DecodeTemperature(r2) && percent == DecodeHumidity(r3)
  {
    ppm := s.ReadCo2(r1);
    celsius := s.ReadTemperature(r2);
    percent := s.ReadHumidity(r3);
  }
}
