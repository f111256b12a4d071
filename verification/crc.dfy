/** The Sensirion CRC-8 that guards every 16-bit word the SCD40 sends:
    polynomial x^8 + x^5 + x^4 + 1 (0x31), initial value 0xFF, most
    significant bit first, no reflection and no final XOR.

    The specification works on `bv8`, where a left shift drops bit 8 by
    itself; `ComputeCrc` is the driver's loop as written, on the 32-bit
    integers that JavaScript's bitwise operators use, with the explicit
    `& 0xFF` masks, and is proved to compute the specification. */
module Crc8 {

  /** A byte of a bus buffer. */
  type Byte = bv8

  const Init: bv8 := 0xFF
  const Poly: bv8 := 0x31

  /** One of the eight inner rounds: shift left, and if the bit shifted
      out was set, reduce by the polynomial. */
  function Round(c: bv8): bv8 {
    if c & 0x80 != 0 then (c << 1) ^ Poly else c << 1
  }

  /** `n` rounds applied one after the other. */
  function Rounds(c: bv8, n: nat): bv8 {
    if n == 0 then c else Round(Rounds(c, n - 1))
  }

  /** What the loop body does with one input byte. */
  function Step(c: bv8, b: Byte): bv8 {
    Rounds(c ^ b, 8)
  }

  /** The left fold of `Step` over `data`, starting from accumulator `c`. */
  function CrcFrom(c: bv8, data: seq<Byte>): bv8
    decreases |data|
  {
    if data == [] then c else CrcFrom(Step(c, data[0]), data[1..])
  }

  /** The checksum of a byte sequence. */
  function Crc(data: seq<Byte>): bv8 {
    CrcFrom(Init, data)
  }

  // ---------------------------------------------------------------------
  // The fold

  /** No input, no rounds: the checksum is the initial value. */
  lemma CrcEmpty()
    ensures Crc([]) == 0xFF
  {
  }

  /** Folding over a concatenation folds over the first part, then the second. */
  lemma {:induction false} CrcFromAppend(c: bv8, a: seq<Byte>, b: seq<Byte>)
    ensures CrcFrom(c, a + b) == CrcFrom(CrcFrom(c, a), b)
    decreases |a|
  {
    if a == [] {
      assert a + b == b;
    } else {
      assert (a + b)[0] == a[0];
      assert (a + b)[1..] == a[1..] + b;
      CrcFromAppend(Step(c, a[0]), a[1..], b);
    }
  }

  /** The checksum is a byte-wise left fold: one more byte is one more `Step`. */
  lemma {:induction false} CrcSnoc(a: seq<Byte>, b: Byte)
    ensures Crc(a + [b]) == Step(Crc(a), b)
  {
    CrcFromAppend(Init, a, [b]);
    assert CrcFrom(Crc(a), [b]) == CrcFrom(Step(Crc(a), b), []);
  }

  // ---------------------------------------------------------------------
  // Error detection

  /** A round loses no information: the polynomial's low bit records
      whether the top bit was set. */
  lemma RoundInjective(x: bv8, y: bv8)
    requires Round(x) == Round(y)
    ensures x == y
  {
  }

  lemma {:induction false} RoundsInjective(x: bv8, y: bv8, n: nat)
    requires Rounds(x, n) == Rounds(y, n)
    ensures x == y
  {
    if n > 0 {
      RoundInjective(Rounds(x, n - 1), Rounds(y, n - 1));
      RoundsInjective(x, y, n - 1);
    }
  }

  /** Different bytes into the same accumulator give different accumulators. */
  lemma StepInjectiveInByte(c: bv8, b1: Byte, b2: Byte)
    requires b1 != b2
    ensures Step(c, b1) != Step(c, b2)
  {
    var x1, x2 := c ^ b1, c ^ b2;
    if Rounds(x1, 8) == Rounds(x2, 8) {
      RoundsInjective(x1, x2, 8);
    }
  }

  /** Different accumulators stay different whatever bytes follow. */
  lemma {:induction false} CrcFromInjective(c1: bv8, c2: bv8, data: seq<Byte>)
    requires c1 != c2
    ensures CrcFrom(c1, data) != CrcFrom(c2, data)
    decreases |data|
  {
    if data != [] {
      if Step(c1, data[0]) == Step(c2, data[0]) {
        RoundsInjective(c1 ^ data[0], c2 ^ data[0], 8);
        assert false;
      }
      CrcFromInjective(Step(c1, data[0]), Step(c2, data[0]), data[1..]);
    }
  }

  /** Any error confined to one byte (in particular any single flipped bit)
      changes the checksum. */
  lemma SingleByteErrorDetected(d1: seq<Byte>, d2: seq<Byte>, i: nat)
    requires |d1| == |d2| && i < |d1|
    requires d1[i] != d2[i]
    requires forall j :: 0 <= j < |d1| && j != i ==> d1[j] == d2[j]
    ensures Crc(d1) != Crc(d2)
  {
    var p, s := d1[..i], d1[i + 1..];
    assert d2[..i] == p;
    assert d2[i + 1..] == s;
    assert d1 == p + [d1[i]] + s;
    assert d2 == p + [d2[i]] + s;
    CrcFromAppend(Init, p + [d1[i]], s);
    CrcFromAppend(Init, p + [d2[i]], s);
    CrcSnoc(p, d1[i]);
    CrcSnoc(p, d2[i]);
    StepInjectiveInByte(Crc(p), d1[i], d2[i]);
    CrcFromInjective(Step(Crc(p), d1[i]), Step(Crc(p), d2[i]), s);
  }

  // ---------------------------------------------------------------------
  // Reference values

  /** The checksum of a two-byte word, as two steps. */
  lemma {:induction false} CrcOfWord(hi: Byte, lo: Byte)
    ensures Crc([hi, lo]) == Step(Step(Init, hi), lo)
  {
    assert [hi, lo][1..] == [lo];
    assert Crc([hi, lo]) == CrcFrom(Step(Init, hi), [lo]);
    assert [lo][1..] == [];
    assert CrcFrom(Step(Init, hi), [lo]) == CrcFrom(Step(Step(Init, hi), lo), []);
  }

  /** The check value of Sensirion's data sheets, the CO2 word 400 and the
      all-zero word. */
  lemma KnownVectors()
    ensures Crc([0xBE, 0xEF]) == 0x92
    ensures Crc([0x01, 0x90]) == 0x4C
    ensures Crc([0x00, 0x00]) == 0x81
  {
    CrcOfWord(0xBE, 0xEF);
    assert Step(0xFF, 0xBE) == 0x0C;
    CrcOfWord(0x01, 0x90);
    assert Step(0xFF, 0x01) == 0x9D;
    CrcOfWord(0x00, 0x00);
    assert Step(0xFF, 0x00) == 0xAC;
  }

  // ---------------------------------------------------------------------
  // The driver's loop

  /** On a 32-bit accumulator that holds a byte, the driver's round with its
      `& 0xFF` mask is the byte round. */
  lemma MaskedRound(c: bv8)
    ensures (if (c as bv32) & 0x80 != 0 then (((c as bv32) << 1) ^ 0x31) & 0xFF
             else ((c as bv32) << 1) & 0xFF) == Round(c) as bv32
  {
  }

  /** XOR-ing a byte into a 32-bit accumulator that holds a byte. */
  lemma WideXor(c: bv8, b: bv8)
    ensures (c as bv32) ^ (b as bv32) == (c ^ b) as bv32
  {
  }

  /** The driver's checksum routine: an accumulator held in a JavaScript
      number (bitwise operators work on 32 bits), one XOR per byte and
      eight shift/reduce/mask rounds per byte. */
  method ComputeCrc(data: seq<Byte>) returns (crc: bv32)
    ensures crc <= 0xFF
    ensures crc == Crc(data) as bv32
  {
    crc := 0xFF;
    var poly: bv32 := 0x31;
    ghost var acc: bv8 := Init;
    var k := 0;
    while k < |data|
      invariant 0 <= k <= |data|
      invariant acc == Crc(data[..k])
      invariant crc == acc as bv32
    {
      var b := data[k];
      WideXor(acc, b);
      crc := crc ^ (b as bv32);
      ghost var start := acc ^ b;
      acc := start;
      var i := 0;
      while i < 8
        invariant 0 <= i <= 8
        invariant acc == Rounds(start, i)
        invariant crc == acc as bv32
      {
        MaskedRound(acc);
        if crc & 0x80 != 0 {
          crc := ((crc << 1) ^ poly) & 0xFF;
        } else {
          crc := (crc << 1) & 0xFF;
        }
        acc := Round(acc);
        i := i + 1;
      }
      assert data[..k + 1] == data[..k] + [b];
      CrcSnoc(data[..k], b);
      k := k + 1;
    }
    assert data[..k] == data;
  }
}
