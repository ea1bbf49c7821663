/**
 * The MAVLink checksum: the X.25 CRC-16 in its byte-at-a-time form
 * (reflected polynomial 0x1021, initial value 0xFFFF, no final XOR;
 * catalogued as CRC-16/MCRF4XX), as the radio firmware computes it.
 */
module Checksum {

  /** Initial value of the running sum. */
  const CRC_INIT: bv16 := 0xFFFF

  /**
   * One accumulate step of the firmware's loop.  `tmp` is a uint8_t, so the
   * byte-wide shift and XOR truncate it to 8 bits; `sum` is a uint16_t, so
   * the 16-bit result is exactly what the store keeps.
   */
  function Accumulate(sum: bv16, b: bv8): bv16
  {
    var tmp0: bv8 := b ^ (sum & 0xFF) as bv8;
    var tmp: bv8 := tmp0 ^ (tmp0 << 4);
    var t: bv16 := tmp as bv16;
    (sum >> 8) ^ (t << 8) ^ (t << 3) ^ (t >> 4)
  }

  /** The running sum after the bytes of `s`, starting from `sum`. */
  function Fold(sum: bv16, s: seq<bv8>): bv16
    decreases |s|
  {
    if |s| == 0 then sum else Fold(Accumulate(sum, s[0]), s[1..])
  }

  /** The checksum of a byte sequence. */
  function Crc(s: seq<bv8>): bv16
  {
    Fold(CRC_INIT, s)
  }

  /** Folding over a concatenation folds over the first part, then the second. */
  lemma {:induction false} FoldAppend(sum: bv16, s: seq<bv8>, t: seq<bv8>)
    ensures Fold(sum, s + t) == Fold(Fold(sum, s), t)
    decreases |s|
  {
    if |s| == 0 {
      assert s + t == t;
    } else {
      assert (s + t)[1..] == s[1..] + t;
      FoldAppend(Accumulate(sum, s[0]), s[1..], t);
    }
  }

  /** One more byte at the end is one more accumulate step. */
  lemma FoldSnoc(sum: bv16, s: seq<bv8>, b: bv8)
    ensures Fold(sum, s + [b]) == Accumulate(Fold(sum, s), b)
  {
    FoldAppend(sum, s, [b]);
    assert [b][1..] == [];
  }

  /**
   * The MAVLink 1.0 seed law: the checksum over the covered bytes followed by
   * the message's CRC_EXTRA byte is the checksum over the covered bytes,
   * accumulated once more with that byte.
   */
  lemma SeedLaw(s: seq<bv8>, extra: bv8)
    ensures Crc(s + [extra]) == Accumulate(Crc(s), extra)
  {
    FoldSnoc(CRC_INIT, s, extra);
  }

  // ---------------------------------------------------------------------
  // Independent reference: the textbook bit-serial reflected CRC.
  // ---------------------------------------------------------------------

  /** 0x1021 with its bits reversed, as a reflected CRC shifts right. */
  const POLY_REFLECTED: bv16 := 0x8408

  /**
   * One bit of the bit-serial reflected CRC: shift right, and XOR in the
   * polynomial when the bit shifted out was 1 (written with a mask rather
   * than a branch; ShiftBitOdd and ShiftBitEven give the two cases).
   */
  function ShiftBit(crc: bv16): bv16
  {
    (crc >> 1) ^ ((0 - (crc & 1)) & POLY_REFLECTED)
  }

  lemma ShiftBitOdd(crc: bv16)
    requires crc & 1 == 1
    ensures ShiftBit(crc) == (crc >> 1) ^ POLY_REFLECTED
  {
  }

  lemma ShiftBitEven(crc: bv16)
    requires crc & 1 == 0
    ensures ShiftBit(crc) == crc >> 1
  {
  }

  /** `n` bits of the bit-serial CRC. */
  function ShiftBits(crc: bv16, n: nat): bv16
    decreases n
  {
    if n == 0 then crc else ShiftBits(ShiftBit(crc), n - 1)
  }

  /** The bit-serial CRC of one byte: XOR it into the low byte, then shift eight bits. */
  function ReferenceStep(crc: bv16, b: bv8): bv16
  {
    ShiftBits(crc ^ b as bv16, 8)
  }

  /** The bit-serial CRC of a byte sequence. */
  function ReferenceFold(crc: bv16, s: seq<bv8>): bv16
    decreases |s|
  {
    if |s| == 0 then crc else ReferenceFold(ReferenceStep(crc, s[0]), s[1..])
  }

  /**
   * The firmware's step written over its two inputs: the shifted-down high
   * byte `h` of the old sum and the index byte `x` (data byte XOR the old low byte).
   */
  function StepFromParts(h: bv16, x: bv8): bv16
  {
    var tmp: bv8 := x ^ (x << 4);
    var t: bv16 := tmp as bv16;
    h ^ (t << 8) ^ (t << 3) ^ (t >> 4)
  }

  lemma AccumulateByParts(sum: bv16, b: bv8)
    ensures Accumulate(sum, b) == StepFromParts(sum >> 8, b ^ (sum & 0xFF) as bv8)
  {
  }

  /** Eight bit-serial shifts of a 16-bit value, in the table-free closed form. */
  lemma ShiftByteByParts(c: bv16)
    ensures ShiftBits(c, 8) == StepFromParts(c >> 8, (c & 0xFF) as bv8)
  {
    var c1 := ShiftBit(c);
    var c2 := ShiftBit(c1);
    var c3 := ShiftBit(c2);
    var c4 := ShiftBit(c3);
    var c5 := ShiftBit(c4);
    var c6 := ShiftBit(c5);
    var c7 := ShiftBit(c6);
    var c8 := ShiftBit(c7);
    assert ShiftBits(c, 8) == c8;
  }

  /** The firmware's byte step is the eight-bit bit-serial step. */
  lemma AccumulateIsReferenceStep(sum: bv16, b: bv8)
    ensures Accumulate(sum, b) == ReferenceStep(sum, b)
  {
    var c := sum ^ b as bv16;
    // XOR-ing the data byte into the low byte leaves the high byte alone
    var h, x := c >> 8, (c & 0xFF) as bv8;
    assert h == sum >> 8;
    assert x == b ^ (sum & 0xFF) as bv8;
    AccumulateByParts(sum, b);
    ShiftByteByParts(c);
  }

  /** The firmware's checksum over any bytes equals the bit-serial CRC. */
  lemma {:induction false} FoldIsReferenceFold(sum: bv16, s: seq<bv8>)
    ensures Fold(sum, s) == ReferenceFold(sum, s)
    decreases |s|
  {
    if |s| > 0 {
      AccumulateIsReferenceStep(sum, s[0]);
      FoldIsReferenceFold(Accumulate(sum, s[0]), s[1..]);
    }
  }

  /** The catalogue check value of CRC-16/MCRF4XX: the CRC of ASCII "123456789" is 0x6F91. */
  lemma CheckValue()
    ensures Crc([0x31, 0x32, 0x33, 0x34, 0x35, 0x36, 0x37, 0x38, 0x39]) == 0x6F91
  {
  }
}
