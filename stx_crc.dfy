/** The CRC-16 of the STX sector address fields (stx/mod.rs).  The register
    is 16 bits wide; a shift discards the bit that leaves it. */
module StxCrc {
  /** The CRC-16-CCITT polynomial x^16 + x^12 + x^5 + 1 of ITU-T
      Recommendation V.41, without its x^16 term. */
  const CCITT_CRC16_POLY: bv16 := 0x1021

  /** One step of the register: shift left, and fold the polynomial in when
      the bit shifted out was set. */
  function Step(c: bv16): bv16 {
    if c & 0x8000 != 0 then (c << 1) ^ CCITT_CRC16_POLY else c << 1
  }

  /** `n` steps of the register. */
  function Steps(c: bv16, n: nat): bv16
    decreases n
  {
    if n == 0 then c else Steps(Step(c), n - 1)
  }

  /** One more step at the end. */
  lemma {:induction false} StepsSucc(c: bv16, n: nat)
    ensures Steps(c, n + 1) == Step(Steps(c, n))
    decreases n
  {
    if n > 0 {
      StepsSucc(Step(c), n - 1);
    }
  }

  /** `crc16_add_byte` as a value: the byte is XORed into the high half of
      the register, followed by eight steps. */
  function AddByte(crc: bv16, byte: bv8): bv16 {
    Steps(crc ^ ((byte as bv16) << 8), 8)
  }

  /** `crc16_add_byte` (stx/mod.rs:46-64). */
  method Crc16AddByte(crc: bv16, byte: bv8) returns (newCrc: bv16)
    ensures newCrc == AddByte(crc, byte)
  {
    newCrc := crc;
    newCrc := newCrc ^ ((byte as bv16) << 8);
    ghost var start := newCrc;
    for i := 0 to 8
      invariant newCrc == Steps(start, i)
    {
      StepsSucc(start, i);
      newCrc := ShiftRegister(newCrc);
    }
  }

  /** The body of the loop in `crc16_add_byte` (stx/mod.rs:54-60). */
  method ShiftRegister(c: bv16) returns (d: bv16)
    ensures d == Step(c)
  {
    if c & 0x8000 != 0 {
      d := (c << 1) ^ CCITT_CRC16_POLY;
    } else {
      d := c << 1;
    }
  }

  /** The CRC after a sequence of bytes, each added in order. */
  function CrcOf(crc: bv16, bytes: seq<bv8>): bv16
    decreases |bytes|
  {
    if bytes == [] then crc else CrcOf(AddByte(crc, bytes[0]), bytes[1..])
  }

  /** Four bytes fed one after another. */
  lemma CrcOfFour(crc: bv16, a: bv8, b: bv8, c: bv8, d: bv8)
    ensures CrcOf(crc, [a, b, c, d]) == AddByte(AddByte(AddByte(AddByte(crc, a), b), c), d)
  {
    var c1 := AddByte(crc, a);
    var c2 := AddByte(c1, b);
    var c3 := AddByte(c2, c);
    assert [a, b, c, d][1..] == [b, c, d];
    assert CrcOf(crc, [a, b, c, d]) == CrcOf(c1, [b, c, d]);
    assert [b, c, d][1..] == [c, d];
    assert CrcOf(c1, [b, c, d]) == CrcOf(c2, [c, d]);
    assert [c, d][1..] == [d];
    assert CrcOf(c2, [c, d]) == CrcOf(c3, [d]);
    assert [d][1..] == [];
    assert CrcOf(c3, [d]) == CrcOf(AddByte(c3, d), []) == AddByte(c3, d);
  }

  /** Feeding `a` then `b` is feeding `a + b`. */
  lemma {:induction false} CrcOfAppend(crc: bv16, a: seq<bv8>, b: seq<bv8>)
    ensures CrcOf(crc, a + b) == CrcOf(CrcOf(crc, a), b)
    decreases |a|
  {
    if a != [] {
      assert (a + b)[0] == a[0] && (a + b)[1..] == a[1..] + b;
      CrcOfAppend(AddByte(crc, a[0]), a[1..], b);
    } else {
      assert a + b == b;
    }
  }

  /** The unit test of stx/mod.rs:72-87: 0x01 added to 0xFFFF gives 0xF1D1. */
  lemma AddByteExample()
    ensures AddByte(0xFFFF, 0x01) == 0xF1D1
  {
  }

  /** The register trace written out beside that test: 0xFEFF after the
      byte is XORed in, then 0xEDDF, 0xCB9F, 0x871F, 0x1E1F, 0x3C3E,
      0x787C, 0xF0F8 and 0xF1D1. */
  lemma AddByteExampleTrace()
    ensures 0xFFFF ^ ((0x01 as bv16) << 8) == 0xFEFF
    ensures Steps(0xFEFF, 1) == 0xEDDF && Steps(0xFEFF, 2) == 0xCB9F
    ensures Steps(0xFEFF, 3) == 0x871F && Steps(0xFEFF, 4) == 0x1E1F
    ensures Steps(0xFEFF, 5) == 0x3C3E && Steps(0xFEFF, 6) == 0x787C
    ensures Steps(0xFEFF, 7) == 0xF0F8 && Steps(0xFEFF, 8) == 0xF1D1
  {
  }

  /** The four address-mark bytes that precede the sector ID fields. */
  const SYNC_MARKS: seq<bv8> := [0xA1, 0xA1, 0xA1, 0xFE]

  /** The register after the address marks, from the preset 0xFFFF. */
  lemma SyncMarksCrc()
    ensures CrcOf(0xFFFF, SYNC_MARKS) == 0xB230
  {
  }
}
