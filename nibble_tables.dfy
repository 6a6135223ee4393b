/** The "6 and 2" translate tables of the Apple II disk controller
    (src/disk_format/apple/nibble.rs:58-87), kept apart from the codec so that
    the table lookups are proved in a small context. */
module NibbleTables {

  /** The 64 disk bytes that stand for the 6-bit values 0..63 (nibble.rs:61-66). */
  const WRITE_TABLE: seq<bv8> :=
      [0x96, 0x97, 0x9A, 0x9B, 0x9D, 0x9E, 0x9F, 0xA6, 0xA7, 0xAB, 0xAC, 0xAD, 0xAE, 0xAF, 0xB2, 0xB3]
    + [0xB4, 0xB5, 0xB6, 0xB7, 0xB9, 0xBA, 0xBB, 0xBC, 0xBD, 0xBE, 0xBF, 0xCB, 0xCD, 0xCE, 0xCF, 0xD3]
    + [0xD6, 0xD7, 0xD9, 0xDA, 0xDB, 0xDC, 0xDD, 0xDE, 0xDF, 0xE5, 0xE6, 0xE7, 0xE9, 0xEA, 0xEB, 0xEC]
    + [0xED, 0xEE, 0xEF, 0xF2, 0xF3, 0xF4, 0xF5, 0xF6, 0xF7, 0xF9, 0xFA, 0xFB, 0xFC, 0xFD, 0xFE, 0xFF]

  /** The inverse of WRITE_TABLE; every other entry is 0 (nibble.rs:70-87). */
  const READ_TABLE: seq<bv8> :=
      [0x00, 0x00, 0x00, 0x00, 0x00, 0x00, 0x00, 0x00, 0x00, 0x00, 0x00, 0x00, 0x00, 0x00, 0x00, 0x00]
    + [0x00, 0x00, 0x00, 0x00, 0x00, 0x00, 0x00, 0x00, 0x00, 0x00, 0x00, 0x00, 0x00, 0x00, 0x00, 0x00]
    + [0x00, 0x00, 0x00, 0x00, 0x00, 0x00, 0x00, 0x00, 0x00, 0x00, 0x00, 0x00, 0x00, 0x00, 0x00, 0x00]
    + [0x00, 0x00, 0x00, 0x00, 0x00, 0x00, 0x00, 0x00, 0x00, 0x00, 0x00, 0x00, 0x00, 0x00, 0x00, 0x00]
    + [0x00, 0x00, 0x00, 0x00, 0x00, 0x00, 0x00, 0x00, 0x00, 0x00, 0x00, 0x00, 0x00, 0x00, 0x00, 0x00]
    + [0x00, 0x00, 0x00, 0x00, 0x00, 0x00, 0x00, 0x00, 0x00, 0x00, 0x00, 0x00, 0x00, 0x00, 0x00, 0x00]
    + [0x00, 0x00, 0x00, 0x00, 0x00, 0x00, 0x00, 0x00, 0x00, 0x00, 0x00, 0x00, 0x00, 0x00, 0x00, 0x00]
    + [0x00, 0x00, 0x00, 0x00, 0x00, 0x00, 0x00, 0x00, 0x00, 0x00, 0x00, 0x00, 0x00, 0x00, 0x00, 0x00]
    + [0x00, 0x00, 0x00, 0x00, 0x00, 0x00, 0x00, 0x00, 0x00, 0x00, 0x00, 0x00, 0x00, 0x00, 0x00, 0x00]
    + [0x00, 0x00, 0x00, 0x00, 0x00, 0x00, 0x00, 0x01, 0x00, 0x00, 0x02, 0x03, 0x00, 0x04, 0x05, 0x06]
    + [0x00, 0x00, 0x00, 0x00, 0x00, 0x00, 0x07, 0x08, 0x00, 0x00, 0x00, 0x09, 0x0A, 0x0B, 0x0C, 0x0D]
    + [0x00, 0x00, 0x0E, 0x0F, 0x10, 0x11, 0x12, 0x13, 0x00, 0x14, 0x15, 0x16, 0x17, 0x18, 0x19, 0x1A]
    + [0x00, 0x00, 0x00, 0x00, 0x00, 0x00, 0x00, 0x00, 0x00, 0x00, 0x00, 0x1B, 0x00, 0x1C, 0x1D, 0x1E]
    + [0x00, 0x00, 0x00, 0x1F, 0x00, 0x00, 0x20, 0x21, 0x00, 0x22, 0x23, 0x24, 0x25, 0x26, 0x27, 0x28]
    + [0x00, 0x00, 0x00, 0x00, 0x00, 0x29, 0x2A, 0x2B, 0x00, 0x2C, 0x2D, 0x2E, 0x2F, 0x30, 0x31, 0x32]
    + [0x00, 0x00, 0x33, 0x34, 0x35, 0x36, 0x37, 0x38, 0x00, 0x39, 0x3A, 0x3B, 0x3C, 0x3D, 0x3E, 0x3F]

  /** READ_TABLE[WRITE_TABLE[k]] == k for every k in [lo, hi), checked one
      entry at a time so that the verifier evaluates the lookups. */
  predicate InvertsRange(lo: nat, hi: nat)
    decreases hi - lo
  {
    lo >= hi || (lo < 64 && READ_TABLE[WRITE_TABLE[lo]] == lo as bv8 && InvertsRange(lo + 1, hi))
  }

  lemma {:induction false} InvertsRangeAt(lo: nat, hi: nat, k: nat)
    requires lo <= k < hi <= 64 && InvertsRange(lo, hi)
    ensures READ_TABLE[WRITE_TABLE[k]] == k as bv8
    decreases k - lo
  {
    if lo < k {
      InvertsRangeAt(lo + 1, hi, k);
    }
  }

  lemma InvertsEntries0To7()
    ensures forall k :: 0 <= k < 8 ==> READ_TABLE[WRITE_TABLE[k]] == k as bv8
  {
    assert InvertsRange(4, 8);
    assert InvertsRange(0, 8);
    forall k | 0 <= k < 8 { InvertsRangeAt(0, 8, k); }
  }

  lemma InvertsEntries8To15()
    ensures forall k :: 8 <= k < 16 ==> READ_TABLE[WRITE_TABLE[k]] == k as bv8
  {
    assert InvertsRange(12, 16);
    assert InvertsRange(8, 16);
    forall k | 8 <= k < 16 { InvertsRangeAt(8, 16, k); }
  }

  lemma InvertsEntries16To23()
    ensures forall k :: 16 <= k < 24 ==> READ_TABLE[WRITE_TABLE[k]] == k as bv8
  {
    assert InvertsRange(20, 24);
    assert InvertsRange(16, 24);
    forall k | 16 <= k < 24 { InvertsRangeAt(16, 24, k); }
  }

  lemma InvertsEntries24To31()
    ensures forall k :: 24 <= k < 32 ==> READ_TABLE[WRITE_TABLE[k]] == k as bv8
  {
    assert InvertsRange(28, 32);
    assert InvertsRange(24, 32);
    forall k | 24 <= k < 32 { InvertsRangeAt(24, 32, k); }
  }

  lemma InvertsEntries32To39()
    ensures forall k :: 32 <= k < 40 ==> READ_TABLE[WRITE_TABLE[k]] == k as bv8
  {
    assert InvertsRange(36, 40);
    assert InvertsRange(32, 40);
    forall k | 32 <= k < 40 { InvertsRangeAt(32, 40, k); }
  }

  lemma InvertsEntries40To47()
    ensures forall k :: 40 <= k < 48 ==> READ_TABLE[WRITE_TABLE[k]] == k as bv8
  {
    assert InvertsRange(44, 48);
    assert InvertsRange(40, 48);
    forall k | 40 <= k < 48 { InvertsRangeAt(40, 48, k); }
  }

  lemma InvertsEntries48To55()
    ensures forall k :: 48 <= k < 56 ==> READ_TABLE[WRITE_TABLE[k]] == k as bv8
  {
    assert InvertsRange(52, 56);
    assert InvertsRange(48, 56);
    forall k | 48 <= k < 56 { InvertsRangeAt(48, 56, k); }
  }

  lemma InvertsEntries56To63()
    ensures forall k :: 56 <= k < 64 ==> READ_TABLE[WRITE_TABLE[k]] == k as bv8
  {
    assert InvertsRange(60, 64);
    assert InvertsRange(56, 64);
    forall k | 56 <= k < 64 { InvertsRangeAt(56, 64, k); }
  }

  /** The read table undoes the write table. */
  lemma ReadTableInvertsWriteTable()
    ensures |WRITE_TABLE| == 64 && |READ_TABLE| == 256
    ensures forall k :: 0 <= k < 64 ==> READ_TABLE[WRITE_TABLE[k]] == k as bv8
  {
    InvertsEntries0To7(); InvertsEntries8To15(); InvertsEntries16To23(); InvertsEntries24To31();
    InvertsEntries32To39(); InvertsEntries40To47(); InvertsEntries48To55(); InvertsEntries56To63();
  }

  /** The same fact for a 6-bit value held in a byte. */
  lemma ReadWrite(x: bv8)
    requires x < 64
    ensures READ_TABLE[WRITE_TABLE[x]] == x
  {
    ReadTableInvertsWriteTable();
    assert READ_TABLE[WRITE_TABLE[x as int]] == (x as int) as bv8;
  }
}
