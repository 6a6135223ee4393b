/** The serialisation helpers every `as_vec` of the Apple formats builds on. */
module Serialize {
  import opened Parsing

  /** `little_endian_word_to_bytes`: a 16-bit word as two bytes, low byte
      first, which is the layout `le_u16` reads back. */
  function LittleEndianWordToBytes(word: u16): (b: seq<bv8>)
    ensures |b| == 2
    ensures b[0] as int == word % 0x100
    ensures LeWord(b[0], b[1]) == word
  {
    [ByteOf(word % 0x100), ByteOf(word / 0x100)]
  }

  /** Reading the two bytes back with `le_u16` yields the word and leaves
      whatever followed them. */
  lemma LeU16OfWordBytes(word: u16, rest: seq<bv8>)
    ensures LeU16(LittleEndianWordToBytes(word) + rest) == Done(rest, word)
  {
    var b := LittleEndianWordToBytes(word);
    assert (b + rest)[2..] == rest;
  }

  /** The other direction: serialising the word two bytes encode gives those
      two bytes back. */
  lemma WordBytesOfLeWord(lo: bv8, hi: bv8)
    ensures LittleEndianWordToBytes(LeWord(lo, hi)) == [lo, hi]
  {
    var w := LeWord(lo, hi);
    var q, r := w / 0x100, w % 0x100;
    assert 0x100 * (q - hi as int) == lo as int - r;
    assert q == hi as int;
    ByteValueInjective(ByteOf(r), lo);
    ByteValueInjective(ByteOf(q), hi);
  }

  /** `Serializer for Vec<u8>`: serialising a byte vector copies it and
      never fails. */
  function BytesAsVec(v: seq<bv8>): (r: Result<seq<bv8>>)
    ensures r.Ok? && r.value == v
  {
    Ok(v)
  }
}
