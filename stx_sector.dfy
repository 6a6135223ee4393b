/** STX sector headers, sector data and the boot-sector checksum
    (stx/sector.rs). */
module StxSector {
  import opened Parsing
  import StxCrc

  /** `STXSectorHeader`: sixteen bytes per sector. */
  datatype SectorHeader = SectorHeader(
    dataOffset: u32,
    bitPosition: u16,
    readTime: u16,
    idTrack: bv8,
    idHead: bv8,
    idSector: bv8,
    idSize: bv8,
    idCrc: u16,
    fdcStatus: bv8,
    reserved: bv8)

  const SECTOR_HEADER_SIZE: nat := 16

  /** `sector_size_as_bytes`: the size code of the address field. */
  function SectorSizeAsBytes(size: bv8): (n: u16)
    ensures n == 512 <==> size == 2
    ensures n == 1024 <==> size == 3
    ensures n == 0 <==> size != 2 && size != 3
  {
    if size == 2 then 512 else if size == 3 then 1024 else 0
  }

  // ---------------------------------------------------------------------
  // The header and its CRC
  // ---------------------------------------------------------------------

  /** `calculate_crc16`: the register preset to 0xFFFF, then the address
      marks, then the four ID fields. */
  function CalculateCrc16(h: SectorHeader): bv16 {
    var crc := 0xFFFF;
    var crc := StxCrc.AddByte(crc, 0xA1);
    var crc := StxCrc.AddByte(crc, 0xA1);
    var crc := StxCrc.AddByte(crc, 0xA1);
    var crc := StxCrc.AddByte(crc, 0xFE);
    var crc := StxCrc.AddByte(crc, h.idTrack);
    var crc := StxCrc.AddByte(crc, h.idHead);
    var crc := StxCrc.AddByte(crc, h.idSector);
    StxCrc.AddByte(crc, h.idSize)
  }

  /** The CRC of a header is the CRC of the address field read as bytes:
      the marks and the ID fields in order, and, the marks being fixed,
      the four ID fields fed to the register value the marks leave. */
  lemma CalculateCrc16OfAddressField(h: SectorHeader)
    ensures CalculateCrc16(h) == StxCrc.CrcOf(0xFFFF, StxCrc.SYNC_MARKS + [h.idTrack, h.idHead, h.idSector, h.idSize])
    ensures CalculateCrc16(h) == StxCrc.CrcOf(0xB230, [h.idTrack, h.idHead, h.idSector, h.idSize])
  {
    var ids := [h.idTrack, h.idHead, h.idSector, h.idSize];
    StxCrc.CrcOfAppend(0xFFFF, StxCrc.SYNC_MARKS, ids);
    StxCrc.SyncMarksCrc();
    StxCrc.CrcOfFour(0xFFFF, 0xA1, 0xA1, 0xA1, 0xFE);
    StxCrc.CrcOfFour(0xB230, h.idTrack, h.idHead, h.idSector, h.idSize);
  }

  /** The header's sanity check: the stored CRC is the computed one. */
  predicate Check(h: SectorHeader) {
    CalculateCrc16(h) as int == h.idCrc
  }

  /** The ten reads of `stx_sector_header_parser`, before the sanity check. */
  function SectorHeaderFields(s: seq<bv8>): (r: Outcome<SectorHeader>)
    ensures r.Fail? ==> r.failure == Error
  {
    var (i, dataOffset) :- LeU32(s);
    var (i, bitPosition) :- LeU16(i);
    var (i, readTime) :- LeU16(i);
    var (i, idTrack) :- U8(i);
    var (i, idHead) :- U8(i);
    var (i, idSector) :- U8(i);
    var (i, idSize) :- U8(i);
    var (i, idCrc) :- BeU16(i);
    var (i, fdcStatus) :- U8(i);
    var (i, reserved) :- U8(i);
    Done(i, SectorHeader(dataOffset, bitPosition, readTime, idTrack, idHead, idSector, idSize, idCrc, fdcStatus, reserved))
  }

  /** The header layout: little-endian fields except the CRC at bytes 12
      and 13, which is big-endian. */
  function SectorHeaderAt(s: seq<bv8>): SectorHeader
    requires SECTOR_HEADER_SIZE <= |s|
  {
    SectorHeader(
      LeWord(s[0], s[1]) + 0x1_0000 * LeWord(s[2], s[3]),
      LeWord(s[4], s[5]), LeWord(s[6], s[7]),
      s[8], s[9], s[10], s[11],
      LeWord(s[13], s[12]),
      s[14], s[15])
  }

  /** The reads consume exactly sixteen bytes and yield the layout. */
  lemma SectorHeaderLayout(s: seq<bv8>)
    ensures SectorHeaderFields(s).Done? <==> SECTOR_HEADER_SIZE <= |s|
    ensures SECTOR_HEADER_SIZE <= |s| ==> SectorHeaderFields(s) == Done(s[SECTOR_HEADER_SIZE..], SectorHeaderAt(s))
  {
    if |s| < SECTOR_HEADER_SIZE {
      ShortSectorHeader(s);
    } else {
      assert s[4..][2..][2..] == s[8..];
      assert s[8..][1..][1..][1..][1..] == s[12..];
      assert s[12..][2..][1..][1..] == s[16..];
    }
  }

  lemma ShortSectorHeader(s: seq<bv8>)
    requires |s| < SECTOR_HEADER_SIZE
    ensures SectorHeaderFields(s).Fail?
  {
    if 12 <= |s| {
      assert s[4..][2..][2..] == s[8..];
      assert s[8..][1..][1..][1..][1..] == s[12..];
    }
  }

  /** `stx_sector_header_parser` (sector.rs:190-222): the reads, then the
      CRC check, whose failure panics. */
  function SectorHeaderParser(s: seq<bv8>): Outcome<SectorHeader> {
    var (i, h) :- SectorHeaderFields(s);
    if !Check(h) then Fail(Panic) else Done(i, h)
  }

  /** A short input is a plain error, a full one with a bad CRC panics, and
      a good one yields the layout and consumes sixteen bytes. */
  lemma SectorHeaderParserCases(s: seq<bv8>)
    ensures |s| < SECTOR_HEADER_SIZE ==> SectorHeaderParser(s) == Fail(Error)
    ensures SECTOR_HEADER_SIZE <= |s| && !Check(SectorHeaderAt(s)) ==> SectorHeaderParser(s) == Fail(Panic)
    ensures SECTOR_HEADER_SIZE <= |s| && Check(SectorHeaderAt(s)) ==>
      SectorHeaderParser(s) == Done(s[SECTOR_HEADER_SIZE..], SectorHeaderAt(s))
  {
    SectorHeaderLayout(s);
  }

  /** An accepted header is the layout of its sixteen bytes and passes the
      check. */
  lemma SectorHeaderParserDone(s: seq<bv8>)
    requires SectorHeaderParser(s).Done?
    ensures SECTOR_HEADER_SIZE <= |s| && SectorHeaderParser(s).rest == s[SECTOR_HEADER_SIZE..]
    ensures SectorHeaderParser(s).value == SectorHeaderAt(s) && Check(SectorHeaderAt(s))
  {
    SectorHeaderLayout(s);
  }

  /** An accepted header carries the CRC of its own address field. */
  lemma AcceptedHeaderCrc(s: seq<bv8>)
    requires SectorHeaderParser(s).Done?
    ensures SECTOR_HEADER_SIZE <= |s|
    ensures var h := SectorHeaderParser(s).value;
      h == SectorHeaderAt(s) &&
      StxCrc.CrcOf(0xB230, [s[8], s[9], s[10], s[11]]) as int == LeWord(s[13], s[12])
  {
    SectorHeaderLayout(s);
    CalculateCrc16OfAddressField(SectorHeaderAt(s));
  }

  // ---------------------------------------------------------------------
  // Sector data
  // ---------------------------------------------------------------------

  /** Sector `h`'s data lies within `s`: `data_offset` bytes on, as many
      bytes as its size code says. */
  predicate DataFits(h: SectorHeader, s: seq<bv8>) {
    h.dataOffset + SectorSizeAsBytes(h.idSize) <= |s|
  }

  function DataOf(h: SectorHeader, s: seq<bv8>): (d: seq<bv8>)
    requires DataFits(h, s)
    ensures |d| == SectorSizeAsBytes(h.idSize)
  {
    s[h.dataOffset..h.dataOffset + SectorSizeAsBytes(h.idSize)]
  }

  /** What `stx_sector_data_parser` yields: every sector's data measured
      from the same base, with the input left as it was; a sector reaching
      past the end is a plain error. */
  function SectorData(headers: seq<SectorHeader>, s: seq<bv8>): (r: Outcome<seq<seq<bv8>>>)
    ensures r.Done? <==> forall k :: 0 <= k < |headers| ==> DataFits(headers[k], s)
    ensures r.Fail? ==> r.failure == Error
    ensures r.Done? ==> r.rest == s && |r.value| == |headers|
    ensures r.Done? ==> forall k :: 0 <= k < |headers| ==> r.value[k] == DataOf(headers[k], s)
  {
    if forall k :: 0 <= k < |headers| ==> DataFits(headers[k], s) then
      Done(s, seq(|headers|, k requires 0 <= k < |headers| => DataOf(headers[k], s)))
    else Fail(Error)
  }

  /** `stx_sector_data_parser` (sector.rs:127-155). */
  method SectorDataParser(headers: seq<SectorHeader>, i: seq<bv8>) returns (r: Outcome<seq<seq<bv8>>>)
    ensures r == SectorData(headers, i)
  {
    var allSectorData: seq<seq<bv8>> := [];
    for k := 0 to |headers|
      invariant forall j :: 0 <= j < k ==> DataFits(headers[j], i)
      invariant |allSectorData| == k
      invariant forall j :: 0 <= j < k ==> allSectorData[j] == DataOf(headers[j], i)
    {
      var skipped := Take(i, headers[k].dataOffset);
      if skipped.Fail? {
        return Fail(skipped.failure);
      }
      var sectorData := Take(skipped.rest, SectorSizeAsBytes(headers[k].idSize));
      if sectorData.Fail? {
        return Fail(sectorData.failure);
      }
      assert sectorData.value == DataOf(headers[k], i);
      allSectorData := allSectorData + [sectorData.value];
    }
    ghost var expected := SectorData(headers, i);
    assert expected.Done? && |expected.value| == |allSectorData|;
    assert forall j :: 0 <= j < |headers| ==> expected.value[j] == allSectorData[j];
    assert expected.value == allSectorData;
    return Done(i, allSectorData);
  }

  /** `stx_sector_parser_plain(n)` (sector.rs:173-186): `n` sectors of 512
      bytes. */
  function PlainSectors(n: nat, s: seq<bv8>): Outcome<seq<seq<bv8>>> {
    var (i, data) :- Count(TakeParser(512), n, s);
    Done(i, data)
  }

  /** It consumes exactly `512 n` bytes, cut into sectors, and fails with a
      plain error when fewer remain. */
  lemma PlainSectorsLayout(n: nat, s: seq<bv8>)
    ensures PlainSectors(n, s).Done? <==> 512 * n <= |s|
    ensures PlainSectors(n, s).Fail? ==> PlainSectors(n, s).failure == Error
    ensures 512 * n <= |s| ==> PlainSectors(n, s) == Done(s[512 * n..], Chunks(s, 512, n))
  {
    CountTakes(s, 512, n);
  }

  // ---------------------------------------------------------------------
  // The boot sector checksum
  // ---------------------------------------------------------------------

  /** `be_u16` as a parser value. */
  function BeWordParser(): seq<bv8> -> Outcome<u16> {
    t => BeU16(t)
  }

  /** `parse_boot_sector_as_words` (sector.rs:278-280): 256 big-endian
      words. */
  function BootSectorWords(s: seq<bv8>): Outcome<seq<u16>> {
    Count(BeWordParser(), 0x100, s)
  }

  /** The first 512 bytes read as 256 words, high byte first. */
  function WordsOf(s: seq<bv8>): (words: seq<u16>)
    requires 512 <= |s|
    ensures |words| == 0x100
    ensures forall k :: 0 <= k < 0x100 ==> words[k] == s[2 * k] as int * 256 + s[2 * k + 1] as int
  {
    seq(0x100, k requires 0 <= k < 0x100 => LeWord(s[2 * k + 1], s[2 * k]))
  }

  /** The words are the first 512 bytes taken in pairs, high byte first. */
  lemma BootSectorWordsLayout(s: seq<bv8>)
    ensures BootSectorWords(s).Done? <==> 512 <= |s|
    ensures BootSectorWords(s).Fail? ==> BootSectorWords(s).failure == Error
    ensures 512 <= |s| ==> BootSectorWords(s) == Done(s[512..], WordsOf(s))
  {
    assert FixedWidth(BeWordParser(), 2);
    CountFixedWidth(BeWordParser(), 2, 0x100, s);
    if BootSectorWords(s).Done? {
      WordsAgree(s, BootSectorWords(s).value);
    }
  }

  /** Words each read from bytes `2k` and `2k + 1` are `WordsOf`. */
  lemma WordsAgree(s: seq<bv8>, words: seq<u16>)
    requires 512 <= |s| && |words| == 0x100
    requires forall k :: 0 <= k < 0x100 ==> k * 2 + 2 <= |s| && words[k] == BeWordParser()(s[k * 2..]).value
    ensures words == WordsOf(s)
  {
    forall k | 0 <= k < 0x100
      ensures words[k] == WordsOf(s)[k]
    {
      assert k * 2 == 2 * k;
      assert words[k] == BeU16(s[k * 2..]).value;
      assert s[k * 2..][0] == s[2 * k] && s[k * 2..][1] == s[2 * k + 1];
    }
  }

  /** The parse as the checksum sees it: the 256 words, or a plain error
      when the sector is short. */
  method ParseBootSectorAsWords(s: seq<bv8>) returns (r: Outcome<seq<u16>>)
    ensures r.Done? <==> 512 <= |s|
    ensures r.Fail? ==> r.failure == Error
    ensures r.Done? ==> r.value == WordsOf(s)
  {
    r := BootSectorWords(s);
    BootSectorWordsLayout(s);
  }

  /** The running sum of `calculate_boot_sector_sum_from_words`: each word
      is added and the total reduced modulo 0xFFFF. */
  function WordSum(words: seq<u16>): (sum: nat)
    ensures sum < 0xFFFF
  {
    if words == [] then 0 else (WordSum(words[..|words| - 1]) + words[|words| - 1]) % 0xFFFF
  }

  lemma WordSumStep(words: seq<u16>, k: nat)
    requires k < |words|
    ensures WordSum(words[..k + 1]) == (WordSum(words[..k]) + words[k]) % 0xFFFF
  {
    assert words[..k + 1][..k] == words[..k];
  }

  /** The plain sum of the words. */
  function Sum(words: seq<u16>): nat {
    if words == [] then 0 else Sum(words[..|words| - 1]) + words[|words| - 1]
  }

  /** Reducing at every step is reducing the total once. */
  lemma {:induction false} WordSumIsSumModFFFF(words: seq<u16>)
    ensures WordSum(words) == Sum(words) % 0xFFFF
  {
    if words != [] {
      var init := words[..|words| - 1];
      WordSumIsSumModFFFF(init);
    }
  }

  /** `calculate_boot_sector_sum_from_words` (sector.rs:292-307): fewer
      than 512 bytes panic; otherwise the sector is bootable when the sum
      is 0x1234. */
  method CalculateBootSectorSumFromWords(sectorData: seq<bv8>) returns (r: Result<bool>)
    ensures r.Err? <==> |sectorData| < 512
    ensures r.Err? ==> r.error == Panicked
    ensures r.Ok? ==> r.value == (Sum(WordsOf(sectorData)) % 0xFFFF == 0x1234)
  {
    var sum: u32 := 0;
    var wordsResult := ParseBootSectorAsWords(sectorData);
    if wordsResult.Fail? {
      return Err(Panicked);
    }
    var words := wordsResult.value;
    for k := 0 to |words|
      invariant sum == WordSum(words[..k])
    {
      WordSumStep(words, k);
      sum := (sum + words[k]) % 0xFFFF;
    }
    assert words[..|words|] == words;
    WordSumIsSumModFFFF(words);
    return Ok(sum == 0x1234);
  }

  /** The unit test of sector.rs:366-376: a sector starting 0x12 0x34 and
      otherwise zero is bootable. */
  lemma BootSectorExample(s: seq<bv8>)
    requires |s| == 512 && s[0] == 0x12 && s[1] == 0x34
    requires forall k :: 2 <= k < 512 ==> s[k] == 0
    ensures Sum(WordsOf(s)) % 0xFFFF == 0x1234
  {
    var words := WordsOf(s);
    forall k | 1 <= k < |words|
      ensures words[k] == 0
    {
      assert s[2 * k] == 0 && s[2 * k + 1] == 0;
    }
    assert words[0] == 0x1234;
    SumOfHeadAndZeros(words);
  }

  /** A word sequence that is zero after its first word sums to that word. */
  lemma {:induction false} SumOfHeadAndZeros(words: seq<u16>)
    requires 0 < |words|
    requires forall k :: 1 <= k < |words| ==> words[k] == 0
    ensures Sum(words) == words[0]
  {
    if |words| > 1 {
      var init := words[..|words| - 1];
      assert init[0] == words[0];
      SumOfHeadAndZeros(init);
    }
  }

  // ---------------------------------------------------------------------
  // The boot sector checksum as the Atari ST defines it
  // ---------------------------------------------------------------------

  /** The boot sector is executable when its 256 big-endian words add up
      to 0x1234 in 16-bit arithmetic, which wraps at 0x10000. */
  predicate ExecutableBootSector(words: seq<u16>) {
    Sum(words) % 0x1_0000 == 0x1234
  }

  /** The same check with a 16-bit accumulator that wraps, as the machine
      computes it. */
  function WrappingSum(words: seq<u16>): (sum: u16) {
    if words == [] then 0 else (WrappingSum(words[..|words| - 1]) + words[|words| - 1]) % 0x1_0000
  }

  lemma WrappingSumStep(words: seq<u16>, k: nat)
    requires k < |words|
    ensures WrappingSum(words[..k + 1]) == (WrappingSum(words[..k]) + words[k]) % 0x1_0000
  {
    assert words[..k + 1][..k] == words[..k];
  }

  lemma {:induction false} WrappingSumIsSumMod(words: seq<u16>)
    ensures WrappingSum(words) == Sum(words) % 0x1_0000
  {
    if words != [] {
      var init := words[..|words| - 1];
      WrappingSumIsSumMod(init);
    }
  }

  /** The checksum computed with a wrapping 16-bit accumulator. */
  method BootSectorChecksum(sectorData: seq<bv8>) returns (r: Result<bool>)
    ensures r.Err? <==> |sectorData| < 512
    ensures r.Err? ==> r.error == Panicked
    ensures r.Ok? ==> r.value == ExecutableBootSector(WordsOf(sectorData))
  {
    var sum: u16 := 0;
    var wordsResult := ParseBootSectorAsWords(sectorData);
    if wordsResult.Fail? {
      return Err(Panicked);
    }
    var words := wordsResult.value;
    for k := 0 to |words|
      invariant sum == WrappingSum(words[..k])
    {
      WrappingSumStep(words, k);
      sum := (sum + words[k]) % 0x1_0000;
    }
    assert words[..|words|] == words;
    WrappingSumIsSumMod(words);
    return Ok(sum == 0x1234);
  }

  /** Reducing modulo 0xFFFF instead of 0x10000 misjudges sectors: one
      whose first words are 0xFFFF and 0x1235 and whose other words are
      zero adds up to 0x11234, which is 0x1234 in 16-bit arithmetic but
      0x1235 modulo 0xFFFF. */
  lemma ModFFFFMisjudgesSector(words: seq<u16>)
    requires |words| == 0x100 && words[0] == 0xFFFF && words[1] == 0x1235
    requires forall k :: 2 <= k < |words| ==> words[k] == 0
    ensures ExecutableBootSector(words)
    ensures WordSum(words) != 0x1234
  {
    SumOfTwoAndZeros(words);
    WordSumIsSumModFFFF(words);
  }

  /** A word sequence that is zero after its first two words sums to
      those two words. */
  lemma {:induction false} SumOfTwoAndZeros(words: seq<u16>)
    requires 1 < |words|
    requires forall k :: 2 <= k < |words| ==> words[k] == 0
    ensures Sum(words) == words[0] as int + words[1] as int
  {
    if |words| > 2 {
      var init := words[..|words| - 1];
      assert init[0] == words[0] && init[1] == words[1];
      SumOfTwoAndZeros(init);
    } else {
      assert words[..1][..0] == [];
      assert Sum(words[..1]) == words[0];
    }
  }
}
