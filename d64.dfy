/** Commodore 1541 D64 images (commodore/d64.rs): the track zones, the
    Block Availability Map (BAM), directory entries and the disk parser. */
module D64 {
  import opened Parsing

  // ---------------------------------------------------------------------
  // Track zones
  // ---------------------------------------------------------------------

  /** Where the BAM parser looks for the BAM: 17 tracks of 21 blocks of
      256 bytes. */
  const BAM_OFFSET: nat := 0x16500

  /** `track_to_block_length` (d64.rs:96-104), as written: the Rust ranges
      `1..17`, `17..24`, `24..30` and `30..35` exclude their upper ends, so
      tracks 1 to 34 have a length and track 35 is an error. */
  function TrackToBlockLength(track: u8): (r: Result<u8>)
    ensures r.Ok? <==> 1 <= track <= 34
    ensures r.Err? ==> r.error == ErrorKind.Invalid
    ensures r.Ok? ==> (r.value == 21 <==> track <= 16) && (r.value == 17 <==> 30 <= track)
  {
    if 1 <= track < 17 then Ok(21)
    else if 17 <= track < 24 then Ok(19)
    else if 24 <= track < 30 then Ok(18)
    else if 30 <= track < 35 then Ok(17)
    else Err(ErrorKind.Invalid)
  }

  /** Outer tracks hold at least as many blocks as inner ones. */
  lemma BlockLengthNeverIncreases(a: u8, b: u8)
    requires a <= b && TrackToBlockLength(a).Ok? && TrackToBlockLength(b).Ok?
    ensures TrackToBlockLength(b).value <= TrackToBlockLength(a).value
  {
  }

  /** The blocks on tracks 1 to `t` by the table as written, a track
      without a length counting none. */
  function AsWrittenBlocksBefore(t: nat): nat
    requires t <= 35
  {
    if t == 0 then 0
    else
      var len := TrackToBlockLength(t);
      AsWrittenBlocksBefore(t - 1) + (if len.Ok? then len.value else 0)
  }

  /** The zone table as written: tracks 1 to 17 hold 355 blocks, so track
      18, where the BAM lives, would start at byte 0x16300 instead of the
      0x16500 the BAM parser skips; and the 35 tracks hold 662 blocks
      instead of the 683 of a 1541 disk. */
  lemma {:induction false} AsWrittenZonesMisplaceBam()
    ensures AsWrittenBlocksBefore(17) == 355 && AsWrittenBlocksBefore(17) * 256 != BAM_OFFSET
    ensures AsWrittenBlocksBefore(35) == 662
    ensures TrackToBlockLength(35).Err?
  {
    AsWrittenBlocksBeforeClosed(17);
    AsWrittenBlocksBeforeClosed(35);
  }

  lemma {:induction false} AsWrittenBlocksBeforeClosed(t: nat)
    requires t <= 35
    ensures AsWrittenBlocksBefore(t) ==
      if t <= 16 then 21 * t
      else if t <= 23 then 336 + 19 * (t - 16)
      else if t <= 29 then 469 + 18 * (t - 23)
      else if t <= 34 then 577 + 17 * (t - 29)
      else 662
    decreases t
  {
    if t > 0 {
      AsWrittenBlocksBeforeClosed(t - 1);
    }
  }

  /** The zone table of a 1541 disk: tracks 1 to 17 hold 21 blocks, 18 to
      24 hold 19, 25 to 30 hold 18 and 31 to 35 hold 17. */
  function CorrectedTrackToBlockLength(track: u8): (r: Result<u8>)
    ensures r.Ok? <==> 1 <= track <= 35
    ensures r.Err? ==> r.error == ErrorKind.Invalid
    ensures r.Ok? ==> (r.value == 21 <==> track <= 17) && (r.value == 17 <==> 31 <= track)
  {
    if 1 <= track <= 17 then Ok(21)
    else if 18 <= track <= 24 then Ok(19)
    else if 25 <= track <= 30 then Ok(18)
    else if 31 <= track <= 35 then Ok(17)
    else Err(ErrorKind.Invalid)
  }

  /** The blocks on tracks 1 to `t` by the corrected table: the number of
      the first block of track `t + 1`. */
  function BlocksBefore(t: nat): nat
    requires t <= 35
  {
    if t == 0 then 0 else BlocksBefore(t - 1) + CorrectedTrackToBlockLength(t).value
  }

  lemma {:induction false} BlocksBeforeClosed(t: nat)
    requires t <= 35
    ensures BlocksBefore(t) ==
      if t <= 17 then 21 * t
      else if t <= 24 then 357 + 19 * (t - 17)
      else if t <= 30 then 490 + 18 * (t - 24)
      else 598 + 17 * (t - 30)
    decreases t
  {
    if t > 0 {
      BlocksBeforeClosed(t - 1);
    }
  }

  /** The corrected table fills a 1541 disk (683 blocks, d64.rs:79-87),
      and track 18 starts at the BAM offset. */
  lemma CorrectedZonesPlaceBam()
    ensures BlocksBefore(35) == 683
    ensures BlocksBefore(17) * 256 == BAM_OFFSET
  {
    BlocksBeforeClosed(35);
    BlocksBeforeClosed(17);
  }

  /** `block_to_track` (d64.rs:114-122), as written. */
  function BlockToTrack(block: u16): (r: Result<u16>)
    ensures r.Ok? <==> block < 682
    ensures r.Err? ==> r.error == ErrorKind.Invalid
  {
    if block < 356 then Ok(block / 21)
    else if block < 489 then Ok(block / 19 + 17)
    else if block < 597 then Ok(block / 18 + 24)
    else if block < 682 then Ok(block / 17 + 30)
    else Err(ErrorKind.Invalid)
  }

  /** The formula as written: block 355 is on track 16, the next block on
      track 35, and the last block it accepts on track 70 of a 35-track
      disk. */
  lemma BlockToTrackJumps()
    ensures BlockToTrack(355) == Ok(16)
    ensures BlockToTrack(356) == Ok(35)
    ensures BlockToTrack(681) == Ok(70)
  {
  }

  /** The track, numbered from 0, that holds a block, blocks numbered from
      0 in track order. */
  function CorrectedBlockToTrack(block: u16): (r: Result<u16>)
    ensures r.Ok? <==> block < 683
    ensures r.Err? ==> r.error == ErrorKind.Invalid
    ensures r.Ok? ==> r.value < 35
  {
    if block < 357 then Ok(block / 21)
    else if block < 490 then Ok(17 + (block - 357) / 19)
    else if block < 598 then Ok(24 + (block - 490) / 18)
    else if block < 683 then Ok(30 + (block - 598) / 17)
    else Err(ErrorKind.Invalid)
  }

  /** The corrected mapping agrees with the corrected zone table: a block
      is on track `t` exactly when it lies between the first block of `t`
      and the first block of `t + 1`. */
  lemma CorrectedBlockToTrackIsZoneIndex(block: u16, t: nat)
    requires t < 35
    ensures CorrectedBlockToTrack(block) == Ok(t) <==> BlocksBefore(t) <= block < BlocksBefore(t + 1)
  {
    BlocksBeforeClosed(t);
    BlocksBeforeClosed(t + 1);
    ZoneIndex(block, t, BlocksBefore(t), BlocksBefore(t + 1));
  }

  /** The same with the zone bounds given in closed form. */
  lemma ZoneIndex(block: u16, t: nat, lo: int, hi: int)
    requires t < 35
    requires lo == if t <= 17 then 21 * t
      else if t <= 24 then 357 + 19 * (t - 17)
      else if t <= 30 then 490 + 18 * (t - 24)
      else 598 + 17 * (t - 30)
    requires hi == if t + 1 <= 17 then 21 * (t + 1)
      else if t + 1 <= 24 then 357 + 19 * (t + 1 - 17)
      else if t + 1 <= 30 then 490 + 18 * (t + 1 - 24)
      else 598 + 17 * (t + 1 - 30)
    ensures CorrectedBlockToTrack(block) == Ok(t) <==> lo <= block as int < hi
  {
    var b := block as int;
    if t < 17 {
      DivBy21(b, t);
    } else if t < 24 {
      DivBy19(b - 357, t - 17);
    } else if t < 30 {
      DivBy18(b - 490, t - 24);
    } else {
      DivBy17(b - 598, t - 30);
    }
  }

  /** Division by the zone sizes pinned down by its bounds. */
  lemma DivBy21(x: int, q: int)
    ensures x / 21 == q <==> 21 * q <= x < 21 * q + 21
  {
  }

  lemma DivBy19(x: int, q: int)
    ensures x / 19 == q <==> 19 * q <= x < 19 * q + 19
  {
  }

  lemma DivBy18(x: int, q: int)
    ensures x / 18 == q <==> 18 * q <= x < 18 * q + 18
  {
  }

  lemma DivBy17(x: int, q: int)
    ensures x / 17 == q <==> 17 * q <= x < 17 * q + 17
  {
  }

  // ---------------------------------------------------------------------
  // Sector use bitmaps
  // ---------------------------------------------------------------------

  /** The low `n` bits of `x`, least significant first: bit 0, then
      the value shifted right, as `bam_entry_to_boolean_vector` does. */
  function Bits(x: nat, n: nat): (bits: seq<bool>)
    ensures |bits| == n
  {
    if n == 0 then [] else [x % 2 == 1] + Bits(x / 2, n - 1)
  }

  /** The number whose binary digits, least significant first, are `bits`. */
  function FromBits(bits: seq<bool>): nat {
    if bits == [] then 0 else (if bits[0] then 1 else 0) + 2 * FromBits(bits[1..])
  }

  function Pow2(n: nat): (p: nat)
    ensures 1 <= p
  {
    if n == 0 then 1 else 2 * Pow2(n - 1)
  }

  /** Bits and FromBits are inverse on numbers of `n` bits. */
  lemma {:induction false} BitsRoundTrip(x: nat, n: nat)
    requires x < Pow2(n)
    ensures FromBits(Bits(x, n)) == x
    decreases n
  {
    if n > 0 {
      BitsRoundTrip(x / 2, n - 1);
      assert Bits(x, n)[1..] == Bits(x / 2, n - 1);
    }
  }

  /** Fewer bits are a prefix of more. */
  lemma {:induction false} BitsPrefix(x: nat, n: nat, m: nat)
    requires n <= m
    ensures Bits(x, n) == Bits(x, m)[..n]
    decreases n
  {
    if n > 0 {
      BitsPrefix(x / 2, n - 1, m - 1);
    }
  }

  /** `[u8; 3]` */
  type Bitmap = s: seq<bv8> | |s| == 3 witness [0, 0, 0]

  /** `D64BAMEntry`: the free-sector count and the three bitmap bytes. */
  datatype BamEntry = BamEntry(freeSectorsOnTrack: bv8, sectorUseBitmap: Bitmap)

  /** The 21 sector flags of a BAM entry: eight bits of the first byte,
      eight of the second, five of the third, least significant first. */
  function SectorUse(m: Bitmap): seq<bool> {
    Bits(m[0] as nat, 8) + Bits(m[1] as nat, 8) + Bits(m[2] as nat, 5)
  }

  /** `bam_entry_to_boolean_vector` (d64.rs:179-203): three loops, each
      testing bit 0 of `tmp` and shifting it right. */
  method BamEntryToBooleanVector(e: BamEntry) returns (bits: seq<bool>)
    ensures bits == SectorUse(e.sectorUseBitmap)
  {
    var m := e.sectorUseBitmap;
    ghost var first := Bits(m[0] as nat, 8);
    ghost var second := first + Bits(m[1] as nat, 8);
    bits := [];
    var tmp := m[0] as nat;
    for i := 0 to 8
      invariant bits + Bits(tmp, 8 - i) == first
    {
      PushBit(bits, tmp, 8 - i, first);
      bits := bits + [tmp % 2 == 1];
      tmp := tmp / 2;
    }
    tmp := m[1] as nat;
    for i := 0 to 8
      invariant bits + Bits(tmp, 8 - i) == second
    {
      PushBit(bits, tmp, 8 - i, second);
      bits := bits + [tmp % 2 == 1];
      tmp := tmp / 2;
    }
    tmp := m[2] as nat;
    for i := 0 to 5
      invariant bits + Bits(tmp, 5 - i) == SectorUse(m)
    {
      PushBit(bits, tmp, 5 - i, SectorUse(m));
      bits := bits + [tmp % 2 == 1];
      tmp := tmp / 2;
    }
  }

  /** One step of the loops: testing bit 0 and shifting moves one flag
      from the bits still to read to the flags already pushed. */
  lemma PushBit(bits: seq<bool>, x: nat, n: nat, target: seq<bool>)
    requires 0 < n && bits + Bits(x, n) == target
    ensures (bits + [x % 2 == 1]) + Bits(x / 2, n - 1) == target
  {
    assert Bits(x, n) == [x % 2 == 1] + Bits(x / 2, n - 1);
  }

  /** The flags encode the bitmap: 21 of them, the first eight spell the
      first byte, the next eight the second, and the last five are the low
      bits of the third. */
  lemma SectorUseDecodes(m: Bitmap)
    ensures var bits := SectorUse(m);
      |bits| == 21 &&
      FromBits(bits[..8]) == m[0] as nat && FromBits(bits[8..16]) == m[1] as nat &&
      bits[16..] == Bits(m[2] as nat, 8)[..5]
  {
    var bits := SectorUse(m);
    assert Pow2(8) == 256;
    assert bits[..8] == Bits(m[0] as nat, 8);
    assert bits[8..16] == Bits(m[1] as nat, 8);
    assert bits[16..] == Bits(m[2] as nat, 5);
    BitsRoundTrip(m[0] as nat, 8);
    BitsRoundTrip(m[1] as nat, 8);
    BitsPrefix(m[2] as nat, 5, 8);
  }

  /** `bitmap_to_chars` (d64.rs:205-212): one character per flag. */
  function BitmapToChars(bits: seq<bool>, used: char, unused: char): (r: string)
    ensures |r| == |bits|
    ensures forall i :: 0 <= i < |bits| ==> r[i] == if bits[i] then used else unused
  {
    seq(|bits|, i requires 0 <= i < |bits| => if bits[i] then used else unused)
  }

  /** Reading the characters back. */
  function CharsToBitmap(chars: string, used: char): (bits: seq<bool>)
    ensures |bits| == |chars|
  {
    seq(|chars|, i requires 0 <= i < |chars| => chars[i] == used)
  }

  /** With two different characters the rendering loses nothing. */
  lemma BitmapCharsRoundTrip(bits: seq<bool>, used: char, unused: char)
    requires used != unused
    ensures CharsToBitmap(BitmapToChars(bits, used, unused), used) == bits
  {
    var r := CharsToBitmap(BitmapToChars(bits, used, unused), used);
    assert forall i :: 0 <= i < |bits| ==> r[i] == bits[i];
  }

  /** The flags of the unit tests of d64.rs:711-769: the entry 0x11, 0xD7,
      0x5F, 0x1F. */
  function ExampleFlags(): seq<bool> {
    [true, true, true, false, true, false, true, true,
     true, true, true, true, true, false, true, false,
     true, true, true, true, true]
  }

  lemma SectorUseExample()
    ensures SectorUse([0xD7, 0x5F, 0x1F]) == ExampleFlags()
  {
    BitsOfD7();
    BitsOf5F();
    BitsOf1F();
  }

  lemma BitsOfD7()
    ensures Bits(0xD7, 8) == [true, true, true, false, true, false, true, true]
  {
  }

  lemma BitsOf5F()
    ensures Bits(0x5F, 8) == [true, true, true, true, true, false, true, false]
  {
  }

  lemma BitsOf1F()
    ensures Bits(0x1F, 5) == [true, true, true, true, true]
  {
  }

  /** The renderings the same tests expect. */
  lemma BitmapToCharsExample()
    ensures BitmapToChars(ExampleFlags(), 'X', '-') == "XXX-X-XXXXXXX-X-XXXXX"
    ensures BitmapToChars(ExampleFlags(), '1', '0') == "111010111111101011111"
  {
    ExampleChars('X', '-', "XXX-X-XXXXXXX-X-XXXXX");
    ExampleChars('1', '0', "111010111111101011111");
  }

  lemma ExampleChars(used: char, unused: char, expected: string)
    requires |expected| == 21
    requires forall i :: 0 <= i < 21 ==> expected[i] == if ExampleFlags()[i] then used else unused
    ensures BitmapToChars(ExampleFlags(), used, unused) == expected
  {
  }

  // ---------------------------------------------------------------------
  // File status and file type
  // ---------------------------------------------------------------------

  /** `FileStatus`: the high nibble of the directory's file-type byte. */
  datatype FileStatus = Normal | Unclosed | AtReplacement | Locked | Invalid

  /** `FileType`: the low nibble of the same byte. */
  datatype FileType = Deleted | Sequential | Program | User | Relative | Invalid

  /** The discriminants of `FileStatus` (d64.rs:312-326). */
  function StatusCode(st: FileStatus): nat
    requires !st.Invalid?
  {
    match st
    case Normal => 0x80
    case Unclosed => 0x00
    case AtReplacement => 0xA0
    case Locked => 0xC0
  }

  /** The discriminants of `FileType` (d64.rs:328-345). */
  function TypeCode(ft: FileType): nat
    requires !ft.Invalid?
  {
    match ft
    case Deleted => 0
    case Sequential => 1
    case Program => 2
    case User => 3
    case Relative => 4
  }

  /** `FileStatus::from` (d64.rs:361-374): `num & 0xF0` against the
      discriminants. */
  function FileStatusFrom(num: bv8): FileStatus {
    var high := num as int / 16;
    if high == 0x8 then Normal
    else if high == 0x0 then Unclosed
    else if high == 0xA then AtReplacement
    else if high == 0xC then Locked
    else FileStatus.Invalid
  }

  /** `FileType::from` (d64.rs:376-390): `num & 0x0F` against the
      discriminants. */
  function FileTypeFrom(num: bv8): FileType {
    var low := num as int % 16;
    if low == 0 then Deleted
    else if low == 1 then Sequential
    else if low == 2 then Program
    else if low == 3 then User
    else if low == 4 then Relative
    else FileType.Invalid
  }

  /** A status is read from the high nibble alone: every byte whose high
      nibble is a status's discriminant decodes to that status, and a byte
      decodes to a valid status only in that way. */
  lemma FileStatusDecodes(num: bv8, st: FileStatus)
    requires !st.Invalid?
    ensures FileStatusFrom(num) == st <==> num as int - num as int % 16 == StatusCode(st)
  {
  }

  /** A type is read from the low nibble alone, in the same way. */
  lemma FileTypeDecodes(num: bv8, ft: FileType)
    requires !ft.Invalid?
    ensures FileTypeFrom(num) == ft <==> num as int % 16 == TypeCode(ft)
  {
  }

  /** `ExtendedFileType`: the status and the type of one byte. */
  datatype ExtendedFileType = ExtendedFileType(fileStatus: FileStatus, fileType: FileType)

  function ExtendedFileTypeFrom(num: bv8): ExtendedFileType {
    ExtendedFileType(FileStatusFrom(num), FileTypeFrom(num))
  }

  /** Every combination of a valid status and a valid type has a byte,
      which decodes back to it. */
  lemma ExtendedFileTypeRoundTrip(st: FileStatus, ft: FileType)
    requires !st.Invalid? && !ft.Invalid?
    ensures StatusCode(st) + TypeCode(ft) < 0x100
    ensures ExtendedFileTypeFrom(ByteOf(StatusCode(st) + TypeCode(ft))) == ExtendedFileType(st, ft)
  {
    var b := ByteOf(StatusCode(st) + TypeCode(ft));
    FileStatusDecodes(b, st);
    FileTypeDecodes(b, ft);
  }

  // ---------------------------------------------------------------------
  // BAM entries and file entries
  // ---------------------------------------------------------------------

  /** `bam_entry_parser` (d64.rs:445-458): the free count and three bitmap
      bytes. */
  function BamEntryParser(s: seq<bv8>): Outcome<BamEntry> {
    var (i, free) :- U8(s);
    var (i, bm) :- Take(i, 3);
    Done(i, BamEntry(free, [bm[0], bm[1], bm[2]]))
  }

  function BamEntryAt(s: seq<bv8>): BamEntry
    requires 4 <= |s|
  {
    BamEntry(s[0], s[1..4])
  }

  /** A BAM entry is the next four bytes; a shorter input is a plain error. */
  lemma BamEntryLayout(s: seq<bv8>)
    ensures BamEntryParser(s).Done? <==> 4 <= |s|
    ensures BamEntryParser(s).Fail? ==> BamEntryParser(s).failure == Error
    ensures 4 <= |s| ==> BamEntryParser(s) == Done(s[4..], BamEntryAt(s))
  {
    if 4 <= |s| {
      var bm := s[1..][..3];
      assert [bm[0], bm[1], bm[2]] == s[1..4];
    }
  }

  function BamEntryParserValue(): seq<bv8> -> Outcome<BamEntry> {
    t => BamEntryParser(t)
  }

  lemma BamEntryFixedWidth()
    ensures FixedWidth(BamEntryParserValue(), 4)
  {
    forall t: seq<bv8>
      ensures (BamEntryParserValue()(t).Done? <==> 4 <= |t|)
      ensures BamEntryParserValue()(t).Done? ==> BamEntryParserValue()(t).rest == t[4..]
      ensures BamEntryParserValue()(t).Fail? ==> BamEntryParserValue()(t).failure == Error
    {
      BamEntryLayout(t);
    }
  }

  /** `FileEntry`: one 30-byte directory entry. The name stays the raw 16
      bytes. */
  datatype FileEntry = FileEntry(
    fileType: ExtendedFileType,
    trackOfFirstDataBlock: bv8,
    sectorOfFirstDataBlock: bv8,
    fileName: seq<bv8>,
    trackOfFirstSideSectorBlock: bv8,
    sectorOfFirstSideSectorBlock: bv8,
    recordSize: bv8,
    unused: seq<bv8>,
    trackOfReplacementFile: bv8,
    sectorOfReplacementFile: bv8,
    numberOfBlocksInFile: u16)

  const FILE_ENTRY_SIZE: nat := 30

  /** `d64_file_entry_parser` (d64.rs:553-604). */
  function FileEntryParser(s: seq<bv8>): Outcome<FileEntry> {
    var (i, ft) :- U8(s);
    var (i, track) :- U8(i);
    var (i, sector) :- U8(i);
    var (i, name) :- Take(i, 16);
    var (i, sideTrack) :- U8(i);
    var (i, sideSector) :- U8(i);
    var (i, recordSize) :- U8(i);
    var (i, unused) :- Take(i, 4);
    var (i, replacementTrack) :- U8(i);
    var (i, replacementSector) :- U8(i);
    var (i, blocks) :- LeU16(i);
    Done(i, FileEntry(ExtendedFileTypeFrom(ft), track, sector, name, sideTrack, sideSector, recordSize,
      unused, replacementTrack, replacementSector, blocks))
  }

  /** The fields at their offsets; the block count is little-endian. */
  function FileEntryAt(s: seq<bv8>): FileEntry
    requires FILE_ENTRY_SIZE <= |s|
  {
    FileEntry(ExtendedFileTypeFrom(s[0]), s[1], s[2], s[3..19], s[19], s[20], s[21], s[22..26], s[26], s[27],
      LeWord(s[28], s[29]))
  }

  /** A file entry is the next thirty bytes; a shorter input is a plain
      error. */
  lemma FileEntryLayout(s: seq<bv8>)
    ensures FileEntryParser(s).Done? <==> FILE_ENTRY_SIZE <= |s|
    ensures FileEntryParser(s).Fail? ==> FileEntryParser(s).failure == Error
    ensures FILE_ENTRY_SIZE <= |s| ==> FileEntryParser(s) == Done(s[FILE_ENTRY_SIZE..], FileEntryAt(s))
  {
    if 3 <= |s| {
      assert s[1..][1..][1..] == s[3..];
      if 19 <= |s| {
        assert s[3..][16..] == s[19..] && s[3..][..16] == s[3..19];
        if 22 <= |s| {
          assert s[19..][1..][1..][1..] == s[22..];
          if 28 <= |s| {
            assert s[22..][4..] == s[26..] && s[22..][..4] == s[22..26];
            assert s[26..][1..][1..] == s[28..];
            if 30 <= |s| {
              assert s[28..][2..] == s[30..];
            }
          }
        }
      }
    }
  }

  function FileEntryParserValue(): seq<bv8> -> Outcome<FileEntry> {
    t => FileEntryParser(t)
  }

  lemma FileEntryFixedWidth()
    ensures FixedWidth(FileEntryParserValue(), FILE_ENTRY_SIZE)
  {
    forall t: seq<bv8>
      ensures (FileEntryParserValue()(t).Done? <==> FILE_ENTRY_SIZE <= |t|)
      ensures FileEntryParserValue()(t).Done? ==> FileEntryParserValue()(t).rest == t[FILE_ENTRY_SIZE..]
      ensures FileEntryParserValue()(t).Fail? ==> FileEntryParserValue()(t).failure == Error
    {
      FileEntryLayout(t);
    }
  }

  /** The unit test of d64.rs:771-796: a closed program ("HOW TO USE") of
      0xD0 blocks starting at track 17, sector 0. */
  lemma FileEntryExample(s: seq<bv8>)
    requires |s| == 30 && s[0] == 0x82 && s[1] == 0x11 && s[2] == 0 && s[28] == 0xD0 && s[29] == 0
    ensures FileEntryParser(s).Done?
    ensures var e := FileEntryParser(s).value;
      e.fileType == ExtendedFileType(Normal, Program) &&
      e.trackOfFirstDataBlock == 0x11 && e.sectorOfFirstDataBlock == 0 && e.numberOfBlocksInFile == 0xD0
  {
    FileEntryLayout(s);
  }

  // ---------------------------------------------------------------------
  // The Block Availability Map
  // ---------------------------------------------------------------------

  datatype DosType = Cbm

  /** `D64BlockAvailabilityMap`; the disk name stays the raw 16 bytes. */
  datatype Bam = Bam(
    firstDirectorySectorTrack: bv8,
    firstDirectorySectorSector: bv8,
    diskDosVersion: bv8,
    reserved: bv8,
    bamEntries: seq<BamEntry>,
    diskName: seq<bv8>,
    secondReserved: seq<bv8>,
    diskId: u16,
    thirdReserved: bv8,
    dosType: DosType)

  /** One BAM entry per track. */
  const BAM_ENTRIES: nat := 35

  /** The BAM fills one 256-byte sector. */
  const BAM_SIZE: nat := 256

  /** "2A", the DOS type of CBM DOS. */
  const DOS_TYPE: seq<bv8> := [0x32, 0x41]

  /** `verify(le_u8, |v| *v == b)`: the next byte, which must be `b`. */
  function ByteIs(s: seq<bv8>, b: bv8): (r: Outcome<bv8>)
    ensures r.Done? <==> 1 <= |s| && s[0] == b
    ensures r.Done? ==> r == Done(s[1..], b)
    ensures r.Fail? ==> r.failure == Error
  {
    var (i, v) :- U8(s);
    if v == b then Done(i, v) else Fail(Error)
  }

  /** `d64_block_availability_map_parser` (d64.rs:499-550): skip to the
      BAM, then read the sector. */
  function BamParser(s: seq<bv8>): Outcome<Bam> {
    var (i, _) :- Take(s, BAM_OFFSET);
    BamRecord(i)
  }

  /** The reads of the BAM sector (d64.rs:509-528): the fixed head, then
      the entries and the tail. */
  function BamRecord(t: seq<bv8>): Outcome<Bam> {
    var (i, head) :- BamHead(t);
    BamBody(head, i)
  }

  /** The directory pointer, which must be 0x12, 0x01, the DOS version,
      which must be 0x41, and a reserved byte. */
  function BamHead(t: seq<bv8>): Outcome<(bv8, bv8, bv8, bv8)> {
    var (i, track) :- ByteIs(t, 0x12);
    var (i, sector) :- ByteIs(i, 0x01);
    var (i, version) :- ByteIs(i, 0x41);
    var (i, reserved) :- U8(i);
    Done(i, (track, sector, version, reserved))
  }

  /** The 35 entries, one per track, then the tail. */
  function BamBody(head: (bv8, bv8, bv8, bv8), i: seq<bv8>): Outcome<Bam> {
    var (i, entries) :- Count(BamEntryParserValue(), BAM_ENTRIES, i);
    var (i, tail) :- BamTail(i);
    Done(i, Bam(head.0, head.1, head.2, head.3, entries,
      tail.diskName, tail.secondReserved, tail.diskId, tail.thirdReserved, tail.dosType))
  }

  /** The fields after the entries. */
  datatype BamTailFields = BamTailFields(
    diskName: seq<bv8>, secondReserved: seq<bv8>, diskId: u16, thirdReserved: bv8, dosType: DosType)

  /** The reads after the entries: the name, two reserved bytes, the disk
      id, a reserved byte, "2A", and 89 bytes skipped. */
  function BamTail(i: seq<bv8>): Outcome<BamTailFields> {
    var (i, name) :- Take(i, 16);
    var (i, secondReserved) :- Take(i, 2);
    var (i, diskId) :- LeU16(i);
    var (i, thirdReserved) :- U8(i);
    var (i, _) :- Tag(i, DOS_TYPE);
    var (i, _) :- Take(i, 2);
    var (i, _) :- Take(i, 84);
    var (i, _) :- Take(i, 3);
    Done(i, BamTailFields(name, secondReserved, diskId, thirdReserved, Cbm))
  }

  lemma BamTailLayout(i: seq<bv8>)
    ensures BamTail(i).Done? <==> 112 <= |i| && i[21] == DOS_TYPE[0] && i[22] == DOS_TYPE[1]
    ensures BamTail(i).Fail? ==> BamTail(i).failure == Error
    ensures BamTail(i).Done? ==>
      BamTail(i) == Done(i[112..], BamTailFields(i[..16], i[16..18], LeWord(i[18], i[19]), i[20], Cbm))
  {
    if 21 <= |i| {
      assert i[16..][2..][2..][1..] == i[21..];
      assert i[16..][..2] == i[16..18];
      if 23 <= |i| {
        assert i[21..][..2] == [i[21], i[22]];
        assert i[21..][2..] == i[23..];
        if 112 <= |i| {
          assert i[23..][2..][84..][3..] == i[112..];
        }
      }
    }
  }

  /** The first `n` BAM entries at their offsets, one per track. */
  function BamEntriesAt(t: seq<bv8>, n: nat): (entries: seq<BamEntry>)
    requires 4 + 4 * n <= |t|
    ensures |entries| == n
  {
    seq(n, k requires 0 <= k < n => BamEntryAt(t[4 + 4 * k..]))
  }

  /** The fields of the BAM sector at their offsets. */
  function BamAt(t: seq<bv8>): Bam
    requires BAM_SIZE <= |t|
  {
    Bam(t[0], t[1], t[2], t[3], BamEntriesAt(t, BAM_ENTRIES), t[0x90..0xA0], t[0xA0..0xA2], LeWord(t[0xA2], t[0xA3]),
      t[0xA4], Cbm)
  }

  /** What the BAM parser demands of the BAM sector. */
  predicate BamAccepts(t: seq<bv8>) {
    BAM_SIZE <= |t| && t[0] == 0x12 && t[1] == 0x01 && t[2] == 0x41 && t[0xA5] == DOS_TYPE[0] && t[0xA6] == DOS_TYPE[1]
  }

  /** Counting BAM entries reads them four bytes apart. */
  lemma BamEntriesCount(n: nat, i: seq<bv8>)
    ensures Count(BamEntryParserValue(), n, i).Done? <==> n * 4 <= |i|
    ensures Count(BamEntryParserValue(), n, i).Fail? ==> Count(BamEntryParserValue(), n, i).failure == Error
    ensures Count(BamEntryParserValue(), n, i).Done? ==>
      Count(BamEntryParserValue(), n, i).rest == i[n * 4..] &&
      forall k :: 0 <= k < n ==> (k * 4 + 4 <= |i| && Count(BamEntryParserValue(), n, i).value[k] == BamEntryAt(i[k * 4..]))
  {
    BamEntryFixedWidth();
    CountFixedWidth(BamEntryParserValue(), 4, n, i);
    if Count(BamEntryParserValue(), n, i).Done? {
      forall k | 0 <= k < n
        ensures BamEntryParserValue()(i[k * 4..]).value == BamEntryAt(i[k * 4..])
      {
        BamEntryLayout(i[k * 4..]);
      }
    }
  }

  lemma BamHeadLayout(t: seq<bv8>)
    ensures BamHead(t).Done? <==> 4 <= |t| && t[0] == 0x12 && t[1] == 0x01 && t[2] == 0x41
    ensures BamHead(t).Fail? ==> BamHead(t).failure == Error
    ensures BamHead(t).Done? ==> BamHead(t) == Done(t[4..], (t[0], t[1], t[2], t[3]))
  {
    if 4 <= |t| {
      assert t[1..][1..][1..][1..] == t[4..];
    }
  }

  lemma BamBodyAccepts(t: seq<bv8>)
    requires BAM_SIZE <= |t| && t[0xA5] == DOS_TYPE[0] && t[0xA6] == DOS_TYPE[1]
    ensures BamBody((t[0], t[1], t[2], t[3]), t[4..]) == Done(t[BAM_SIZE..], BamAt(t))
  {
    BamEntriesInSector(t);
    BamTailInSector(t);
    BamBodyOf((t[0], t[1], t[2], t[3]), t[4..], t[144..], BamEntriesAt(t, BAM_ENTRIES), t[BAM_SIZE..],
      BamTailFields(t[0x90..0xA0], t[0xA0..0xA2], LeWord(t[0xA2], t[0xA3]), t[0xA4], Cbm));
  }

  /** The 35 entries fill bytes 4 to 143 of the sector. */
  lemma BamEntriesInSector(t: seq<bv8>)
    requires BAM_SIZE <= |t|
    ensures Count(BamEntryParserValue(), BAM_ENTRIES, t[4..]) == Done(t[144..], BamEntriesAt(t, BAM_ENTRIES))
  {
    BamEntriesRead(t, BAM_ENTRIES);
    DropAfter(t, 4, 4 * BAM_ENTRIES);
  }

  /** The tail fills bytes 144 to 255 of the sector. */
  lemma BamTailInSector(t: seq<bv8>)
    requires BAM_SIZE <= |t| && t[0xA5] == DOS_TYPE[0] && t[0xA6] == DOS_TYPE[1]
    ensures BamTail(t[144..]) == Done(t[BAM_SIZE..],
      BamTailFields(t[0x90..0xA0], t[0xA0..0xA2], LeWord(t[0xA2], t[0xA3]), t[0xA4], Cbm))
  {
    var i := t[144..];
    BamTailLayout(i);
    assert i[21] == t[0xA5] && i[22] == t[0xA6];
    SliceAfter(t, 144, 0, 16);
    assert i[..16] == i[0..16];
    SliceAfter(t, 144, 16, 18);
    DropAfter(t, 144, 112);
    assert i[18] == t[0xA2] && i[19] == t[0xA3] && i[20] == t[0xA4];
  }

  /** One step of the body: the entries, then the tail. */
  lemma BamBodyOf(head: (bv8, bv8, bv8, bv8), i: seq<bv8>, r: seq<bv8>, es: seq<BamEntry>, x: seq<bv8>, tl: BamTailFields)
    requires Count(BamEntryParserValue(), BAM_ENTRIES, i) == Done(r, es) && BamTail(r) == Done(x, tl)
    ensures BamBody(head, i) == Done(x, Bam(head.0, head.1, head.2, head.3, es,
      tl.diskName, tl.secondReserved, tl.diskId, tl.thirdReserved, tl.dosType))
  {
  }

  lemma BamBodyRefuses(t: seq<bv8>)
    requires 4 <= |t| && !(BAM_SIZE <= |t| && t[0xA5] == DOS_TYPE[0] && t[0xA6] == DOS_TYPE[1])
    ensures BamBody((t[0], t[1], t[2], t[3]), t[4..]) == Fail(Error)
  {
    BamEntriesRead(t, BAM_ENTRIES);
    if 144 <= |t| {
      DropAfter(t, 4, 4 * BAM_ENTRIES);
      BamTailLayout(t[144..]);
      if 256 <= |t| {
        assert t[144..][21] == t[0xA5] && t[144..][22] == t[0xA6];
      }
    }
  }

  lemma BamEntriesRead(t: seq<bv8>, n: nat)
    requires 4 <= |t|
    ensures Count(BamEntryParserValue(), n, t[4..]).Done? <==> 4 + 4 * n <= |t|
    ensures Count(BamEntryParserValue(), n, t[4..]).Fail? ==> Count(BamEntryParserValue(), n, t[4..]).failure == Error
    ensures 4 + 4 * n <= |t| ==> Count(BamEntryParserValue(), n, t[4..]) == Done(t[4..][4 * n..], BamEntriesAt(t, n))
  {
    var i := t[4..];
    BamEntriesCount(n, i);
    var c := Count(BamEntryParserValue(), n, i);
    if c.Done? {
      assert n * 4 == 4 * n;
      forall k | 0 <= k < n
        ensures c.value[k] == BamEntriesAt(t, n)[k]
      {
        assert i[k * 4..] == t[4 + 4 * k..];
      }
      assert c.value == BamEntriesAt(t, n);
    }
  }

  /** The BAM sector as the parser reads it. */
  lemma BamRecordLayout(t: seq<bv8>)
    ensures BamRecord(t).Done? <==> BamAccepts(t)
    ensures BamRecord(t).Fail? ==> BamRecord(t).failure == Error
    ensures BamAccepts(t) ==> BamRecord(t) == Done(t[BAM_SIZE..], BamAt(t))
  {
    BamHeadLayout(t);
    if BamHead(t).Done? {
      if BamAccepts(t) {
        BamBodyAccepts(t);
      } else {
        BamBodyRefuses(t);
      }
    }
  }

  /** The BAM parser accepts exactly the images with a BAM sector at
      0x16500 that starts 0x12, 0x01, 0x41 and carries "2A" at offset
      0xA5, and reads nothing past that sector. */
  lemma BamParserLayout(s: seq<bv8>)
    ensures BamParser(s).Done? <==> BAM_OFFSET <= |s| && BamAccepts(s[BAM_OFFSET..])
    ensures BamParser(s).Fail? ==> BamParser(s).failure == Error
    ensures BamParser(s).Done? ==> BamParser(s) == Done(s[BAM_OFFSET + BAM_SIZE..], BamAt(s[BAM_OFFSET..]))
  {
    if BAM_OFFSET <= |s| {
      BamRecordLayout(s[BAM_OFFSET..]);
      if BamAccepts(s[BAM_OFFSET..]) {
        assert s[BAM_OFFSET..][BAM_SIZE..] == s[BAM_OFFSET + BAM_SIZE..];
      }
    }
  }

  /** The BAM's sanity check (d64.rs:484-497). */
  predicate BamCheck(b: Bam) {
    b.diskDosVersion == 0x41
  }

  /** The parser already refuses any other DOS version, so a parsed BAM
      always passes the sanity check, and its entry `k` describes track `k + 1`
      from the four bytes at offset 4 + 4k of the BAM sector. */
  lemma ParsedBamPassesCheck(s: seq<bv8>)
    requires BamParser(s).Done?
    ensures BamCheck(BamParser(s).value)
    ensures forall k :: 0 <= k < BAM_ENTRIES ==>
      BAM_OFFSET + 4 + 4 * k + 4 <= |s| &&
      BamParser(s).value.bamEntries[k] == BamEntryAt(s[BAM_OFFSET + 4 + 4 * k..])
  {
    BamParserLayout(s);
    forall k | 0 <= k < BAM_ENTRIES
      ensures BamParser(s).value.bamEntries[k] == BamEntryAt(s[BAM_OFFSET + 4 + 4 * k..])
    {
      assert s[BAM_OFFSET..][4 + 4 * k..] == s[BAM_OFFSET + 4 + 4 * k..];
    }
  }

  // ---------------------------------------------------------------------
  // The directory and the disk
  // ---------------------------------------------------------------------

  /** `D64DirectoryEntry`: the pointer to the next directory block and
      eight file entries. */
  datatype DirectoryEntry = DirectoryEntry(
    trackOfNextDirectoryBlock: Option<u16>,
    sectorOfNextDirectoryBlock: Option<u16>,
    fileEntries: seq<FileEntry>)

  const DIRECTORY_SIZE: nat := 2 + 8 * FILE_ENTRY_SIZE

  /** `d64_directory_parser` (d64.rs:607-626): both pointer bytes are kept
      as `Some`, including the 0x00 that ends the chain. */
  function DirectoryParser(s: seq<bv8>): Outcome<DirectoryEntry> {
    var (i, track) :- U8(s);
    var (i, sector) :- U8(i);
    var (i, entries) :- Count(FileEntryParserValue(), 8, i);
    Done(i, DirectoryEntry(Some(track as int), Some(sector as int), entries))
  }

  function DirectoryAt(s: seq<bv8>): DirectoryEntry
    requires DIRECTORY_SIZE <= |s|
  {
    DirectoryEntry(Some(s[0] as int), Some(s[1] as int),
      seq(8, k requires 0 <= k < 8 => FileEntryAt(s[2 + FILE_ENTRY_SIZE * k..])))
  }

  /** Counting file entries reads them thirty bytes apart. */
  lemma FileEntriesCount(n: nat, i: seq<bv8>)
    ensures Count(FileEntryParserValue(), n, i).Done? <==> n * FILE_ENTRY_SIZE <= |i|
    ensures Count(FileEntryParserValue(), n, i).Fail? ==> Count(FileEntryParserValue(), n, i).failure == Error
    ensures Count(FileEntryParserValue(), n, i).Done? ==>
      Count(FileEntryParserValue(), n, i).rest == i[n * FILE_ENTRY_SIZE..] &&
      forall k :: 0 <= k < n ==> (k * FILE_ENTRY_SIZE + FILE_ENTRY_SIZE <= |i| &&
        Count(FileEntryParserValue(), n, i).value[k] == FileEntryAt(i[k * FILE_ENTRY_SIZE..]))
  {
    FileEntryFixedWidth();
    CountFixedWidth(FileEntryParserValue(), FILE_ENTRY_SIZE, n, i);
    if Count(FileEntryParserValue(), n, i).Done? {
      forall k | 0 <= k < n
        ensures FileEntryParserValue()(i[k * FILE_ENTRY_SIZE..]).value == FileEntryAt(i[k * FILE_ENTRY_SIZE..])
      {
        FileEntryLayout(i[k * FILE_ENTRY_SIZE..]);
      }
    }
  }

  /** The directory block is the next 242 bytes, read at fixed offsets,
      with both pointers present. */
  lemma DirectoryLayout(s: seq<bv8>)
    ensures DirectoryParser(s).Done? <==> DIRECTORY_SIZE <= |s|
    ensures DirectoryParser(s).Fail? ==> DirectoryParser(s).failure == Error
    ensures DIRECTORY_SIZE <= |s| ==> DirectoryParser(s) == Done(s[DIRECTORY_SIZE..], DirectoryAt(s))
  {
    if 2 <= |s| {
      var i := s[2..];
      assert s[1..][1..] == i;
      FileEntriesCount(8, i);
      if DIRECTORY_SIZE <= |s| {
        var c := Count(FileEntryParserValue(), 8, i);
        assert c.rest == s[DIRECTORY_SIZE..];
        assert c.value == DirectoryAt(s).fileEntries by {
          forall k | 0 <= k < 8
            ensures c.value[k] == DirectoryAt(s).fileEntries[k]
          {
            assert i[k * FILE_ENTRY_SIZE..] == s[2 + FILE_ENTRY_SIZE * k..];
          }
        }
      }
    }
  }

  /** `D64Disk` */
  datatype D64Disk = D64Disk(bam: Bam, directory: DirectoryEntry)

  /** The directory block the parser reads: straight after the BAM. */
  const DIRECTORY_OFFSET: nat := BAM_OFFSET + BAM_SIZE

  /** `d64_disk_parser` (d64.rs:629-638): the BAM, then the directory right
      after it. */
  function D64DiskParser(s: seq<bv8>): Outcome<D64Disk> {
    var (i, bam) :- BamParser(s);
    var (i, directory) :- DirectoryParser(i);
    Done(i, D64Disk(bam, directory))
  }

  /** The disk parser accepts exactly the images with an acceptable BAM
      sector followed by a whole directory block; every failure is a
      plain error, so the dispatcher may go on to another format. */
  lemma D64DiskLayout(s: seq<bv8>)
    ensures D64DiskParser(s).Done? <==>
      DIRECTORY_OFFSET + DIRECTORY_SIZE <= |s| && BamAccepts(s[BAM_OFFSET..])
    ensures D64DiskParser(s).Fail? ==> D64DiskParser(s).failure == Error
    ensures D64DiskParser(s).Done? ==>
      D64DiskParser(s) == Done(s[DIRECTORY_OFFSET + DIRECTORY_SIZE..],
        D64Disk(BamAt(s[BAM_OFFSET..]), DirectoryAt(s[DIRECTORY_OFFSET..])))
  {
    BamParserLayout(s);
    if BamParser(s).Done? {
      DirectoryLayout(s[DIRECTORY_OFFSET..]);
      if DIRECTORY_OFFSET + DIRECTORY_SIZE <= |s| {
        assert s[DIRECTORY_OFFSET..][DIRECTORY_SIZE..] == s[DIRECTORY_OFFSET + DIRECTORY_SIZE..];
      }
    }
  }

  /** The block read as the directory is sector 1 of track 18 under the
      corrected zone table: the sector the accepted BAM's first two bytes
      (0x12, 0x01) name. */
  lemma DirectoryIsWhereBamPoints()
    ensures DIRECTORY_OFFSET == (BlocksBefore(0x12 - 1) + 0x01) * 256
  {
    BlocksBeforeClosed(17);
  }
}
