/** The disk layer for Apple ][ images: guessing the encoding and format
    of an image from its file name or its bytes, reading the Volume Table of
    Contents (VTOC), splitting a 140K DOS 3.3 image into tracks and
    sectors, and putting the catalog and the files on top of them. */
module AppleDisks {
  import opened Parsing
  import opened AppleFiles
  import Nibble
  import NibbleImage

  // ---------------------------------------------------------------------
  // Guesses
  // ---------------------------------------------------------------------

  /** How the image stores the disk: raw sectors or the nibbles on the
      track. */
  datatype Encoding = Plain | Nibbled

  /** The operating system format, each with the image's file size. */
  datatype Format = Unknown(size: nat) | DOS32(size: nat) | DOS33(size: nat) | ProDOS(size: nat)

  /** `AppleDiskGuess`: what the heuristics decided, with the image bytes. */
  datatype Guess = Guess(encoding: Encoding, format: Format, data: seq<bv8>)

  // ---------------------------------------------------------------------
  // The Volume Table of Contents
  // ---------------------------------------------------------------------

  datatype Vtoc = Vtoc(
    reserved: bv8,
    catalogTrack: bv8,
    catalogSector: bv8,
    dosRelease: bv8,
    reserved2: seq<bv8>,
    volume: bv8,
    reserved3: seq<bv8>,
    maxTrackSectorPairs: bv8,
    reserved4: seq<bv8>,
    lastAllocatedTrack: bv8,
    allocationDirection: int,
    reserved5: seq<bv8>,
    tracksPerDisk: bv8,
    sectorsPerTrack: bv8,
    bytesPerSector: u16,
    freeSectorMaps: seq<seq<bv8>>)

  /** A byte read as a two's-complement `i8`. */
  function SignedByte(b: bv8): (v: int)
    ensures -128 <= v < 128
    ensures v < 0 <==> b >= 0x80
  {
    if b < 0x80 then b as int else b as int - 0x100
  }

  /** `number::complete::le_i8` */
  function I8(s: seq<bv8>): (r: Outcome<int>)
    ensures r.Done? <==> 1 <= |s|
    ensures r.Done? ==> r.value == SignedByte(s[0]) && r.rest == s[1..]
    ensures r.Fail? ==> r.failure == Error
  {
    if 1 <= |s| then Done(s[1..], SignedByte(s[0])) else Fail(Error)
  }

  /** `min(number_of_tracks_per_diskette, 50)`: how many free-sector maps
      are read. */
  function MapCount(tracks: bv8): (n: nat)
    ensures n <= 50 && n <= tracks as int
    ensures n == 50 || n == tracks as int
  {
    if tracks as int < 50 then tracks as int else 50
  }

  /** The size of the fixed part of the VTOC. */
  const VTOC_FIXED: nat := 0x38

  /** The fixed fields of the VTOC, in the order the parser reads them. */
  datatype VtocHead = VtocHead(
    reserved: bv8, catalogTrack: bv8, catalogSector: bv8, dosRelease: bv8, reserved2: seq<bv8>,
    volume: bv8, reserved3: seq<bv8>, maxTrackSectorPairs: bv8, reserved4: seq<bv8>,
    lastAllocatedTrack: bv8, allocationDirection: int, reserved5: seq<bv8>,
    tracksPerDisk: bv8, sectorsPerTrack: bv8, bytesPerSector: u16)

  /** The fields of the fixed part, each at its offset. */
  function HeadAt(s: seq<bv8>): VtocHead
    requires VTOC_FIXED <= |s|
  {
    VtocHead(s[0], s[1], s[2], s[3], s[4..6], s[6], s[7..0x27], s[0x27], s[0x28..0x30], s[0x30],
      SignedByte(s[0x31]), s[0x32..0x34], s[0x34], s[0x35], LeWord(s[0x36], s[0x37]))
  }

  /** `parse_volume_table_of_contents` (disk.rs:162-206), read by offset:
      the 56-byte fixed part, then `min(tracks, 50)` free-sector maps of 4
      bytes each.  `VtocComposes` shows this is the source's sequence of
      reads. */
  function ParsedVtoc(s: seq<bv8>): (r: Outcome<Vtoc>)
    ensures r.Done? <==> VTOC_FIXED <= |s| && VTOC_FIXED + 4 * MapCount(s[0x34]) <= |s|
    ensures r.Fail? ==> r.failure == Error
    ensures r.Done? ==> VTOC_FIXED <= |s| && VtocReads(s, r.value, r.rest)
  {
    if |s| < VTOC_FIXED || |s| < VTOC_FIXED + 4 * MapCount(s[0x34]) then Fail(Error)
    else
      var n := MapCount(s[0x34]);
      FreeMapsAt(s, n);
      Done(s[VTOC_FIXED + 4 * n..], WithMaps(HeadAt(s), Chunks(s[VTOC_FIXED..], 4, n)))
  }

  /** The Vtoc built from the fixed part and the maps. */
  function WithMaps(h: VtocHead, maps: seq<seq<bv8>>): Vtoc {
    Vtoc(h.reserved, h.catalogTrack, h.catalogSector, h.dosRelease, h.reserved2, h.volume,
      h.reserved3, h.maxTrackSectorPairs, h.reserved4, h.lastAllocatedTrack, h.allocationDirection,
      h.reserved5, h.tracksPerDisk, h.sectorsPerTrack, h.bytesPerSector, maps)
  }

  /** `v` and `rest` are what the VTOC parser reads from `s`: it never
      reads past the 256 bytes of the sector, and each field is the byte
      at its documented offset. */
  ghost predicate VtocReads(s: seq<bv8>, v: Vtoc, rest: seq<bv8>)
    requires VTOC_FIXED <= |s|
  {
    var n := MapCount(s[0x34]);
    VTOC_FIXED + 4 * n <= 256
    && VTOC_FIXED + 4 * n <= |s|
    && rest == s[VTOC_FIXED + 4 * n..]
    && v.catalogTrack == s[1] && v.catalogSector == s[2] && v.dosRelease == s[3]
    && v.volume == s[6] && v.maxTrackSectorPairs == s[0x27] && v.lastAllocatedTrack == s[0x30]
    && v.allocationDirection == SignedByte(s[0x31])
    && v.tracksPerDisk == s[0x34] && v.sectorsPerTrack == s[0x35] && v.bytesPerSector == LeWord(s[0x36], s[0x37])
    && |v.freeSectorMaps| == n
    && forall k :: 0 <= k < n ==> v.freeSectorMaps[k] == s[VTOC_FIXED + 4 * k..VTOC_FIXED + 4 * k + 4]
  }

  /** The sixteen reads of the fixed part, as the source writes them. */
  function VtocHeadChain(s: seq<bv8>): (r: Outcome<VtocHead>)
    ensures r.Fail? ==> r.failure == Error
  {
    var (i, reserved) :- U8(s);
    var (i, catalogTrack) :- U8(i);
    var (i, catalogSector) :- U8(i);
    var (i, dosRelease) :- U8(i);
    var (i, reserved2) :- Take(i, 2);
    var (i, volume) :- U8(i);
    var (i, reserved3) :- Take(i, 32);
    var (i, maxPairs) :- U8(i);
    var (i, reserved4) :- Take(i, 8);
    var (i, lastTrack) :- U8(i);
    var (i, direction) :- I8(i);
    var (i, reserved5) :- Take(i, 2);
    var (i, tracks) :- U8(i);
    var (i, sectors) :- U8(i);
    var (i, bytes) :- LeU16(i);
    Done(i, VtocHead(reserved, catalogTrack, catalogSector, dosRelease, reserved2, volume, reserved3,
      maxPairs, reserved4, lastTrack, direction, reserved5, tracks, sectors, bytes))
  }

  /** The free-sector maps after the fixed part, as the source reads them. */
  function VtocAfterHead(hd: Outcome<VtocHead>): Outcome<Vtoc> {
    var (i, h) :- hd;
    var (i, maps) :- Count(TakeParser(4), MapCount(h.tracksPerDisk), i);
    Done(i, WithMaps(h, maps))
  }

  /** The source's sequence of reads is the read by offset. */
  lemma VtocComposes(s: seq<bv8>)
    ensures VtocAfterHead(VtocHeadChain(s)) == ParsedVtoc(s)
  {
    if VTOC_FIXED <= |s| {
      VtocHeadFields(s);
      AfterHeadFlat(VtocHeadChain(s), s);
    } else {
      VtocHeadShort(s);
    }
  }

  lemma AfterHeadFlat(hd: Outcome<VtocHead>, s: seq<bv8>)
    requires VTOC_FIXED <= |s| && hd == Done(s[VTOC_FIXED..], HeadAt(s))
    ensures VtocAfterHead(hd) == ParsedVtoc(s)
  {
    var n := MapCount(s[0x34]);
    var t := s[VTOC_FIXED..];
    CountTakes(t, 4, n);
    if 4 * n <= |t| {
      assert t[4 * n..] == s[VTOC_FIXED + 4 * n..];
    }
  }

  lemma VtocHeadShort(s: seq<bv8>)
    requires |s| < VTOC_FIXED
    ensures VtocHeadChain(s).Fail?
  {
  }

  lemma VtocHeadFields(s: seq<bv8>)
    requires VTOC_FIXED <= |s|
    ensures VtocHeadChain(s) == Done(s[VTOC_FIXED..], HeadAt(s))
  {
    assert s[1..][1..][1..][1..] == s[4..];
    assert s[4..][2..][1..] == s[7..];
    assert s[7..][32..][1..] == s[0x28..];
    assert s[0x28..][8..][1..][1..] == s[0x32..];
    assert s[0x32..][2..][1..][1..][2..] == s[VTOC_FIXED..];
    assert s[4..][..2] == s[4..6];
    assert s[7..][..32] == s[7..0x27];
    assert s[0x28..][..8] == s[0x28..0x30];
    assert s[0x32..][..2] == s[0x32..0x34];
  }

  lemma FreeMapsAt(s: seq<bv8>, n: nat)
    requires VTOC_FIXED + 4 * n <= |s|
    ensures forall k :: 0 <= k < n ==>
      Chunks(s[VTOC_FIXED..], 4, n)[k] == s[VTOC_FIXED + 4 * k..VTOC_FIXED + 4 * k + 4]
  {
    var t := s[VTOC_FIXED..];
    forall k | 0 <= k < n
      ensures Chunks(t, 4, n)[k] == s[VTOC_FIXED + 4 * k..VTOC_FIXED + 4 * k + 4]
    {
      assert t[4 * k..4 * k + 4] == s[VTOC_FIXED + 4 * k..VTOC_FIXED + 4 * k + 4];
    }
  }

  /** VTOC `check` (disk.rs:208-229): a plausible number of tracks, then a
      plausible number of sectors per track. */
  predicate Check(v: Vtoc) {
    if v.tracksPerDisk != 35 && v.tracksPerDisk != 40 then false
    else if v.sectorsPerTrack != 13 && v.sectorsPerTrack != 16 then false
    else true
  }

  /** A VTOC that passes the sanity check has a free-sector map for every track,
      and the parser stopped within the first 216 bytes of the sector. */
  lemma CheckedVtocMapsEveryTrack(s: seq<bv8>)
    requires ParsedVtoc(s).Done? && Check(ParsedVtoc(s).value)
    ensures |ParsedVtoc(s).value.freeSectorMaps| == ParsedVtoc(s).value.tracksPerDisk as int
    ensures |s| - |ParsedVtoc(s).rest| == VTOC_FIXED + 4 * ParsedVtoc(s).value.tracksPerDisk as int <= 216
    ensures ParsedVtoc(s).value.sectorsPerTrack == 13 || ParsedVtoc(s).value.sectorsPerTrack == 16
  {
  }

  // ---------------------------------------------------------------------
  // Guessing the format
  // ---------------------------------------------------------------------

  /** The first bytes of a DOS 3.3 boot sector. */
  const DOS_MAGIC: seq<bv8> := [0x01, 0xA5, 0x27, 0xC9, 0x09, 0xD0, 0x18, 0xA5, 0x2B]

  /** Where the VTOC of a 140K image starts: track 17, sector 0. */
  const VTOC_OFFSET: nat := 0x11000

  /** A parser result seen through `?` in a function returning the crate's
      `Result`. */
  function Lift<T>(o: Outcome<T>): (r: Result<(seq<bv8>, T)>)
    ensures r.Ok? <==> o.Done?
    ensures r.Ok? ==> r.value == (o.rest, o.value)
    ensures r.Err? ==> r.error == FromFailure(o.failure)
  {
    if o.Done? then Ok((o.rest, o.value)) else Err(FromFailure(o.failure))
  }

  /** `format_from_data` (disk.rs:401-430): the boot-sector magic, then
      the catalog pointer and DOS release at the start of the VTOC. */
  function FormatFromData(data: seq<bv8>): (r: Result<Option<Guess>>)
    ensures r.Err? <==> |data| < 9 || (data[..9] == DOS_MAGIC && |data| < VTOC_OFFSET + 4)
    ensures r.Err? ==> r.error == Message
    ensures r.Ok? && r.value.Some? <==>
      (VTOC_OFFSET + 4 <= |data| && data[..9] == DOS_MAGIC && data[VTOC_OFFSET + 1..VTOC_OFFSET + 4] == [0x11, 0x0F, 0x03])
    ensures r.Ok? && r.value.Some? ==> r.value.value == Guess(Plain, DOS33(|data|), data)
  {
    var (_, header) :- Lift(Take(data, 9));
    if header != DOS_MAGIC then Ok(None)
    else
      var (i, _) :- Lift(Take(data, VTOC_OFFSET));
      var (i, _) :- Lift(U8(i));
      var (i, track) :- Lift(U8(i));
      var (i, sector) :- Lift(U8(i));
      var (_, release) :- Lift(U8(i));
      if track == 0x11 && sector == 0x0F && release == 0x03 then Ok(Some(Guess(Plain, DOS33(|data|), data)))
      else Ok(None)
  }

  /** `filename.split('.')`'s last piece: the text after the last dot, or
      the whole name when it has none. */
  function Extension(name: string): (ext: string)
    ensures '.' !in ext
    ensures |ext| <= |name| && ext == name[|name| - |ext|..]
    ensures |ext| < |name| ==> name[|name| - |ext| - 1] == '.'
    decreases |name|
  {
    if |name| == 0 || name[|name| - 1] == '.' then []
    else Extension(name[..|name| - 1]) + [name[|name| - 1]]
  }

  /** The extension of `stem.ext` is `ext`, whatever the stem holds. */
  lemma ExtensionOfDotted(stem: string, ext: string)
    requires '.' !in ext
    ensures Extension(stem + "." + ext) == ext
  {
    var name := stem + "." + ext;
    var e := Extension(name);
    assert name[|name| - |ext| - 1] == '.';
    assert e == name[|name| - |ext|..] == ext;
  }

  /** `char::to_lowercase` for the characters that can lower-case to an
      ASCII letter: the ASCII capitals and the Kelvin sign.  Every other
      character lower-cases to something that is not an ASCII letter, so it
      cannot complete a match against an extension. */
  function LowerChar(c: char): (l: char)
    ensures 'A' <= c <= 'Z' ==> l as int == c as int + 32
  {
    if 'A' <= c <= 'Z' then (c as int + 32) as char
    else if c == '\U{212A}' then 'k'
    else c
  }

  /** `ext.to_lowercase() == lit` for an extension `lit` written in
      lower-case ASCII. */
  predicate LowerIs(ext: string, lit: string) {
    |ext| == |lit| && forall k :: 0 <= k < |ext| ==> LowerChar(ext[k]) == lit[k]
  }

  /** The format a nibble image's first prologue byte names. */
  function NibbleFormat(prologue: Option<bv8>, size: nat): Format {
    match prologue
    case Some(0xB5) => DOS32(size)
    case Some(0x96) => DOS33(size)
    case _ => Unknown(size)
  }

  /** The extension classification of `format_from_filename_and_data`
      (disk.rs:354-382); `filesize` is what the file-system metadata
      reports. */
  function FormatFromFilename(name: string, filesize: nat, data: seq<bv8>): (r: Option<Guess>)
    ensures r.Some? <==> LowerIs(Extension(name), "do") || LowerIs(Extension(name), "dsk") || LowerIs(Extension(name), "nib")
    ensures r.Some? ==> r.value.data == data
    ensures r.Some? ==> (r.value.encoding == Nibbled <==> LowerIs(Extension(name), "nib"))
    ensures r.Some? && r.value.encoding == Plain ==> r.value.format == DOS33(filesize)
  {
    var ext := Extension(name);
    if LowerIs(ext, "do") || LowerIs(ext, "dsk") then Some(Guess(Plain, DOS33(filesize), data))
    else if LowerIs(ext, "nib") then Some(Guess(Nibbled, NibbleFormat(Nibble.RecognizePrologue(data), filesize), data))
    else None
  }

  /** A nibble image is DOS 3.3 exactly when its first address or data
      prologue ends in 96, DOS 3.2 when it ends in B5, and unknown when it
      has none. */
  lemma NibbleImageFormat(stem: string, filesize: nat, data: seq<bv8>)
    ensures FormatFromFilename(stem + ".nib", filesize, data).Some?
    ensures FormatFromFilename(stem + ".nib", filesize, data).value.encoding == Nibbled
    ensures FormatFromFilename(stem + ".nib", filesize, data).value.format.Unknown? <==>
      forall k :: !Nibble.PrologueAt(data, k)
    ensures FormatFromFilename(stem + ".nib", filesize, data).value.format == DOS33(filesize) <==>
      Nibble.FirstPrologue(data, 0).Some? && data[Nibble.FirstPrologue(data, 0).value + 2] == 0x96
  {
    assert stem + ".nib" == stem + "." + "nib";
    ExtensionOfDotted(stem, "nib");
    assert LowerIs("nib", "nib");
    var first := Nibble.FirstPrologue(data, 0);
    var p := Nibble.RecognizePrologue(data);
    if first.Some? {
      assert Nibble.PrologueAt(data, first.value);
      assert p == Some(data[first.value + 2]);
    }
  }

  /** Upper-case extensions classify like lower-case ones. */
  lemma UpperCaseExtensions(stem: string, filesize: nat, data: seq<bv8>)
    ensures FormatFromFilename(stem + ".DSK", filesize, data) == Some(Guess(Plain, DOS33(filesize), data))
    ensures FormatFromFilename(stem + ".Do", filesize, data) == Some(Guess(Plain, DOS33(filesize), data))
  {
    assert stem + ".DSK" == stem + "." + "DSK";
    ExtensionOfDotted(stem, "DSK");
    assert stem + ".Do" == stem + "." + "Do";
    ExtensionOfDotted(stem, "Do");
    assert LowerChar('D') == 'd' by { assert 'D' as int == 68 && 'd' as int == 100; }
    assert LowerChar('S') == 's' by { assert 'S' as int == 83 && 's' as int == 115; }
    assert LowerChar('K') == 'k' by { assert 'K' as int == 75 && 'k' as int == 107; }
    assert LowerIs("DSK", "dsk");
    assert LowerIs("Do", "do");
  }

  /** Any other extension, such as that of a compressed image, gives no
      guess. */
  lemma OtherExtensions(stem: string, filesize: nat, data: seq<bv8>)
    ensures FormatFromFilename(stem + ".zip", filesize, data) == None
    ensures FormatFromFilename(stem + ".po", filesize, data) == None
  {
    assert stem + ".zip" == stem + "." + "zip";
    ExtensionOfDotted(stem, "zip");
    assert stem + ".po" == stem + "." + "po";
    ExtensionOfDotted(stem, "po");
    assert LowerChar("zip"[0]) != "do"[0] && LowerChar("zip"[0]) != "nib"[0];
    assert LowerChar("po"[0]) != "do"[0] && LowerChar("po"[0]) != "dsk"[0] && LowerChar("po"[0]) != "nib"[0];
  }

  // ---------------------------------------------------------------------
  // Tracks and sectors of a 140K image
  // ---------------------------------------------------------------------

  /** The size of a 140K image: 35 tracks of 16 sectors of 256 bytes. */
  const DISK_SIZE: nat := 143360
  const TRACK_SIZE: nat := 4096
  const SECTOR_SIZE: nat := 256
  const SECTORS_PER_TRACK: nat := 16
  const TRACKS_PER_DISK: nat := 35
  /** The track that holds the VTOC and, on a standard disk, the catalog. */
  const CATALOG_TRACK: nat := 17

  /** `apple_tracks_parser(track_size, n)`: `count(take(track_size), n)`. */
  function TracksParser(trackSize: nat, n: nat, s: seq<bv8>): Outcome<seq<seq<bv8>>> {
    Count(TakeParser(trackSize), n, s)
  }

  /** `apple_140_k_dos_parser` (disk.rs:448-462): 35 tracks of 4096 bytes
      or 40 tracks of 3584; any other count is a plain error. */
  function Apple140KDosParser(data: seq<bv8>, tracksPerDisk: nat): Outcome<seq<seq<bv8>>> {
    if tracksPerDisk == 35 then TracksParser(4096, 35, data)
    else if tracksPerDisk == 40 then TracksParser(3584, 40, data)
    else Fail(Error)
  }

  /** Both track layouts cover exactly 143360 bytes; track `t` is the
      `t`-th slice of the track size, and a shorter image is a plain
      error. */
  lemma Apple140KLayout(data: seq<bv8>, tracksPerDisk: nat)
    ensures Apple140KDosParser(data, tracksPerDisk).Done? <==>
      (tracksPerDisk == 35 || tracksPerDisk == 40) && DISK_SIZE <= |data|
    ensures Apple140KDosParser(data, tracksPerDisk).Fail? ==> Apple140KDosParser(data, tracksPerDisk).failure == Error
    ensures Apple140KDosParser(data, tracksPerDisk).Done? ==>
      Apple140KDosParser(data, tracksPerDisk) == Done(data[DISK_SIZE..], Chunks(data, DISK_SIZE / tracksPerDisk, tracksPerDisk))
  {
    if tracksPerDisk == 35 {
      CountTakes(data, 4096, 35);
    } else if tracksPerDisk == 40 {
      CountTakes(data, 3584, 40);
    }
  }

  /** What the loop of `volume_parser` builds: sector `s` of track `t` is
      the `s`-th 256-byte slice of the track.  A track shorter than 4096
      bytes would stop the loop with a plain error. */
  function DiskSectors(raw: seq<seq<bv8>>): (r: Option<Tracks>)
    ensures r.Some? <==> forall t :: 0 <= t < |raw| ==> TRACK_SIZE <= |raw[t]|
    ensures r.Some? ==> |r.value| == |raw| && forall t :: 0 <= t < |raw| ==>
      TRACK_SIZE <= |raw[t]| && r.value[t] == Chunks(raw[t], SECTOR_SIZE, SECTORS_PER_TRACK)
  {
    if forall t :: 0 <= t < |raw| ==> TRACK_SIZE <= |raw[t]| then
      Some(seq(|raw|, t requires 0 <= t < |raw| => Chunks(raw[t], SECTOR_SIZE, SECTORS_PER_TRACK)))
    else None
  }

  /** The loop of `volume_parser` (disk.rs:504-519): split every track
      with `count(take(256), 16)` and push its sectors one by one. */
  method SplitSectors(raw: seq<seq<bv8>>) returns (r: Option<Tracks>)
    ensures r == DiskSectors(raw)
  {
    var tracks: Tracks := [];
    for t := 0 to |raw|
      invariant |tracks| == t
      invariant forall u :: 0 <= u < t ==> TRACK_SIZE <= |raw[u]| && tracks[u] == Chunks(raw[u], SECTOR_SIZE, SECTORS_PER_TRACK)
    {
      var split := SplitTrack(raw[t]);
      if split.Fail? {
        DiskSectorsShortTrack(raw, t);
        return None;
      }
      var trackVec := PushSectors(split.value);
      tracks := tracks + [trackVec];
    }
    DiskSectorsSplit(raw, tracks);
    return Some(tracks);
  }

  /** `count(take(256), 16)` on one track, as the loop calls it. */
  method SplitTrack(track: seq<bv8>) returns (split: Outcome<seq<seq<bv8>>>)
    ensures split.Done? <==> TRACK_SIZE <= |track|
    ensures split.Done? ==> split.value == Chunks(track, SECTOR_SIZE, SECTORS_PER_TRACK)
  {
    split := Count(TakeParser(SECTOR_SIZE), SECTORS_PER_TRACK, track);
    TrackSplit(track);
  }

  lemma DiskSectorsShortTrack(raw: seq<seq<bv8>>, t: nat)
    requires t < |raw| && |raw[t]| < TRACK_SIZE
    ensures DiskSectors(raw) == None
  {
  }

  lemma DiskSectorsSplit(raw: seq<seq<bv8>>, tracks: Tracks)
    requires |tracks| == |raw|
    requires forall u :: 0 <= u < |raw| ==> TRACK_SIZE <= |raw[u]| && tracks[u] == Chunks(raw[u], SECTOR_SIZE, SECTORS_PER_TRACK)
    ensures DiskSectors(raw) == Some(tracks)
  {
    assert DiskSectors(raw).value == tracks;
  }

  /** `count(take(256), 16)` on one track. */
  lemma TrackSplit(track: seq<bv8>)
    ensures Count(TakeParser(SECTOR_SIZE), SECTORS_PER_TRACK, track).Done? <==> TRACK_SIZE <= |track|
    ensures TRACK_SIZE <= |track| ==>
      Count(TakeParser(SECTOR_SIZE), SECTORS_PER_TRACK, track).value == Chunks(track, SECTOR_SIZE, SECTORS_PER_TRACK)
  {
    CountTakes(track, SECTOR_SIZE, SECTORS_PER_TRACK);
  }

  /** The inner loop of `volume_parser`: push each sector of a track onto
      a new vector. */
  method PushSectors(sectors: seq<seq<bv8>>) returns (trackVec: seq<seq<bv8>>)
    ensures trackVec == sectors
  {
    trackVec := [];
    for s := 0 to |sectors|
      invariant trackVec == sectors[..s]
    {
      trackVec := trackVec + [sectors[s]];
    }
    assert sectors[..|sectors|] == sectors;
  }

  /** Sector `s` of track `t` is the 256 bytes at `t * 4096 + s * 256` of
      the image. */
  lemma SectorOffsets(data: seq<bv8>, t: nat, s: nat)
    requires DISK_SIZE <= |data| && t < TRACKS_PER_DISK && s < SECTORS_PER_TRACK
    ensures Chunks(data, TRACK_SIZE, TRACKS_PER_DISK)[t][SECTOR_SIZE * s..SECTOR_SIZE * s + SECTOR_SIZE]
      == data[TRACK_SIZE * t + SECTOR_SIZE * s..TRACK_SIZE * t + SECTOR_SIZE * s + SECTOR_SIZE]
  {
    ChunkFits(TRACK_SIZE, TRACKS_PER_DISK, t);
    ChunkFits(SECTOR_SIZE, SECTORS_PER_TRACK, s);
    var a := TRACK_SIZE * t;
    var b := SECTOR_SIZE * s;
    assert Chunks(data, TRACK_SIZE, TRACKS_PER_DISK)[t] == data[a..a + TRACK_SIZE];
    assert b + SECTOR_SIZE <= TRACK_SIZE;
    SliceOfSlice(data, a, a + TRACK_SIZE, b, b + SECTOR_SIZE);
  }

  // ---------------------------------------------------------------------
  // Parsing a disk
  // ---------------------------------------------------------------------

  /** `AppleDOSDisk`: the VTOC, the catalog, the sectors and the files. */
  datatype DosDisk = DosDisk(vtoc: Vtoc, catalog: FullCatalog, tracks: Tracks, files: map<seq<bv8>, File>)

  /** `AppleDiskData` */
  datatype AppleDiskData = DOS(dos: DosDisk) | ProDOS | NibbleData(nibbles: NibbleImage.NibbleDisk)

  /** `AppleDisk` */
  datatype AppleDisk = AppleDisk(encoding: Encoding, format: Format, data: AppleDiskData)

  /** `volume_parser` (disk.rs:465-548) as a value: the 35 tracks, the VTOC
      at the start of track 17 (which must pass the sanity check), the catalog
      chain from track 17 and the sector named by byte 2 of that track, and
      the files.  A catalog error that is not a panic becomes a plain
      error; `build_files(...).unwrap()` panics on any error.  What is left
      of the input is the rest of track 17 after the VTOC. */
  function Volume(data: seq<bv8>, filesize: nat, fuel: nat): Outcome<AppleDisk> {
    var (_, raw) :- Apple140KDosParser(data, TRACKS_PER_DISK);
    Apple140KLayout(data, TRACKS_PER_DISK);
    var (i, vtoc) :- ParsedVtoc(raw[CATALOG_TRACK]);
    if !Check(vtoc) then Fail(Error)
    else
      var catalogSector := raw[CATALOG_TRACK][2];
      match DiskSectors(raw)
      case None => Fail(Error)
      case Some(tracks) =>
        match FullCatalogOf(tracks, 17, catalogSector, fuel)
        case Err(e) => Fail(ToFailure(e))
        case Ok(catalog) =>
          match BuiltFiles(tracks, catalog.fileEntries, map[], fuel)
          case Err(e) => Fail(if e == OutOfFuel then Diverges else Panic)
          case Ok(files) => Done(i, AppleDisk(Plain, DOS33(filesize), DOS(DosDisk(vtoc, catalog, tracks, files))))
  }

  /** `volume_parser`, step by step. */
  method VolumeParser(data: seq<bv8>, filesize: nat, fuel: nat) returns (r: Outcome<AppleDisk>)
    ensures r == Volume(data, filesize, fuel)
  {
    var parsed := Apple140KDosParser(data, TRACKS_PER_DISK);
    if parsed.Fail? {
      return Fail(parsed.failure);
    }
    Apple140KLayout(data, TRACKS_PER_DISK);
    var raw := parsed.value;
    var vtoc := ParsedVtoc(raw[CATALOG_TRACK]);
    if !Check(vtoc.value) {
      return Fail(Error);
    }
    var catalogSector := raw[CATALOG_TRACK][2];
    var tracks := SplitSectors(raw);
    var catalog := ParseCatalogs(tracks.value, 17, catalogSector, fuel);
    if catalog.Err? {
      return Fail(ToFailure(catalog.error));
    }
    var files := BuildFiles(catalog.value, tracks.value, fuel);
    if files.Err? {
      return Fail(if files.error == OutOfFuel then Diverges else Panic);
    }
    return Done(vtoc.rest, AppleDisk(Plain, DOS33(filesize), DOS(DosDisk(vtoc.value, catalog.value, tracks.value, files.value))));
  }

  /** Track 17 of the 35 tracks is the 4096 bytes at 0x11000. */
  lemma CatalogTrackOffset(data: seq<bv8>)
    requires DISK_SIZE <= |data|
    ensures Apple140KDosParser(data, TRACKS_PER_DISK).Done?
    ensures Apple140KDosParser(data, TRACKS_PER_DISK).value[CATALOG_TRACK] == data[VTOC_OFFSET..VTOC_OFFSET + TRACK_SIZE]
  {
    Apple140KLayout(data, TRACKS_PER_DISK);
    assert Chunks(data, TRACK_SIZE, TRACKS_PER_DISK)[CATALOG_TRACK] == ChunkAt(data, TRACK_SIZE, TRACKS_PER_DISK, CATALOG_TRACK);
  }

  /** An image shorter than 140 KiB is a plain parse error. */
  lemma VolumeShort(data: seq<bv8>, filesize: nat, fuel: nat)
    requires |data| < DISK_SIZE
    ensures Volume(data, filesize, fuel) == Fail(Error)
  {
    Apple140KLayout(data, TRACKS_PER_DISK);
  }

  /** The VTOC is read from the sector at 0x11000 of a full image, and one
      that fails the sanity check rejects the disk with a plain parse error. */
  lemma VolumeChecksVtoc(data: seq<bv8>, filesize: nat, fuel: nat)
    requires DISK_SIZE <= |data|
    ensures ParsedVtoc(data[VTOC_OFFSET..VTOC_OFFSET + TRACK_SIZE]).Done?
    ensures !Check(ParsedVtoc(data[VTOC_OFFSET..VTOC_OFFSET + TRACK_SIZE]).value) ==>
      Volume(data, filesize, fuel) == Fail(Error)
  {
    CatalogTrackOffset(data);
  }

  /** The all-zero 140 KiB image has no valid VTOC (zero tracks per disk)
      and is rejected. */
  lemma BlankDiskRejected(fuel: nat)
    ensures Volume(Zeros(DISK_SIZE), DISK_SIZE, fuel) == Fail(Error)
  {
    var data := Zeros(DISK_SIZE);
    VolumeChecksVtoc(data, DISK_SIZE, fuel);
    var sector := data[VTOC_OFFSET..VTOC_OFFSET + TRACK_SIZE];
    assert sector[0x34] == 0;
  }

  /** A parsed volume: the VTOC that passed the sanity check is the one at 0x11000,
      sector `s` of track `t` is the 256 bytes at `4096 t + 256 s`, the
      catalog is the chain that starts at track 17 and the sector named by
      byte 0x11002, and the files are built from its entries.  What is left
      is the rest of track 17 after the VTOC. */
  lemma VolumeContents(data: seq<bv8>, filesize: nat, fuel: nat)
    requires Volume(data, filesize, fuel).Done?
    ensures DISK_SIZE <= |data|
    ensures Volume(data, filesize, fuel).value.encoding == Plain
    ensures Volume(data, filesize, fuel).value.format == DOS33(filesize)
    ensures Volume(data, filesize, fuel).value.data.DOS?
    ensures var d := Volume(data, filesize, fuel).value.data.dos;
      && ParsedVtoc(data[VTOC_OFFSET..VTOC_OFFSET + TRACK_SIZE]) == Done(Volume(data, filesize, fuel).rest, d.vtoc)
      && Check(d.vtoc)
      && |d.tracks| == TRACKS_PER_DISK
      && (forall t :: 0 <= t < TRACKS_PER_DISK ==> |d.tracks[t]| == SECTORS_PER_TRACK)
      && (forall t, s :: 0 <= t < TRACKS_PER_DISK && 0 <= s < SECTORS_PER_TRACK ==>
            d.tracks[t][s] == data[TRACK_SIZE * t + SECTOR_SIZE * s..TRACK_SIZE * t + SECTOR_SIZE * s + SECTOR_SIZE])
      && FullCatalogOf(d.tracks, 17, data[VTOC_OFFSET + 2], fuel) == Ok(d.catalog)
      && BuiltFiles(d.tracks, d.catalog.fileEntries, map[], fuel) == Ok(d.files)
  {
    Apple140KLayout(data, TRACKS_PER_DISK);
    CatalogTrackOffset(data);
    var raw := Chunks(data, TRACK_SIZE, TRACKS_PER_DISK);
    var vtoc := ParsedVtoc(raw[CATALOG_TRACK]);
    ImageSectors(data);
    var tracks := DiskSectors(raw).value;
    assert raw[CATALOG_TRACK][2] == data[VTOC_OFFSET + 2];
    var catalog := FullCatalogOf(tracks, 17, data[VTOC_OFFSET + 2], fuel);
    var files := BuiltFiles(tracks, catalog.value.fileEntries, map[], fuel);
    assert Volume(data, filesize, fuel) == Done(vtoc.rest, AppleDisk(Plain, DOS33(filesize), DOS(DosDisk(vtoc.value, catalog.value, tracks, files.value))));
  }

  /** The sectors of a full image, as `volume_parser` splits them. */
  lemma ImageSectors(data: seq<bv8>)
    requires DISK_SIZE <= |data|
    ensures DiskSectors(Chunks(data, TRACK_SIZE, TRACKS_PER_DISK)).Some?
    ensures var tracks := DiskSectors(Chunks(data, TRACK_SIZE, TRACKS_PER_DISK)).value;
      && |tracks| == TRACKS_PER_DISK
      && (forall t :: 0 <= t < TRACKS_PER_DISK ==> |tracks[t]| == SECTORS_PER_TRACK)
      && (forall t, s :: 0 <= t < TRACKS_PER_DISK && 0 <= s < SECTORS_PER_TRACK ==>
            tracks[t][s] == data[TRACK_SIZE * t + SECTOR_SIZE * s..TRACK_SIZE * t + SECTOR_SIZE * s + SECTOR_SIZE])
  {
    var raw := Chunks(data, TRACK_SIZE, TRACKS_PER_DISK);
    var tracks := DiskSectors(raw).value;
    forall t, s | 0 <= t < TRACKS_PER_DISK && 0 <= s < SECTORS_PER_TRACK
      ensures tracks[t][s] == data[TRACK_SIZE * t + SECTOR_SIZE * s..TRACK_SIZE * t + SECTOR_SIZE * s + SECTOR_SIZE]
    {
      assert tracks[t][s] == ChunkAt(raw[t], SECTOR_SIZE, SECTORS_PER_TRACK, s);
      SectorOffsets(data, t, s);
    }
  }

  /** `apple_disk_parser` (disk.rs:551-598): a plain image is parsed as a
      DOS 3.3 volume only when the guess says DOS 3.3 of exactly 140 KiB; a
      nibble image is handed to the nibble parser with its guess kept. */
  function AppleDiskParser(guess: Guess, ignoreChecksums: bool, fuel: nat): Outcome<AppleDisk> {
    match guess.encoding
    case Plain =>
      var filesize := if guess.format.DOS33? then guess.format.size else 0;
      if filesize == DISK_SIZE then Volume(guess.data, filesize, fuel) else Fail(Error)
    case Nibbled =>
      var (i, disk) :- NibbleImage.NibDisk(ignoreChecksums, guess.data);
      Done(i, AppleDisk(guess.encoding, guess.format, NibbleData(disk)))
  }

  /** Which parser a guess reaches. */
  lemma AppleDiskDispatch(guess: Guess, ignoreChecksums: bool, fuel: nat)
    ensures guess.encoding == Plain && guess.format != DOS33(DISK_SIZE) ==>
      AppleDiskParser(guess, ignoreChecksums, fuel) == Fail(Error)
    ensures guess.encoding == Plain && guess.format == DOS33(DISK_SIZE) ==>
      AppleDiskParser(guess, ignoreChecksums, fuel) == Volume(guess.data, DISK_SIZE, fuel)
    ensures guess.encoding == Nibbled ==>
      (AppleDiskParser(guess, ignoreChecksums, fuel).Done? <==> NibbleImage.NibDisk(ignoreChecksums, guess.data).Done?)
    ensures guess.encoding == Nibbled && AppleDiskParser(guess, ignoreChecksums, fuel).Done? ==>
      var n := NibbleImage.NibDisk(ignoreChecksums, guess.data);
      AppleDiskParser(guess, ignoreChecksums, fuel) == Done(n.rest, AppleDisk(Nibbled, guess.format, NibbleData(n.value)))
  {
  }

  /** A plain image the parser accepts is a DOS 3.3 volume of 140 KiB. */
  lemma PlainImagesAreDos33(guess: Guess, ignoreChecksums: bool, fuel: nat)
    requires guess.encoding == Plain && AppleDiskParser(guess, ignoreChecksums, fuel).Done?
    ensures DISK_SIZE <= |guess.data|
    ensures AppleDiskParser(guess, ignoreChecksums, fuel).value.format == DOS33(DISK_SIZE)
    ensures AppleDiskParser(guess, ignoreChecksums, fuel).value.data.DOS?
  {
    VolumeContents(guess.data, DISK_SIZE, fuel);
  }

  /** `parse_disk_image` for an Apple guess (disk.rs:600-618): any parse
      error is reported as an invalid image; a panic stays a panic. */
  function ParseAppleImage(guess: Guess, ignoreChecksums: bool, fuel: nat): (r: Result<AppleDisk>)
    ensures r.Ok? <==> AppleDiskParser(guess, ignoreChecksums, fuel).Done?
    ensures r.Ok? ==> r.value == AppleDiskParser(guess, ignoreChecksums, fuel).value
    ensures r.Err? ==> r.error == Invalid || r.error == Panicked || r.error == OutOfFuel
    ensures r == Err(Invalid) <==>
      AppleDiskParser(guess, ignoreChecksums, fuel).Fail? && AppleDiskParser(guess, ignoreChecksums, fuel).failure in {Error, Incomplete}
  {
    match AppleDiskParser(guess, ignoreChecksums, fuel)
    case Done(_, disk) => Ok(disk)
    case Fail(f) => Err(if f == Panic then Panicked else if f == Diverges then OutOfFuel else Invalid)
  }

  /** `save_disk_image` for a DOS 3.3 disk (disk.rs:262-288): without a
      selected name it is an error; when the output file can be created
      (`created`), the bytes written are the data of the selected file, and
      a name not on the disk panics; when it cannot, nothing is written and
      the save still succeeds. */
  function DosSave(disk: DosDisk, selected: Option<seq<bv8>>, created: bool): (r: Result<Option<seq<bv8>>>)
    ensures r.Err? <==> selected.None? || (created && selected.value !in disk.files)
    ensures r.Err? ==> r.error == (if selected.None? then Message else Panicked)
    ensures r.Ok? ==> (r.value.Some? <==> created)
    ensures r.Ok? && created ==> r.value.value == disk.files[selected.value].data
  {
    if selected.None? then Err(Message)
    else if !created then Ok(None)
    else if selected.value !in disk.files then Err(Panicked)
    else Ok(Some(disk.files[selected.value].data))
  }

  /** Saving a file of a disk whose files were built from its catalog
      (as `VolumeContents` shows of every parsed volume) writes the data
      built from the last catalog entry carrying that name. */
  lemma SaveWritesLastEntry(d: DosDisk, fuel: nat, name: seq<bv8>, k: nat)
    requires BuiltFiles(d.tracks, d.catalog.fileEntries, map[], fuel) == Ok(d.files)
    requires k < |d.catalog.fileEntries| && AppleFiles.NameOf(d.catalog.fileEntries[k]) == Ok(name)
    requires forall j :: k < j < |d.catalog.fileEntries| ==> AppleFiles.NameOf(d.catalog.fileEntries[j]) != Ok(name)
    ensures AppleFiles.BuiltFile(d.tracks, d.catalog.fileEntries[k], fuel).Ok?
    ensures DosSave(d, Some(name), true) == Ok(Some(AppleFiles.BuiltFile(d.tracks, d.catalog.fileEntries[k], fuel).value.data))
  {
    BuiltFilesLast(d.tracks, d.catalog.fileEntries, map[], fuel, name, k);
  }
}
