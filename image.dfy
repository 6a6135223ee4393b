/** The format-independent layer (image.rs): the parsed-image and guess
    enumerations, the parser that tries each container format in turn, the
    filename heuristics, and the dispatch of parsing, data extraction and
    saving to the format modules. */
module Image {
  import opened Parsing
  import AppleDisks
  import NibbleImage
  import StxDisk
  import D64

  /** `DiskImage`: a parsed image of one of the supported formats. */
  datatype DiskImage =
    | D64Image(d64: D64.D64Disk)
    | StxImage(stx: StxDisk.Disk)
    | AppleImage(apple: AppleDisks.AppleDisk)

  /** `commodore::disk::Format`: a D64 image and the size its file reports. */
  datatype CommodoreFormat = D64Format(size: nat)

  /** `DiskImageGuess`: what the heuristics make of a file before parsing. */
  datatype DiskImageGuess =
    | CommodoreGuess(format: CommodoreFormat, data: seq<bv8>)
    | StxGuess(data: seq<bv8>)
    | AppleGuess(guess: AppleDisks.Guess)

  // ---------------------------------------------------------------------
  // Parsing without a guess
  // ---------------------------------------------------------------------

  /** `disk_image_parser` (image.rs:478-491): `alt` of the D64 parser and
      the STX parser.  The STX parser runs only when the D64 parser fails
      with a recoverable error; a D64 panic or request for more input ends
      the parse, and when both fail the STX failure is reported. */
  function DiskImageParser(s: seq<bv8>): Outcome<DiskImage> {
    match D64.D64DiskParser(s)
    case Done(i, d) => Done(i, D64Image(d))
    case Fail(f) =>
      if f != Error then Fail(f)
      else
        match StxDisk.DiskParser(s)
        case Done(i, d) => Done(i, StxImage(d))
        case Fail(g) => Fail(g)
  }

  /** The STX parser's outcome seen as a `DiskImage`. */
  function AsStx(o: Outcome<StxDisk.Disk>): Outcome<DiskImage> {
    match o
    case Done(i, d) => Done(i, StxImage(d))
    case Fail(g) => Fail(g)
  }

  /** D64 wins: an image with an acceptable BAM sector at 0x16500 and a
      whole directory block after it is a D64 disk, whatever its first
      bytes say; every other image is whatever the STX parser makes of
      it, because the D64 parser only ever fails recoverably. */
  lemma DiskImageParserPriority(s: seq<bv8>)
    ensures var isD64 := D64.DIRECTORY_OFFSET + D64.DIRECTORY_SIZE <= |s| && D64.BamAccepts(s[D64.BAM_OFFSET..]);
      && (isD64 ==> DiskImageParser(s) == Done(s[D64.DIRECTORY_OFFSET + D64.DIRECTORY_SIZE..],
            D64Image(D64.D64Disk(D64.BamAt(s[D64.BAM_OFFSET..]), D64.DirectoryAt(s[D64.DIRECTORY_OFFSET..])))))
      && (!isD64 ==> DiskImageParser(s) == AsStx(StxDisk.DiskParser(s)))
  {
    D64.D64DiskLayout(s);
  }

  /** A file too short to hold a D64 BAM sector and directory block is
      parsed as STX: the STX magic number decides, and a file with more
      than 164 tracks panics. */
  lemma ShortImagesAreStx(s: seq<bv8>)
    requires |s| < D64.DIRECTORY_OFFSET + D64.DIRECTORY_SIZE
    ensures DiskImageParser(s).Done? ==> DiskImageParser(s).value.StxImage?
    ensures !(StxDisk.DISK_HEADER_SIZE <= |s| && s[..4] == StxDisk.MAGIC) ==> DiskImageParser(s) == Fail(Error)
    ensures StxDisk.DISK_HEADER_SIZE <= |s| && s[..4] == StxDisk.MAGIC && s[10] as int > StxDisk.MAX_TRACKS ==>
      DiskImageParser(s) == Fail(Panic)
  {
    DiskImageParserPriority(s);
    StxDisk.DiskParserFailures(s);
  }

  // ---------------------------------------------------------------------
  // Guessing from the filename
  // ---------------------------------------------------------------------

  /** `CommodoreDiskGuess::guess` (commodore/disk.rs:61-84): a name whose
      last extension lower-cases to "d64"; `filesize` is what the
      file-system metadata reports. */
  function CommodoreGuessOf(name: string, filesize: nat, data: seq<bv8>): Option<DiskImageGuess> {
    if AppleDisks.LowerIs(AppleDisks.Extension(name), "d64") then Some(CommodoreGuess(D64Format(filesize), data))
    else None
  }

  /** The Apple heuristics as a `DiskImageGuess`. */
  function AppleGuessOf(name: string, filesize: nat, data: seq<bv8>): Option<DiskImageGuess> {
    match AppleDisks.FormatFromFilename(name, filesize, data)
    case Some(g) => Some(AppleGuess(g))
    case None => None
  }

  /** `format_from_filename_and_data` (image.rs:531-557): the Commodore
      guess when there is one, otherwise the Apple guess. */
  function FormatFromFilenameAndData(name: string, filesize: nat, data: seq<bv8>): Option<DiskImageGuess> {
    var commodore := CommodoreGuessOf(name, filesize, data);
    if commodore.Some? then commodore else AppleGuessOf(name, filesize, data)
  }

  /** A file is guessed exactly when its extension is one of "d64", "do",
      "dsk" or "nib" in any case; "d64" gives a Commodore guess carrying
      the data and the size, and the others the Apple guess.  No guess is
      ever an STX guess. */
  lemma GuessPriority(name: string, filesize: nat, data: seq<bv8>)
    ensures var ext := AppleDisks.Extension(name);
      var r := FormatFromFilenameAndData(name, filesize, data);
      && (r.Some? <==> (AppleDisks.LowerIs(ext, "d64") || AppleDisks.LowerIs(ext, "do") ||
                        AppleDisks.LowerIs(ext, "dsk") || AppleDisks.LowerIs(ext, "nib")))
      && (r.Some? ==> !r.value.StxGuess?)
      && (r.Some? && r.value.CommodoreGuess? <==> AppleDisks.LowerIs(ext, "d64"))
      && (AppleDisks.LowerIs(ext, "d64") ==> r == Some(CommodoreGuess(D64Format(filesize), data)))
      && (r.Some? && r.value.AppleGuess? ==> Some(r.value.guess) == AppleDisks.FormatFromFilename(name, filesize, data))
  {
    var ext := AppleDisks.Extension(name);
    if AppleDisks.LowerIs(ext, "d64") {
      D64ExcludesApple(ext);
    }
  }

  /** An extension reading "d64" reads as none of the Apple ones. */
  lemma D64ExcludesApple(ext: string)
    requires AppleDisks.LowerIs(ext, "d64")
    ensures !AppleDisks.LowerIs(ext, "do") && !AppleDisks.LowerIs(ext, "dsk") && !AppleDisks.LowerIs(ext, "nib")
  {
    assert AppleDisks.LowerChar(ext[1]) == '6';
    assert AppleDisks.LowerChar(ext[0]) == 'd';
  }

  /** The unit test of image.rs:596-640: a file named `*.dsk` is guessed
      as a plain DOS 3.3 image of the size the file reports. */
  lemma DskFilesAreApple(stem: string, filesize: nat, data: seq<bv8>)
    ensures FormatFromFilenameAndData(stem + ".dsk", filesize, data) ==
      Some(AppleGuess(AppleDisks.Guess(AppleDisks.Plain, AppleDisks.DOS33(filesize), data)))
  {
    var name := stem + ".dsk";
    assert name == stem + "." + "dsk";
    AppleDisks.ExtensionOfDotted(stem, "dsk");
    assert AppleDisks.LowerIs("dsk", "dsk");
    assert !AppleDisks.LowerIs("dsk", "d64") by {
      assert AppleDisks.LowerChar("dsk"[1]) != "d64"[1];
    }
  }

  /** Upper-case D64 names are Commodore guesses too. */
  lemma UpperCaseD64(stem: string, filesize: nat, data: seq<bv8>)
    ensures FormatFromFilenameAndData(stem + ".D64", filesize, data) == Some(CommodoreGuess(D64Format(filesize), data))
  {
    assert stem + ".D64" == stem + "." + "D64";
    AppleDisks.ExtensionOfDotted(stem, "D64");
    assert AppleDisks.LowerChar('D') == 'd' by { assert 'D' as int == 68 && 'd' as int == 100; }
    assert AppleDisks.LowerIs("D64", "d64");
  }

  // ---------------------------------------------------------------------
  // Parsing from a guess
  // ---------------------------------------------------------------------

  /** `CommodoreDiskGuess::parse` (commodore/disk.rs:86-97): the D64
      parser; any failure is an invalid image. */
  function ParseCommodoreGuess(data: seq<bv8>): (r: Result<DiskImage>) {
    match D64.D64DiskParser(data)
    case Done(_, d) => Ok(D64Image(d))
    case Fail(_) => Err(Invalid)
  }

  /** An Apple parse result as a `DiskImage`. */
  function AsApple(r: Result<AppleDisks.AppleDisk>): Result<DiskImage> {
    match r
    case Ok(d) => Ok(AppleImage(d))
    case Err(e) => Err(e)
  }

  /** `DiskImageGuess::parse_disk_image` (image.rs:338-361): Commodore and
      STX guesses are not parsed here; an Apple guess goes to the Apple
      parser. */
  function ParseGuess(g: DiskImageGuess, ignoreChecksums: bool, fuel: nat): Result<DiskImage> {
    match g
    case CommodoreGuess(_, _) => Err(Unimplemented)
    case StxGuess(_) => Err(Unimplemented)
    case AppleGuess(guess) => AsApple(AppleDisks.ParseAppleImage(guess, ignoreChecksums, fuel))
  }

  /** `file_parser` (image.rs:435-473): Apple and Commodore guesses are
      parsed; a file without a guess reaches `todo!()` and an STX guess
      `panic!`. */
  function FileParser(name: string, filesize: nat, data: seq<bv8>, ignoreChecksums: bool, fuel: nat): Result<DiskImage> {
    match FormatFromFilenameAndData(name, filesize, data)
    case None => Err(Panicked)
    case Some(AppleGuess(guess)) => AsApple(AppleDisks.ParseAppleImage(guess, ignoreChecksums, fuel))
    case Some(CommodoreGuess(_, d)) => ParseCommodoreGuess(d)
    case Some(StxGuess(_)) => Err(Panicked)
  }

  /** What `file_parser` does with a name: an unrecognised extension
      panics; a D64 name succeeds exactly when the data holds an
      acceptable BAM sector and a directory block, and is otherwise
      invalid; an Apple name gives what the Apple parser gives. */
  lemma FileParserOutcomes(name: string, filesize: nat, data: seq<bv8>, ignoreChecksums: bool, fuel: nat)
    ensures FormatFromFilenameAndData(name, filesize, data).None? ==>
      FileParser(name, filesize, data, ignoreChecksums, fuel) == Err(Panicked)
    ensures AppleDisks.LowerIs(AppleDisks.Extension(name), "d64") ==>
      var r := FileParser(name, filesize, data, ignoreChecksums, fuel);
      && (r.Ok? <==> D64.DIRECTORY_OFFSET + D64.DIRECTORY_SIZE <= |data| && D64.BamAccepts(data[D64.BAM_OFFSET..]))
      && (r.Ok? ==> r.value == D64Image(D64.D64Disk(D64.BamAt(data[D64.BAM_OFFSET..]), D64.DirectoryAt(data[D64.DIRECTORY_OFFSET..]))))
      && (r.Err? ==> r.error == Invalid)
    ensures var g := AppleDisks.FormatFromFilename(name, filesize, data);
      !AppleDisks.LowerIs(AppleDisks.Extension(name), "d64") && g.Some? ==>
      FileParser(name, filesize, data, ignoreChecksums, fuel) == AsApple(AppleDisks.ParseAppleImage(g.value, ignoreChecksums, fuel))
  {
    GuessPriority(name, filesize, data);
    D64.D64DiskLayout(data);
  }

  /** The two entry points disagree on D64 files: `file_parser` parses a
      D64 image, while `parse_disk_image` on the very guess it makes
      refuses it as unimplemented.  On Apple files they agree. */
  lemma FileParserAndParseGuess(name: string, filesize: nat, data: seq<bv8>, ignoreChecksums: bool, fuel: nat)
    requires FormatFromFilenameAndData(name, filesize, data).Some?
    ensures var g := FormatFromFilenameAndData(name, filesize, data).value;
      && (g.AppleGuess? ==> FileParser(name, filesize, data, ignoreChecksums, fuel) == ParseGuess(g, ignoreChecksums, fuel))
      && (g.CommodoreGuess? ==>
            && ParseGuess(g, ignoreChecksums, fuel) == Err(Unimplemented)
            && FileParser(name, filesize, data, ignoreChecksums, fuel) == ParseCommodoreGuess(data)
            && ParseCommodoreGuess(data) != Err(Unimplemented))
  {
    GuessPriority(name, filesize, data);
  }

  // ---------------------------------------------------------------------
  // Image data and saving
  // ---------------------------------------------------------------------

  /** `disk_image_data` (image.rs:562-582): the sector data of an STX
      image; nothing for the other formats. */
  function DiskImageData(img: DiskImage): Option<seq<bv8>> {
    match img
    case StxImage(d) => Some(StxDisk.ImageData(d.tracks))
    case _ => None
  }

  /** `DiskImage::save_disk_image` (image.rs:363-405): the bytes that
      would be written, if the output file can be created (`created`).
      STX images write their sector data and nibble images their decoded
      sectors; a DOS 3.3 disk writes the selected file; ProDOS and D64
      images are not supported. */
  function SaveDiskImage(img: DiskImage, selected: Option<seq<bv8>>, created: bool): Result<Option<seq<bv8>>> {
    match img
    case StxImage(d) => Ok(if created then Some(StxDisk.ImageData(d.tracks)) else None)
    case AppleImage(a) =>
      (match a.data
       case NibbleData(n) => Ok(if created then Some(NibbleImage.NibbleImageBytes(n)) else None)
       case DOS(dos) => AppleDisks.DosSave(dos, selected, created)
       case ProDOS => Err(Unimplemented))
    case D64Image(_) => Err(Unimplemented)
  }

  /** Saving is unsupported exactly for D64 and ProDOS images, and the
      only other failures are those of saving a DOS 3.3 file: no name
      selected, or a name not on the disk. */
  lemma SaveOutcomes(img: DiskImage, selected: Option<seq<bv8>>, created: bool)
    ensures SaveDiskImage(img, selected, created) == Err(Unimplemented) <==>
      img.D64Image? || (img.AppleImage? && img.apple.data.ProDOS?)
    ensures SaveDiskImage(img, selected, created).Err? && !(img.AppleImage? && img.apple.data.DOS?) ==>
      SaveDiskImage(img, selected, created) == Err(Unimplemented)
    ensures img.AppleImage? && img.apple.data.DOS? ==>
      (SaveDiskImage(img, selected, created).Err? <==>
        selected.None? || (created && selected.value !in img.apple.data.dos.files))
    ensures SaveDiskImage(img, selected, created).Ok? ==> (SaveDiskImage(img, selected, created).value.Some? <==> created)
  {
    if img.AppleImage? && img.apple.data.DOS? {
      var r := AppleDisks.DosSave(img.apple.data.dos, selected, created);
      assert r.Err? ==> r.error == Message || r.error == Panicked;
    }
  }

  /** `disk_image_data` is exactly what saving an STX image writes, and it
      is absent for every image that is not STX. */
  lemma ImageDataIsSavedData(img: DiskImage, selected: Option<seq<bv8>>)
    ensures DiskImageData(img).Some? <==> img.StxImage?
    ensures img.StxImage? ==> SaveDiskImage(img, selected, true) == Ok(DiskImageData(img))
  {
  }

  /** For an STX image, sector `j` of track `k` sits in the extracted data
      right after the data of the tracks before and the sectors before it. */
  lemma StxSectorInData(img: DiskImage, k: nat, j: nat)
    requires img.StxImage?
    requires k < |img.stx.tracks| && img.stx.tracks[k].sectorData.Some? && j < |img.stx.tracks[k].sectorData.value|
    ensures var data := DiskImageData(img).value;
      var pieces := img.stx.tracks[k].sectorData.value;
      var offset := |StxDisk.ImageData(img.stx.tracks[..k])| + |StxDisk.Concat(pieces[..j])|;
      offset + |pieces[j]| <= |data| && data[offset..offset + |pieces[j]|] == pieces[j]
  {
    StxDisk.SectorInImage(img.stx.tracks, k, j);
  }
}
