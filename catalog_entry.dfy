/** The 35-byte file entry of an Apple DOS 3.3 catalog sector: where the
    file's first track/sector list lives, its type and lock bit, its 30-byte
    name with the high bit set on every character, and its length in
    sectors. */
module AppleFileEntry {
  import opened Parsing
  import opened Serialize

  datatype FileType =
    | Text | IntegerBasic | AppleSoftBasic | Binary | SType
    | RelocatableObjectModule | AType | BType | Unknown

  /** `file_type as u8`: the enum's discriminant.  The codes are written in
      decimal in the enum (10, 20, 40), and `Unknown`, which has no explicit
      value, takes the one after `BType`, 41. */
  function FileTypeCode(t: FileType): (c: bv8)
    ensures c < 0x80
  {
    match t
    case Text => 0
    case IntegerBasic => 1
    case AppleSoftBasic => 2
    case Binary => 4
    case SType => 8
    case RelocatableObjectModule => 10
    case AType => 20
    case BType => 40
    case Unknown => 41
  }

  /** The codes the parser recognises. */
  predicate KnownTypeCode(code: bv8) {
    code == 0 || code == 1 || code == 2 || code == 4 || code == 8
    || code == 10 || code == 20 || code == 40
  }

  /** The type match of `parse_file_entry`, applied to the low seven bits of
      the type byte: a known code names its type, anything else is
      `Unknown`. */
  function FileTypeOf(code: bv8): (t: FileType)
    ensures t == Unknown <==> !KnownTypeCode(code)
    ensures t != Unknown ==> FileTypeCode(t) == code
  {
    if code == 0 then Text
    else if code == 1 then IntegerBasic
    else if code == 2 then AppleSoftBasic
    else if code == 4 then Binary
    else if code == 8 then SType
    else if code == 10 then RelocatableObjectModule
    else if code == 20 then AType
    else if code == 40 then BType
    else Unknown
  }

  /** Every type survives being written as its code and read back, `Unknown`
      included, since 41 is not a known code. */
  lemma FileTypeCodeRoundTrip(t: FileType)
    ensures FileTypeOf(FileTypeCode(t)) == t
  {
  }

  datatype FileEntry = FileEntry(
    track: bv8,            // track of the first track/sector list sector
    sector: bv8,           // sector of the first track/sector list sector
    fileType: FileType,
    locked: bool,
    fileName: seq<bv8>,    // 30 bytes when parsed; any length when built by hand
    lengthInSectors: u16)

  /** The type byte `as_vec` writes: the code, plus 0x80 when locked. */
  function TypeByte(t: FileType, locked: bool): (b: bv8)
    ensures b & 0x7F == FileTypeCode(t)
    ensures (b & 0x80 != 0) == locked
  {
    if locked then FileTypeCode(t) + 0x80 else FileTypeCode(t)
  }

  /** `parse_file_entry`: track, sector, type byte (bit 7 is the lock), 30
      name bytes and a little-endian length; 35 bytes in all. */
  function ParseFileEntry(s: seq<bv8>): (r: Outcome<FileEntry>)
    ensures r.Done? <==> 35 <= |s|
    ensures r.Done? ==> r.rest == s[35..]
    ensures r.Done? ==> r.value.track == s[0] && r.value.sector == s[1]
    ensures r.Done? ==> r.value.locked == (s[2] & 0x80 != 0)
    ensures r.Done? ==> r.value.fileType == FileTypeOf(s[2] & 0x7F)
    ensures r.Done? ==> r.value.fileName == s[3..33]
    ensures r.Done? ==> r.value.lengthInSectors == LeWord(s[33], s[34])
    ensures r.Fail? ==> r.failure == Error
  {
    var (i1, track) :- U8(s);
    var (i2, sector) :- U8(i1);
    var (i3, typeByte) :- U8(i2);
    var (i4, name) :- Take(i3, 30);
    var (i5, length) :- LeU16(i4);
    assert s[3..33] == name by { assert i3 == s[3..]; }
    Done(i5, FileEntry(track, sector, FileTypeOf(typeByte & 0x7F), typeByte & 0x80 != 0, name, length))
  }

  /** A name `as_vec` can write without overflowing `c + 0x80`. */
  predicate Ascii(name: seq<bv8>) {
    forall k :: 0 <= k < |name| ==> name[k] < 0x80
  }

  function SetHighBit(c: bv8): (d: bv8)
    requires c < 0x80
    ensures d >= 0x80
  {
    c + 0x80
  }

  /** The name with 0x80 added to every character. */
  function HighAscii(name: seq<bv8>): (r: seq<bv8>)
    requires Ascii(name)
    ensures |r| == |name|
    ensures forall k :: 0 <= k < |r| ==> r[k] >= 0x80
  {
    seq(|name|, k requires 0 <= k < |name| => SetHighBit(name[k]))
  }

  /** `n` bytes of 0xA0, a space with the high bit set. */
  function Padding(n: nat): (r: seq<bv8>)
    ensures |r| == n && forall k :: 0 <= k < n ==> r[k] == 0xA0
  {
    seq(n, _ => 0xA0)
  }

  /** The 30-byte name field `as_vec` writes for a name. */
  function NameField(name: seq<bv8>): (r: seq<bv8>)
    requires Ascii(name) && |name| <= 30
    ensures |r| == 30
  {
    HighAscii(name) + Padding(30 - |name|)
  }

  /** `FileEntry::as_vec`: an empty or over-long name is an `Invalid` error;
      a name byte of 0x80 or more overflows `c + 0x80`, which panics;
      otherwise the 35 bytes `parse_file_entry` reads. */
  function FileEntryBytes(e: FileEntry): (r: Result<seq<bv8>>)
    ensures r.Ok? ==> |r.value| == 35
    ensures r == Err(Invalid) <==> |e.fileName| == 0 || |e.fileName| > 30
    ensures r == Err(Panicked) <==> 1 <= |e.fileName| <= 30 && !Ascii(e.fileName)
  {
    if |e.fileName| == 0 || |e.fileName| > 30 then Err(Invalid)
    else if !Ascii(e.fileName) then Err(Panicked)
    else Ok([e.track, e.sector, TypeByte(e.fileType, e.locked)]
            + NameField(e.fileName) + LittleEndianWordToBytes(e.lengthInSectors))
  }

  /** `FileEntry::as_vec` as the source writes it, pushing byte by byte. */
  method FileEntryAsVec(e: FileEntry) returns (r: Result<seq<bv8>>)
    ensures r == FileEntryBytes(e)
  {
    var bytes: seq<bv8> := [e.track, e.sector];
    var fileType := if e.locked then FileTypeCode(e.fileType) + 0x80 else FileTypeCode(e.fileType);
    bytes := bytes + [fileType];
    var numBytes := |e.fileName|;
    if numBytes == 0 || numBytes > 30 {
      return Err(Invalid);
    }
    var padding: seq<bv8> := [];
    while |padding| < 30 - numBytes
      invariant |padding| <= 30 - numBytes
      invariant forall k :: 0 <= k < |padding| ==> padding[k] == 0xA0
    {
      padding := padding + [0xA0];
    }
    var converted: seq<bv8> := [];
    for i := 0 to numBytes
      invariant Ascii(e.fileName[..i])
      invariant converted == HighAscii(e.fileName[..i])
    {
      if e.fileName[i] >= 0x80 {
        return Err(Panicked);
      }
      converted := converted + [e.fileName[i] + 0x80];
    }
    assert e.fileName[..numBytes] == e.fileName;
    assert Ascii(e.fileName) && converted == HighAscii(e.fileName);
    assert padding == Padding(30 - numBytes);
    assert fileType == TypeByte(e.fileType, e.locked);
    bytes := bytes + converted + padding + LittleEndianWordToBytes(e.lengthInSectors);
    assert bytes == [e.track, e.sector, TypeByte(e.fileType, e.locked)]
      + NameField(e.fileName) + LittleEndianWordToBytes(e.lengthInSectors);
    return Ok(bytes);
  }

  /** Parsing what `as_vec` wrote gives the entry back, with its name stored
      as the 30-byte field. */
  lemma FileEntryRoundTrip(e: FileEntry, rest: seq<bv8>)
    requires FileEntryBytes(e).Ok?
    ensures ParseFileEntry(FileEntryBytes(e).value + rest)
         == Done(rest, e.(fileName := NameField(e.fileName)))
  {
    var b := FileEntryBytes(e).value;
    var s := b + rest;
    var w := LittleEndianWordToBytes(e.lengthInSectors);
    assert s[2] == TypeByte(e.fileType, e.locked);
    FileTypeCodeRoundTrip(e.fileType);
    assert s[3..33] == NameField(e.fileName);
    assert s[33] == w[0] && s[34] == w[1];
    assert s[35..] == rest;
  }

  /** `c > 0x80 ? c - 0x80 : c`, the per-byte map of `filename()`. */
  function ClearHighBit(c: bv8): (d: bv8)
    ensures d <= 0x80
    ensures d == 0x80 <==> c == 0x80
  {
    if c > 0x80 then c - 0x80 else c
  }

  /** `trim_end_matches(' ')`: drop trailing spaces. */
  function TrimEnd(s: seq<bv8>): (r: seq<bv8>)
    ensures |r| <= |s| && r == s[..|r|]
    ensures |r| > 0 ==> r[|r| - 1] != 0x20
    ensures forall k :: |r| <= k < |s| ==> s[k] == 0x20
  {
    if |s| > 0 && s[|s| - 1] == 0x20 then TrimEnd(s[..|s| - 1]) else s
  }

  /** A stored name `filename()` can convert: no 0x80 byte. */
  predicate ConvertibleName(name: seq<bv8>) {
    forall k :: 0 <= k < |name| ==> name[k] != 0x80
  }

  /** `FileEntry::filename`: clear the high bit of each byte above 0x80, read
      the result as UTF-8 and trim trailing spaces.  After the map every
      byte is ASCII except a stored 0x80, which stays a lone UTF-8
      continuation byte, so the conversion fails exactly when the name holds
      a 0x80 byte. */
  function Filename(name: seq<bv8>): (r: Option<seq<bv8>>)
    ensures r.None? <==> exists k :: 0 <= k < |name| && name[k] == 0x80
    ensures r.Some? <==> ConvertibleName(name)
    ensures r.Some? ==> |r.value| <= |name| && Ascii(r.value)
    ensures r.Some? && |r.value| > 0 ==> r.value[|r.value| - 1] != 0x20
  {
    var plain := seq(|name|, k requires 0 <= k < |name| => ClearHighBit(name[k]));
    if exists k :: 0 <= k < |plain| && plain[k] == 0x80 then None
    else
      assert forall k :: 0 <= k < |name| ==> plain[k] == ClearHighBit(name[k]);
      Some(TrimEnd(plain))
  }

  /** A name `as_vec` accepts and `filename()` gives back unchanged: 1 to 30
      ASCII characters, none of them NUL (which would be stored as 0x80),
      not ending in a space. */
  predicate StorableName(name: seq<bv8>) {
    1 <= |name| <= 30 && Ascii(name)
    && (forall k :: 0 <= k < |name| ==> name[k] != 0)
    && name[|name| - 1] != 0x20
  }

  /** `filename()` undoes `as_vec`'s name field: the high bits come off and
      the 0xA0 padding, read as spaces, is trimmed. */
  lemma FilenameOfNameField(name: seq<bv8>)
    requires StorableName(name)
    ensures Filename(NameField(name)) == Some(name)
  {
    var f := NameField(name);
    var plain := seq(|f|, k requires 0 <= k < |f| => ClearHighBit(f[k]));
    forall k | 0 <= k < |name|
      ensures plain[k] == name[k]
    {
      assert f[k] == SetHighBit(name[k]);
    }
    forall k | |name| <= k < 30
      ensures plain[k] == 0x20
    {
      assert f[k] == 0xA0;
    }
    assert !exists k :: 0 <= k < |plain| && plain[k] == 0x80;
    TrimSpaces(plain, |name|);
    assert plain[..|name|] == name;
  }

  /** Trimming a sequence that is `n` bytes ending in a non-space, then
      spaces, leaves the `n` bytes. */
  lemma {:induction false} TrimSpaces(s: seq<bv8>, n: nat)
    requires 1 <= n <= |s| && s[n - 1] != 0x20
    requires forall k :: n <= k < |s| ==> s[k] == 0x20
    ensures TrimEnd(s) == s[..n]
    decreases |s|
  {
    if |s| > n {
      TrimSpaces(s[..|s| - 1], n);
      assert s[..|s| - 1][..n] == s[..n];
    }
  }

  /** The entry of the serialisation tests: "HELLO", AppleSoft BASIC, 2
      sectors, first list at track 0x12 sector 0x0F; locked it is written
      with type byte 0x82, and its name reads back as "HELLO". */
  lemma HelloEntryExample()
    ensures var hello: seq<bv8> := [0x48, 0x45, 0x4C, 0x4C, 0x4F];
      && FileEntryBytes(FileEntry(0x12, 0x0F, AppleSoftBasic, true, hello, 2))
         == Ok([0x12, 0x0F, 0x82, 0xC8, 0xC5, 0xCC, 0xCC, 0xCF] + Padding(25) + [0x02, 0x00])
      && Filename(NameField(hello)) == Some(hello)
  {
    var hello: seq<bv8> := [0x48, 0x45, 0x4C, 0x4C, 0x4F];
    assert HighAscii(hello) == [0xC8, 0xC5, 0xCC, 0xCC, 0xCF];
    assert LittleEndianWordToBytes(2) == [0x02, 0x00];
    assert NameField(hello) == [0xC8, 0xC5, 0xCC, 0xCC, 0xCF] + Padding(25);
    assert TypeByte(AppleSoftBasic, true) == 0x82;
    var e := FileEntry(0x12, 0x0F, AppleSoftBasic, true, hello, 2);
    assert FileEntryBytes(e) == Ok([0x12, 0x0F, 0x82] + NameField(hello) + [0x02, 0x00]);
    assert [0x12, 0x0F, 0x82] + ([0xC8, 0xC5, 0xCC, 0xCC, 0xCF] + Padding(25)) + [0x02, 0x00]
        == [0x12, 0x0F, 0x82, 0xC8, 0xC5, 0xCC, 0xCC, 0xCF] + Padding(25) + [0x02, 0x00];
    FilenameOfNameField(hello);
  }

  /** The failing serialisation tests: empty and 31-byte names. */
  lemma NameLengthErrorExamples(e: FileEntry)
    requires |e.fileName| == 0 || |e.fileName| == 31
    ensures FileEntryBytes(e) == Err(Invalid)
  {
  }
}
