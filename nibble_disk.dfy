/** Whole nibble images (src/disk_format/apple/nibble.rs:417-536): a run of
    address and data fields, decoded into volume -> track -> sector maps. */
module NibbleImage {
  import opened Parsing
  import opened Nibble

  /** An address field with the data field that follows it. */
  datatype Field = Field(addressField: AddressField, dataField: DataField)

  /** `parse_nib_sector` (nibble.rs:503-516). */
  function ParseNibSector(ignoreChecksums: bool, s: seq<bv8>): (r: Outcome<Field>)
    ensures r.Done? ==> IsSuffix(r.rest, s) && |r.rest| < |s|
    ensures r.Fail? ==> r.failure == Incomplete || r.failure == Panic || r.failure == Error
    ensures r.Fail? && r.failure == Panic ==> !ignoreChecksums
  {
    var (i, header) :- FindAndParseAddressField(ignoreChecksums, s);
    var (j, dataField) :- FindAndParseDataField(i);
    SuffixTransitive(j, i, s);
    Done(j, Field(header, dataField))
  }

  /** The parser as the combinators see it. */
  function SectorParser(ignoreChecksums: bool): seq<bv8> -> Outcome<Field> {
    s => ParseNibSector(ignoreChecksums, s)
  }

  datatype Track = Track(sectors: map<u8, Sector>)
  datatype Volume = Volume(tracks: map<u8, Track>)

  /** `NibbleDisk` (nibble.rs:429-434): BTreeMaps keyed by volume, track and sector. */
  datatype NibbleDisk = NibbleDisk(volumes: map<u8, Volume>)

  const EMPTY_DISK := NibbleDisk(map[])

  /** A sector's position: volume, track, sector. */
  type Address = (u8, u8, u8)

  function AddressOf(f: Field): Address {
    (f.addressField.volume as u8, f.addressField.track as u8, f.addressField.sector as u8)
  }

  function Lookup(disk: NibbleDisk, a: Address): Option<Sector> {
    if a.0 in disk.volumes && a.1 in disk.volumes[a.0].tracks && a.2 in disk.volumes[a.0].tracks[a.1].sectors
    then Some(disk.volumes[a.0].tracks[a.1].sectors[a.2])
    else None
  }

  /** Store a sector, creating its volume and track on first use (`or_default`). */
  function Put(disk: NibbleDisk, a: Address, sector: Sector): NibbleDisk {
    var volume := if a.0 in disk.volumes then disk.volumes[a.0] else Volume(map[]);
    var track := if a.1 in volume.tracks then volume.tracks[a.1] else Track(map[]);
    NibbleDisk(disk.volumes[a.0 := Volume(volume.tracks[a.1 := Track(track.sectors[a.2 := sector])])])
  }

  /** Storing a sector changes the lookup at its address and nowhere else. */
  lemma LookupPut(disk: NibbleDisk, a: Address, sector: Sector, b: Address)
    ensures Lookup(Put(disk, a, sector), b) == if b == a then Some(sector) else Lookup(disk, b)
  {
    var volume := if a.0 in disk.volumes then disk.volumes[a.0] else Volume(map[]);
    var track := if a.1 in volume.tracks then volume.tracks[a.1] else Track(map[]);
    var r := Put(disk, a, sector);
    assert r.volumes == disk.volumes[a.0 := Volume(volume.tracks[a.1 := Track(track.sectors[a.2 := sector])])];
    if b.0 == a.0 {
      assert Lookup(disk, b).Some? ==> b.1 in volume.tracks;
      if b.1 == a.1 {
        assert Lookup(disk, b).Some? ==> b.2 in track.sectors;
        if b.2 == a.2 {
          assert b == a;
        }
      }
    }
  }

  /** One step of the insertion loop: `or_insert_with` decodes the data field
      only when no sector is stored at its address yet. */
  function Insert(ignoreChecksums: bool, disk: NibbleDisk, f: Field): Result<NibbleDisk> {
    if Lookup(disk, AddressOf(f)).Some? then Ok(disk)
    else
      var sector :- TransformedSector(ignoreChecksums, f.dataField);
      Ok(Put(disk, AddressOf(f), sector))
  }

  /** The insertion loop over all fields, in order; a decoding panic aborts. */
  function Assemble(ignoreChecksums: bool, disk: NibbleDisk, fields: seq<Field>): Result<NibbleDisk>
    decreases |fields|
  {
    if |fields| == 0 then Ok(disk)
    else
      var next :- Insert(ignoreChecksums, disk, fields[0]);
      Assemble(ignoreChecksums, next, fields[1..])
  }

  /** What `parse_nib_disk` returns: the fields `many0` collects, assembled. */
  function NibDisk(ignoreChecksums: bool, s: seq<bv8>): Outcome<NibbleDisk> {
    var (i, fields) :- Many0(SectorParser(ignoreChecksums), s);
    match Assemble(ignoreChecksums, EMPTY_DISK, fields)
    case Ok(disk) => Done(i, disk)
    case Err(_) => Fail(Panic)
  }

  /** `parse_nib_disk` (nibble.rs:519-536). */
  method ParseNibDisk(ignoreChecksums: bool, s: seq<bv8>) returns (r: Outcome<NibbleDisk>)
    ensures r == NibDisk(ignoreChecksums, s)
  {
    var parsed := Many0(SectorParser(ignoreChecksums), s);
    if parsed.Fail? {
      return Fail(parsed.failure);
    }
    var (i, fields) := parsed.Extract();
    var disk := EMPTY_DISK;
    for k := 0 to |fields|
      invariant Assemble(ignoreChecksums, EMPTY_DISK, fields) == Assemble(ignoreChecksums, disk, fields[k..])
    {
      var field := fields[k];
      assert fields[k..][1..] == fields[k + 1..];
      var address := AddressOf(field);
      if Lookup(disk, address).None? {
        var sector := TransformDataField(ignoreChecksums, field.dataField);
        if sector.Err? {
          return Fail(Panic);
        }
        disk := Put(disk, address, sector.value);
      }
    }
    assert fields[|fields|..] == [];
    r := Done(i, disk);
  }

  /** No earlier field has the address of field `i`. */
  predicate FirstAt(fields: seq<Field>, i: nat)
    requires i < |fields|
  {
    forall j :: 0 <= j < i ==> AddressOf(fields[j]) != AddressOf(fields[i])
  }

  /** The first field with address `a`. */
  function FirstWith(fields: seq<Field>, a: Address): (r: Option<nat>)
    ensures r.Some? ==> r.value < |fields| && AddressOf(fields[r.value]) == a && FirstAt(fields, r.value)
    ensures r.None? ==> forall i :: 0 <= i < |fields| ==> AddressOf(fields[i]) != a
  {
    if |fields| == 0 then None
    else if AddressOf(fields[0]) == a then Some(0)
    else match FirstWith(fields[1..], a)
      case Some(i) => Some(i + 1)
      case None => None
  }

  /** The sector a data field decodes to when its checksum is not enforced. */
  function Decoded(df: DataField): Sector {
    Sector(Denibblize(DecodedBuffer(df.data)))
  }

  /** One insertion decodes a field only at a vacant address. */
  lemma InsertLookup(ignoreChecksums: bool, disk: NibbleDisk, f: Field)
    ensures Insert(ignoreChecksums, disk, f).Ok? <==>
      Lookup(disk, AddressOf(f)).Some? || TransformedSector(ignoreChecksums, f.dataField).Ok?
    ensures Insert(ignoreChecksums, disk, f).Ok? ==> forall a ::
      Lookup(Insert(ignoreChecksums, disk, f).value, a) ==
        if a == AddressOf(f) && Lookup(disk, a).None? then Some(Decoded(f.dataField)) else Lookup(disk, a)
  {
    if Lookup(disk, AddressOf(f)).None? && TransformedSector(ignoreChecksums, f.dataField).Ok? {
      forall a ensures Lookup(Put(disk, AddressOf(f), Decoded(f.dataField)), a) ==
        if a == AddressOf(f) then Some(Decoded(f.dataField)) else Lookup(disk, a)
      {
        LookupPut(disk, AddressOf(f), Decoded(f.dataField), a);
      }
    }
  }

  /** Field i + 1 is a first vacant occurrence in the whole list exactly when
      field i is one in the rest, after the first field has been inserted. */
  lemma FirstAtShift(ignoreChecksums: bool, disk: NibbleDisk, fields: seq<Field>, next: NibbleDisk, i: nat)
    requires 0 < i < |fields| && Insert(ignoreChecksums, disk, fields[0]) == Ok(next)
    ensures (FirstAt(fields, i) && Lookup(disk, AddressOf(fields[i])).None?) <==>
            (FirstAt(fields[1..], i - 1) && Lookup(next, AddressOf(fields[1..][i - 1])).None?)
  {
    var rest := fields[1..];
    InsertLookup(ignoreChecksums, disk, fields[0]);
    assert fields[i] == rest[i - 1];
    if FirstAt(rest, i - 1) && Lookup(next, AddressOf(rest[i - 1])).None? {
      forall j | 0 <= j < i ensures AddressOf(fields[j]) != AddressOf(fields[i]) {
        if j > 0 {
          assert fields[j] == rest[j - 1];
        }
      }
    }
    if FirstAt(fields, i) && Lookup(disk, AddressOf(fields[i])).None? {
      assert AddressOf(fields[0]) != AddressOf(fields[i]);
      forall j | 0 <= j < i - 1 ensures AddressOf(rest[j]) != AddressOf(rest[i - 1]) {
        assert rest[j] == fields[j + 1];
      }
    }
  }

  /** Assembly fails exactly when a field that is the first at its address,
      where nothing was stored before, has a bad checksum that is not ignored. */
  lemma {:induction false} AssembleSucceeds(ignoreChecksums: bool, disk: NibbleDisk, fields: seq<Field>)
    ensures Assemble(ignoreChecksums, disk, fields).Ok? <==>
      forall i :: 0 <= i < |fields| && FirstAt(fields, i) && Lookup(disk, AddressOf(fields[i])).None? ==>
        TransformedSector(ignoreChecksums, fields[i].dataField).Ok?
    decreases |fields|
  {
    if |fields| > 0 {
      var r := Insert(ignoreChecksums, disk, fields[0]);
      InsertLookup(ignoreChecksums, disk, fields[0]);
      assert FirstAt(fields, 0);
      if r.Ok? {
        AssembleSucceeds(ignoreChecksums, r.value, fields[1..]);
        forall i | 0 < i < |fields| {
          FirstAtShift(ignoreChecksums, disk, fields, r.value, i);
        }
      }
    }
  }

  /** After assembly, every address not stored before holds the decoded data
      of the first field with that address, and no sector is stored where no
      field names one: later duplicates are ignored. */
  lemma {:induction false} AssembleFirstWins(ignoreChecksums: bool, disk: NibbleDisk, fields: seq<Field>)
    requires Assemble(ignoreChecksums, disk, fields).Ok?
    ensures forall a ::
      Lookup(Assemble(ignoreChecksums, disk, fields).value, a) ==
        if Lookup(disk, a).Some? then Lookup(disk, a)
        else match FirstWith(fields, a)
          case Some(i) => Some(Decoded(fields[i].dataField))
          case None => None
    decreases |fields|
  {
    if |fields| > 0 {
      var f := fields[0];
      var r := Insert(ignoreChecksums, disk, f);
      InsertLookup(ignoreChecksums, disk, f);
      AssembleFirstWins(ignoreChecksums, r.value, fields[1..]);
      forall a ensures FirstWith(fields, a) == if AddressOf(f) == a then Some(0) else
        match FirstWith(fields[1..], a) case Some(i) => Some(i + 1) case None => None
      {
      }
    }
  }

  /** Every stored sector comes from some parsed field at its address. */
  lemma AssembledSectorsHaveFields(ignoreChecksums: bool, fields: seq<Field>, a: Address)
    requires Assemble(ignoreChecksums, EMPTY_DISK, fields).Ok?
    ensures Lookup(Assemble(ignoreChecksums, EMPTY_DISK, fields).value, a).Some? <==>
      exists i :: 0 <= i < |fields| && AddressOf(fields[i]) == a
  {
    AssembleFirstWins(ignoreChecksums, EMPTY_DISK, fields);
    if exists i :: 0 <= i < |fields| && AddressOf(fields[i]) == a {
      assert FirstWith(fields, a).Some?;
    }
  }

  // ---------------------------------------------------------------------------
  // Streaming input at the end of an image

  /** A sector parse fails with a plain error only in one place: the complete
      `le_u8` for the checksum byte of the data field, at the input `i` left
      after the address field. */
  lemma ParseNibSectorErrorRest(ignoreChecksums: bool, t: seq<bv8>) returns (i: seq<bv8>)
    requires ParseNibSector(ignoreChecksums, t) == Fail(Error)
    ensures IsSuffix(i, t) && FindAndParseDataField(i) == Fail(Error)
  {
    var a := FindAndParseAddressField(ignoreChecksums, t);
    assert a.Done?;
    i := a.rest;
  }

  /** That happens when the input ends right after the 342 data bytes. */
  lemma DataFieldError(i: seq<bv8>) returns (j: nat)
    requires FindAndParseDataField(i) == Fail(Error)
    ensures OccursAt(i, DATA_PROLOGUE, j) && j + 345 == |i|
  {
    j := FindFrom(i, DATA_PROLOGUE, 0).value;
  }

  lemma OccursInSuffix(i: seq<bv8>, t: seq<bv8>, pat: seq<bv8>, j: nat)
    requires IsSuffix(i, t) && OccursAt(i, pat, j)
    ensures OccursAt(t, pat, |t| - |i| + j)
  {
    var k := |t| - |i| + j;
    assert t[k..k + |pat|] == i[j..j + |pat|];
  }

  /** As written, `parse_nib_disk` succeeds only on an image that ends 345
      bytes after a data prologue, with the checksum byte of its last data
      field cut off: any other image ends in a streaming search that asks for
      more input, and `many0` passes that on. */
  lemma NibDiskNeedsTruncatedField(ignoreChecksums: bool, s: seq<bv8>)
    ensures NibDisk(ignoreChecksums, s).Done? ==> exists k :: OccursAt(s, DATA_PROLOGUE, k) && k + 345 == |s|
  {
    var p := SectorParser(ignoreChecksums);
    var m := Many0(p, s);
    if m.Done? {
      Many0Stops(p, s);
      var t := m.rest;
      assert ParseNibSector(ignoreChecksums, t) == Fail(Error);
      var i := ParseNibSectorErrorRest(ignoreChecksums, t);
      var j := DataFieldError(i);
      SuffixTransitive(i, t, s);
      OccursInSuffix(i, s, DATA_PROLOGUE, j);
    }
  }

  /** An empty image, for one, is reported as incomplete. */
  lemma NibDiskEmpty(ignoreChecksums: bool)
    ensures NibDisk(ignoreChecksums, []) == Fail(Incomplete)
  {
    assert ParseNibSector(ignoreChecksums, []) == Fail(Incomplete);
  }

  /** The evidently intended sector parser for a whole image: running out of
      input while looking for the next field ends the list of fields. */
  function ParseNibSectorToEnd(ignoreChecksums: bool, s: seq<bv8>): (r: Outcome<Field>)
    ensures r.Done? ==> IsSuffix(r.rest, s) && |r.rest| < |s|
    ensures r.Fail? ==> r.failure == Error || (r.failure == Panic && !ignoreChecksums)
  {
    match ParseNibSector(ignoreChecksums, s)
    case Fail(Incomplete) => Fail(Error)
    case r => r
  }

  function SectorParserToEnd(ignoreChecksums: bool): seq<bv8> -> Outcome<Field> {
    s => ParseNibSectorToEnd(ignoreChecksums, s)
  }

  /** `parse_nib_disk` with the corrected sector parser. */
  function CorrectedNibDisk(ignoreChecksums: bool, s: seq<bv8>): Outcome<NibbleDisk> {
    var (i, fields) :- Many0(SectorParserToEnd(ignoreChecksums), s);
    match Assemble(ignoreChecksums, EMPTY_DISK, fields)
    case Ok(disk) => Done(i, disk)
    case Err(_) => Fail(Panic)
  }

  /** The corrected parser never asks for more input: it either succeeds or
      panics on a checksum that is not ignored. */
  lemma CorrectedNibDiskComplete(ignoreChecksums: bool, s: seq<bv8>)
    ensures CorrectedNibDisk(ignoreChecksums, s).Fail? ==>
      CorrectedNibDisk(ignoreChecksums, s).failure == Panic && !ignoreChecksums
  {
    Many0Failure(SectorParserToEnd(ignoreChecksums), s, Panic);
    var m := Many0(SectorParserToEnd(ignoreChecksums), s);
    if ignoreChecksums {
      Many0Failure(SectorParserToEnd(ignoreChecksums), s, Error);
      if m.Done? {
        AssembleSucceeds(ignoreChecksums, EMPTY_DISK, m.value);
      }
    }
  }

  // ---------------------------------------------------------------------------
  // Images built from fields

  /** A field the parser can read back: the data prologue and a three-byte
      epilogue, and an address checksum that passes or is ignored. */
  predicate WellFormed(ignoreChecksums: bool, f: Field) {
    f.dataField.prologue == DATA_PROLOGUE && |f.dataField.epilogue| == 3 &&
    (ignoreChecksums ||
     f.addressField.volume ^ f.addressField.track ^ f.addressField.sector == f.addressField.checksum)
  }

  /** The disk bytes of a data field. */
  function DataFieldBytes(df: DataField): seq<bv8> {
    df.prologue + df.data + [df.checksum] + df.epilogue
  }

  /** The disk bytes of a field as a track holds them: a run of sync bytes,
      the address field, the same run again, then the data field. */
  function FieldBytes(f: Field, sync: seq<bv8>): (r: seq<bv8>)
    ensures |r| >= 14
  {
    var a := f.addressField;
    sync + (AddressFieldBytes(a.volume, a.track, a.sector, a.checksum) + (sync + DataFieldBytes(f.dataField)))
  }

  function FieldsBytes(fields: seq<Field>, sync: seq<bv8>): seq<bv8>
    decreases |fields|
  {
    if |fields| == 0 then [] else FieldBytes(fields[0], sync) + FieldsBytes(fields[1..], sync)
  }

  /** A data field after sync bytes parses back to itself. */
  lemma DataFieldParse(df: DataField, sync: seq<bv8>, rest: seq<bv8>)
    requires df.prologue == DATA_PROLOGUE && |df.epilogue| == 3 && Unmarked(sync)
    ensures FindAndParseDataField(sync + (DataFieldBytes(df) + rest)) == Done(rest, df)
  {
    var t := DataFieldBytes(df) + rest;
    assert t[0..3] == DATA_PROLOGUE;
    DataFieldAfterSync(sync, t);
    DataFieldAtStart(df, rest);
  }

  /** Sync bytes before a data prologue are skipped by the search. */
  lemma DataFieldAfterSync(sync: seq<bv8>, t: seq<bv8>)
    requires Unmarked(sync) && OccursAt(t, DATA_PROLOGUE, 0)
    ensures FindAndParseDataField(sync + t) == FindAndParseDataField(t)
  {
    FindAfterGap(sync, t, DATA_PROLOGUE);
    assert (sync + t)[|sync|..] == t;
    assert TakeUntil(sync + t, DATA_PROLOGUE).rest == t;
    assert TakeUntil(t, DATA_PROLOGUE).rest == t;
  }

  lemma DataFieldAtStart(df: DataField, rest: seq<bv8>)
    requires df.prologue == DATA_PROLOGUE && |df.epilogue| == 3
    ensures FindAndParseDataField(DataFieldBytes(df) + rest) == Done(rest, df)
  {
    var s := DataFieldBytes(df) + rest;
    assert s[0..3] == DATA_PROLOGUE;
    assert FindFrom(s, DATA_PROLOGUE, 0) == Some(0);
    assert s[3..345] == df.data && s[345] == df.checksum && s[346..349] == df.epilogue && s[349..] == rest;
  }

  /** A field's bytes parse back to the field, whatever sync bytes surround
      its address field. */
  lemma FieldParse(ignoreChecksums: bool, f: Field, sync: seq<bv8>, rest: seq<bv8>)
    requires WellFormed(ignoreChecksums, f) && Unmarked(sync)
    ensures ParseNibSector(ignoreChecksums, FieldBytes(f, sync) + rest) == Done(rest, f)
  {
    var a := f.addressField;
    var d := sync + (DataFieldBytes(f.dataField) + rest);
    assert FieldBytes(f, sync) + rest == sync + (AddressFieldBytes(a.volume, a.track, a.sector, a.checksum) + d);
    AddressFieldAfterSync(ignoreChecksums, sync, a.volume, a.track, a.sector, a.checksum, d);
    DataFieldParse(f.dataField, sync, rest);
  }

  /** The inputs `many0` sees while reading an image built from fields. */
  function Rests(fields: seq<Field>, sync: seq<bv8>, tail: seq<bv8>): (r: seq<seq<bv8>>)
    ensures |r| == |fields| + 1
    ensures forall k :: 0 <= k <= |fields| ==> r[k] == FieldsBytes(fields[k..], sync) + tail
  {
    seq(|fields| + 1, k requires 0 <= k <= |fields| => FieldsBytes(fields[k..], sync) + tail)
  }

  lemma RestsStep(ignoreChecksums: bool, fields: seq<Field>, sync: seq<bv8>, tail: seq<bv8>, k: nat)
    requires k < |fields| && WellFormed(ignoreChecksums, fields[k]) && Unmarked(sync)
    ensures ParseNibSector(ignoreChecksums, Rests(fields, sync, tail)[k]) == Done(Rests(fields, sync, tail)[k + 1], fields[k])
    ensures |Rests(fields, sync, tail)[k + 1]| < |Rests(fields, sync, tail)[k]|
  {
    assert fields[k..][1..] == fields[k + 1..];
    var next := FieldsBytes(fields[k + 1..], sync) + tail;
    assert FieldsBytes(fields[k..], sync) + tail == FieldBytes(fields[k], sync) + next;
    FieldParse(ignoreChecksums, fields[k], sync, next);
  }

  /** An image of well-formed fields followed by bytes with no address
      prologue: as written, the final search asks for more input, so the whole
      parse reports an incomplete input however many fields precede it. */
  lemma NibDiskOfFields(ignoreChecksums: bool, fields: seq<Field>, sync: seq<bv8>, tail: seq<bv8>)
    requires forall k :: 0 <= k < |fields| ==> WellFormed(ignoreChecksums, fields[k])
    requires Unmarked(sync) && forall k :: !OccursAt(tail, ADDRESS_PROLOGUE, k)
    ensures NibDisk(ignoreChecksums, FieldsBytes(fields, sync) + tail) == Fail(Incomplete)
  {
    var rests := Rests(fields, sync, tail);
    var p := SectorParser(ignoreChecksums);
    forall k | 0 <= k < |fields|
      ensures p(rests[k]) == Done(rests[k + 1], fields[k]) && |rests[k + 1]| < |rests[k]|
    {
      RestsStep(ignoreChecksums, fields, sync, tail, k);
    }
    assert rests[|fields|] == tail;
    assert p(tail) == Fail(Incomplete);
    assert fields[0..] == fields;
    Many0Chain(p, rests, fields);
    assert Many0(p, FieldsBytes(fields, sync) + tail) == Fail(Incomplete);
  }

  /** The same image with the corrected parser: every field is read back, in
      order, and assembled. */
  lemma CorrectedNibDiskOfFields(ignoreChecksums: bool, fields: seq<Field>, sync: seq<bv8>, tail: seq<bv8>)
    requires forall k :: 0 <= k < |fields| ==> WellFormed(ignoreChecksums, fields[k])
    requires Unmarked(sync) && forall k :: !OccursAt(tail, ADDRESS_PROLOGUE, k)
    ensures CorrectedNibDisk(ignoreChecksums, FieldsBytes(fields, sync) + tail) ==
      match Assemble(ignoreChecksums, EMPTY_DISK, fields)
      case Ok(disk) => Done(tail, disk)
      case Err(_) => Fail(Panic)
  {
    var rests := Rests(fields, sync, tail);
    var p := SectorParserToEnd(ignoreChecksums);
    forall k | 0 <= k < |fields|
      ensures p(rests[k]) == Done(rests[k + 1], fields[k]) && |rests[k + 1]| < |rests[k]|
    {
      RestsStep(ignoreChecksums, fields, sync, tail, k);
    }
    assert rests[|fields|] == tail;
    assert ParseNibSector(ignoreChecksums, tail) == Fail(Incomplete);
    assert p(tail) == Fail(Error);
    assert fields[0..] == fields;
    Many0Chain(p, rests, fields);
    assert Many0(p, FieldsBytes(fields, sync) + tail) == Done(tail, fields);
  }

  // ---------------------------------------------------------------------------
  // Saving

  /** The keys of `m` from `lo` up, in ascending order: the order in which a
      BTreeMap yields its values. */
  function KeysFrom<V>(m: map<u8, V>, lo: nat): (r: seq<u8>)
    ensures forall i, j :: 0 <= i < j < |r| ==> r[i] < r[j]
    ensures forall k :: k in r <==> k in m && lo <= k
    ensures forall i :: 0 <= i < |r| ==> lo <= r[i]
    decreases 0x100 - lo
  {
    if lo >= 0x100 then []
    else if lo as u8 in m then [lo as u8] + KeysFrom(m, lo + 1)
    else KeysFrom(m, lo + 1)
  }

  function SortedKeys<V>(m: map<u8, V>): seq<u8> {
    KeysFrom(m, 0)
  }

  /** The data of the sectors at `keys`, one after another. */
  function SectorsBytes(m: map<u8, Sector>, keys: seq<u8>): (r: seq<bv8>)
    requires forall k :: k in keys ==> k in m
    ensures |r| == 256 * |keys|
    ensures forall i :: 0 <= i < |keys| ==> r[256 * i..256 * i + 256] == m[keys[i]].data
    decreases |keys|
  {
    if |keys| == 0 then []
    else
      var r := m[keys[0]].data + SectorsBytes(m, keys[1..]);
      assert forall i :: 1 <= i < |keys| ==> r[256 * i..256 * i + 256] == SectorsBytes(m, keys[1..])[256 * (i - 1)..256 * (i - 1) + 256];
      r
  }

  function TrackBytes(t: Track): seq<bv8>
  {
    SectorsBytes(t.sectors, SortedKeys(t.sectors))
  }

  function TracksBytes(m: map<u8, Track>, keys: seq<u8>): seq<bv8>
    requires forall k :: k in keys ==> k in m
    decreases |keys|
  {
    if |keys| == 0 then [] else TrackBytes(m[keys[0]]) + TracksBytes(m, keys[1..])
  }

  function VolumesBytes(m: map<u8, Volume>, keys: seq<u8>): seq<bv8>
    requires forall k :: k in keys ==> k in m
    decreases |keys|
  {
    if |keys| == 0 then []
    else
      var v := m[keys[0]];
      TracksBytes(v.tracks, SortedKeys(v.tracks)) + VolumesBytes(m, keys[1..])
  }

  /** The bytes `save_disk_image` (nibble.rs:467-490) writes: the decoded
      sectors by ascending volume, then track, then sector number. */
  function NibbleImageBytes(disk: NibbleDisk): seq<bv8>
  {
    VolumesBytes(disk.volumes, SortedKeys(disk.volumes))
  }

  /** A disk with one sector saves exactly that sector. */
  lemma NibbleImageBytesSingle(a: Address, sector: Sector)
    ensures NibbleImageBytes(Put(EMPTY_DISK, a, sector)) == sector.data
  {
    var disk := Put(EMPTY_DISK, a, sector);
    var vk := SortedKeys(disk.volumes);
    assert vk == [a.0] by { KeysSingle(disk.volumes, a.0); }
    var v := disk.volumes[a.0];
    assert SortedKeys(v.tracks) == [a.1] by { KeysSingle(v.tracks, a.1); }
    var t := v.tracks[a.1];
    assert SortedKeys(t.sectors) == [a.2] by { KeysSingle(t.sectors, a.2); }
    assert TrackBytes(t) == sector.data;
    assert TracksBytes(v.tracks, [a.1]) == sector.data;
    assert VolumesBytes(disk.volumes, [a.0]) == sector.data;
  }

  lemma KeysSingle<V>(m: map<u8, V>, k: u8)
    requires m.Keys == {k}
    ensures SortedKeys(m) == [k]
  {
    KeysFromSingle(m, k, 0);
  }

  lemma {:induction false} KeysFromSingle<V>(m: map<u8, V>, k: u8, lo: nat)
    requires m.Keys == {k}
    ensures KeysFrom(m, lo) == if lo <= k then [k] else []
    decreases 0x100 - lo
  {
    if lo < 0x100 {
      KeysFromSingle(m, k, lo + 1);
    }
  }
}
