/** Apple DOS 3.3 catalog sectors and the catalog chain.  A catalog sector
    holds a pointer to the next catalog sector and seven file-entry slots;
    the catalog is the chain of such sectors starting at the one the volume
    table of contents names. */
module AppleCatalog {
  import opened Parsing
  import opened AppleFileEntry

  /** `valid_file`: a slot whose first-list track is 0x00 was never used and
      one whose track is 0xFF holds a deleted file. */
  predicate ValidFile(track: bv8) {
    track != 0x00 && track != 0xFF
  }

  /** The filter of `parse_catalog`: the slots holding files, in order. */
  function ValidEntries(es: seq<FileEntry>): (r: seq<FileEntry>)
    ensures |r| <= |es|
    ensures forall k :: 0 <= k < |r| ==> ValidFile(r[k].track) && r[k] in es
    ensures forall e :: e in es && ValidFile(e.track) ==> e in r
  {
    if es == [] then []
    else if ValidFile(es[0].track) then [es[0]] + ValidEntries(es[1..])
    else ValidEntries(es[1..])
  }

  /** Every entry's name converts to a string, so `filename().unwrap()`
      does not panic on any of them. */
  predicate AllNamed(es: seq<FileEntry>) {
    forall k :: 0 <= k < |es| ==> ConvertibleName(es[k].fileName)
  }

  /** The name index both catalog parsers build: each entry inserted under
      its name in order, so a later entry replaces an earlier one of the
      same name. */
  function NameIndex(es: seq<FileEntry>, m: map<seq<bv8>, FileEntry>): map<seq<bv8>, FileEntry>
    requires AllNamed(es)
  {
    if es == [] then m
    else NameIndex(es[1..], m[Filename(es[0].fileName).value := es[0]])
  }

  /** The index holds exactly the names of the entries and whatever it
      held before. */
  lemma {:induction false} NameIndexKeys(es: seq<FileEntry>, m: map<seq<bv8>, FileEntry>, n: seq<bv8>)
    requires AllNamed(es)
    ensures n in NameIndex(es, m) <==>
      n in m || exists k :: 0 <= k < |es| && Filename(es[k].fileName) == Some(n)
    decreases |es|
  {
    if es != [] {
      var m' := m[Filename(es[0].fileName).value := es[0]];
      NameIndexKeys(es[1..], m', n);
      if exists k :: 0 <= k < |es| && Filename(es[k].fileName) == Some(n) {
        var k :| 0 <= k < |es| && Filename(es[k].fileName) == Some(n);
        if k > 0 {
          assert es[1..][k - 1] == es[k];
        }
      }
      if exists k :: 0 <= k < |es[1..]| && Filename(es[1..][k].fileName) == Some(n) {
        var k :| 0 <= k < |es[1..]| && Filename(es[1..][k].fileName) == Some(n);
        assert es[1..][k] == es[k + 1];
      }
    }
  }

  /** A name maps to the last entry carrying it: a later entry of the same
      name replaces an earlier one. */
  lemma {:induction false} NameIndexLast(es: seq<FileEntry>, m: map<seq<bv8>, FileEntry>, n: seq<bv8>, k: nat)
    requires AllNamed(es)
    requires k < |es| && Filename(es[k].fileName) == Some(n)
    requires forall j :: k < j < |es| ==> Filename(es[j].fileName) != Some(n)
    ensures n in NameIndex(es, m) && NameIndex(es, m)[n] == es[k]
    decreases |es|
  {
    var m' := m[Filename(es[0].fileName).value := es[0]];
    if k > 0 {
      assert es[1..][k - 1] == es[k];
      forall j | k - 1 < j < |es| - 1
        ensures Filename(es[1..][j].fileName) != Some(n)
      {
        assert es[1..][j] == es[j + 1];
      }
      NameIndexLast(es[1..], m', n, k - 1);
    } else {
      forall j | 0 <= j < |es| - 1
        ensures Filename(es[1..][j].fileName) != Some(n)
      {
        assert es[1..][j] == es[j + 1];
      }
      NameIndexUntouched(es[1..], m', n);
    }
  }

  /** A name no entry carries keeps what the index held before. */
  lemma {:induction false} NameIndexUntouched(es: seq<FileEntry>, m: map<seq<bv8>, FileEntry>, n: seq<bv8>)
    requires AllNamed(es)
    requires forall k :: 0 <= k < |es| ==> Filename(es[k].fileName) != Some(n)
    requires n in m
    ensures n in NameIndex(es, m) && NameIndex(es, m)[n] == m[n]
    decreases |es|
  {
    if es != [] {
      var m' := m[Filename(es[0].fileName).value := es[0]];
      forall j | 0 <= j < |es| - 1
        ensures Filename(es[1..][j].fileName) != Some(n)
      {
        assert es[1..][j] == es[j + 1];
      }
      NameIndexUntouched(es[1..], m', n);
    }
  }

  datatype Catalog = Catalog(
    reserved: bv8,
    nextTrack: bv8,        // track of the next catalog sector; 0 ends the chain
    nextSector: bv8,
    reserved2: seq<bv8>,   // 8 bytes
    entries: seq<FileEntry>,
    byName: map<seq<bv8>, FileEntry>)

  /** The number of file-entry slots in a catalog sector. */
  const SLOTS: nat := 7

  lemma FileEntryFixedWidth()
    ensures FixedWidth(ParseFileEntry, 35)
  {
  }

  /** The seven entry slots of a catalog sector body, slot `k` read at
      offset 35k. */
  function EntrySlots(t: seq<bv8>): (r: seq<FileEntry>)
    requires 35 * SLOTS <= |t|
    ensures |r| == SLOTS
  {
    seq(SLOTS, k requires 0 <= k < SLOTS => ParseFileEntry(t[35 * k..]).value)
  }

  /** What `parse_catalog` builds once the slots are read: only the valid
      entries are kept, then the name index, whose `filename().unwrap()`
      panics on a kept entry whose name is not UTF-8. */
  function CatalogOfSlots(header: seq<bv8>, rest: seq<bv8>, slots: seq<FileEntry>): (r: Outcome<Catalog>)
    requires |header| == 11
    ensures r.Fail? ==> r.failure == Panic
    ensures r.Done? ==> r.rest == rest && AllNamed(r.value.entries)
    ensures r.Done? ==> forall k :: 0 <= k < |r.value.entries| ==> ValidFile(r.value.entries[k].track)
  {
    var entries := ValidEntries(slots);
    if !AllNamed(entries) then Fail(Panic)
    else Done(rest, Catalog(header[0], header[1], header[2], header[3..11], entries, NameIndex(entries, map[])))
  }

  /** `parse_catalog`: the 11 header bytes (reserved byte, next-sector
      pointer, 8 reserved bytes) and exactly seven 35-byte entries, so a
      catalog sector is 256 bytes; shorter input is a plain error. */
  function ParsedCatalog(s: seq<bv8>): (r: Outcome<Catalog>)
    ensures r.Fail? ==> (r.failure == Error <==> |s| < 256)
    ensures r.Done? ==> 256 <= |s| && r.rest == s[256..]
    ensures r.Done? ==> r.value.nextTrack == s[1] && r.value.nextSector == s[2]
  {
    if |s| < 256 then Fail(Error)
    else CatalogOfSlots(s[..11], s[256..], EntrySlots(s[11..]))
  }

  /** Reading the seven slots succeeds exactly on 245 bytes or more, and
      then reads slot `k` at offset 35k. */
  lemma CountEntries(t: seq<bv8>)
    ensures Count(ParseFileEntry, SLOTS, t).Done? <==> 35 * SLOTS <= |t|
    ensures Count(ParseFileEntry, SLOTS, t).Fail? ==> Count(ParseFileEntry, SLOTS, t).failure == Error
    ensures Count(ParseFileEntry, SLOTS, t).Done? ==>
      35 * SLOTS <= |t| && Count(ParseFileEntry, SLOTS, t) == Done(t[35 * SLOTS..], EntrySlots(t))
  {
    CountEntriesFixed(SLOTS, t);
    var c := Count(ParseFileEntry, SLOTS, t);
    if c.Done? {
      SlotsAgree(t, c.value);
    }
  }

  lemma CountEntriesFixed(n: nat, t: seq<bv8>)
    ensures Count(ParseFileEntry, n, t).Done? <==> n * 35 <= |t|
    ensures Count(ParseFileEntry, n, t).Done? ==> Count(ParseFileEntry, n, t).rest == t[n * 35..]
    ensures Count(ParseFileEntry, n, t).Done? ==> forall i :: 0 <= i < n ==>
      i * 35 + 35 <= |t| && Count(ParseFileEntry, n, t).value[i] == ParseFileEntry(t[i * 35..]).value
    ensures Count(ParseFileEntry, n, t).Fail? ==> Count(ParseFileEntry, n, t).failure == Error
  {
    FileEntryFixedWidth();
    CountFixedWidth(ParseFileEntry, 35, n, t);
  }

  lemma SlotsAgree(t: seq<bv8>, v: seq<FileEntry>)
    requires 35 * SLOTS <= |t| && |v| == SLOTS
    requires forall i :: 0 <= i < SLOTS ==> i * 35 + 35 <= |t| && v[i] == ParseFileEntry(t[i * 35..]).value
    ensures v == EntrySlots(t)
  {
    forall k | 0 <= k < SLOTS
      ensures v[k] == EntrySlots(t)[k]
    {
      assert k * 35 == 35 * k;
    }
  }

  /** `parse_catalog` is the nom composition of the header, `count` of
      seven `parse_file_entry`, the filter and the name index. */
  lemma ParsedCatalogComposes(s: seq<bv8>)
    ensures |s| < 11 ==> ParsedCatalog(s) == Fail(Error)
    ensures 11 <= |s| && Count(ParseFileEntry, SLOTS, s[11..]).Fail? ==>
      ParsedCatalog(s) == Fail(Count(ParseFileEntry, SLOTS, s[11..]).failure)
    ensures 11 <= |s| && Count(ParseFileEntry, SLOTS, s[11..]).Done? ==>
      ParsedCatalog(s) == CatalogOfSlots(s[..11], Count(ParseFileEntry, SLOTS, s[11..]).rest,
                                         Count(ParseFileEntry, SLOTS, s[11..]).value)
  {
    if 11 <= |s| {
      var c := Count(ParseFileEntry, SLOTS, s[11..]);
      CountEntries(s[11..]);
      if c.Done? {
        assert s[11..][35 * SLOTS..] == s[256..];
        assert c == Done(s[256..], EntrySlots(s[11..]));
      } else {
        assert |s| < 256;
      }
    }
  }

  /** `Catalog::as_vec` writes each entry with `FileEntry::as_vec` and
      flattens the results: an entry whose name has the wrong length gives
      an error and is silently left out, one whose name overflows panics. */
  function EntriesBytes(es: seq<FileEntry>): (r: Result<seq<bv8>>)
    ensures r.Err? ==> r.error == Panicked
  {
    if es == [] then Ok([])
    else
      var first := FileEntryBytes(es[0]);
      if first == Err(Panicked) then Err(Panicked)
      else
        var more :- EntriesBytes(es[1..]);
        Ok((if first.Ok? then first.value else []) + more)
  }

  /** The entries `as_vec` writes rather than drops. */
  function Written(es: seq<FileEntry>): (r: seq<FileEntry>)
    ensures |r| <= |es|
  {
    if es == [] then []
    else if FileEntryBytes(es[0]).Ok? then [es[0]] + Written(es[1..])
    else Written(es[1..])
  }

  /** `Catalog::as_vec`: header, the written entries, then zero padding of
      `(7 - len) * 35` bytes counted over all the entries; with more than
      seven entries that subtraction underflows and panics. */
  function CatalogBytes(c: Catalog): (r: Result<seq<bv8>>)
    ensures r.Err? ==> r.error == Panicked
  {
    var entries :- EntriesBytes(c.entries);
    if |c.entries| > SLOTS then Err(Panicked)
    else Ok([c.reserved, c.nextTrack, c.nextSector] + c.reserved2 + entries
            + Zeros(35 * (SLOTS - |c.entries|)))
  }

  lemma {:induction false} EntriesBytesLength(es: seq<FileEntry>)
    requires EntriesBytes(es).Ok?
    ensures |EntriesBytes(es).value| == 35 * |Written(es)|
    decreases |es|
  {
    if es != [] {
      EntriesBytesLength(es[1..]);
    }
  }

  /** The length `as_vec` produces: 256 bytes when every entry is written,
      35 bytes short for every entry dropped. */
  lemma CatalogBytesLength(c: Catalog)
    requires |c.reserved2| == 8 && CatalogBytes(c).Ok?
    ensures |CatalogBytes(c).value| == 256 - 35 * (|c.entries| - |Written(c.entries)|)
  {
    EntriesBytesLength(c.entries);
  }

  /** An entry written as it is parsed back: the name stored as its field. */
  function Stored(e: FileEntry): FileEntry
    requires FileEntryBytes(e).Ok?
  {
    e.(fileName := NameField(e.fileName))
  }

  /** Entries a catalog sector can round-trip: each is written, names a
      valid first list and has a name `filename()` gives back. */
  predicate StorableEntries(es: seq<FileEntry>) {
    forall k :: 0 <= k < |es| ==>
      FileEntryBytes(es[k]).Ok? && ValidFile(es[k].track) && StorableName(es[k].fileName)
  }

  lemma {:induction false} EntriesBytesAt(es: seq<FileEntry>)
    requires StorableEntries(es)
    ensures EntriesBytes(es).Ok? && |EntriesBytes(es).value| == 35 * |es|
    ensures forall k :: 0 <= k < |es| ==>
      EntriesBytes(es).value[35 * k..35 * k + 35] == FileEntryBytes(es[k]).value
    decreases |es|
  {
    if es != [] {
      EntriesBytesAt(es[1..]);
      var b := FileEntryBytes(es[0]).value;
      var bs := EntriesBytes(es[1..]).value;
      assert EntriesBytes(es).value == b + bs;
      forall k | 0 <= k < |es|
        ensures EntriesBytes(es).value[35 * k..35 * k + 35] == FileEntryBytes(es[k]).value
      {
        if k > 0 {
          assert es[1..][k - 1] == es[k];
          assert (b + bs)[35 * k..35 * k + 35] == bs[35 * (k - 1)..35 * (k - 1) + 35];
        }
      }
    }
  }

  /** The entries as `as_vec` writes them, each with its name as the
      30-byte field `parse_file_entry` reads back. */
  function StoredEntries(es: seq<FileEntry>): (r: seq<FileEntry>)
    requires StorableEntries(es)
    ensures |r| == |es|
  {
    seq(|es|, k requires 0 <= k < |es| => Stored(es[k]))
  }

  /** Every stored name converts back to a string. */
  lemma StoredNamed(es: seq<FileEntry>)
    requires StorableEntries(es)
    ensures AllNamed(StoredEntries(es))
  {
    forall k | 0 <= k < |es|
      ensures Filename(StoredEntries(es)[k].fileName).Some?
    {
      FilenameOfNameField(es[k].fileName);
    }
  }

  /** A slot holding the bytes `as_vec` wrote for `e` reads back `e` as
      stored. */
  lemma WrittenSlot(eb: seq<bv8>, k: nat, e: FileEntry, tail: seq<bv8>)
    requires FileEntryBytes(e).Ok?
    requires 35 * k + 35 <= |eb| && eb[35 * k..35 * k + 35] == FileEntryBytes(e).value
    ensures ParseFileEntry((eb + tail)[35 * k..]).value == Stored(e)
  {
    var t := eb + tail;
    assert t[35 * k..35 * k + 35] == eb[35 * k..35 * k + 35];
    assert t[35 * k..] == FileEntryBytes(e).value + t[35 * k + 35..];
    FileEntryRoundTrip(e, t[35 * k + 35..]);
  }

  /** Slots that start with valid entries and continue with slots whose
      track byte is zero filter down to those entries. */
  lemma SlotsSplit(t: seq<bv8>, kept: seq<FileEntry>)
    requires 35 * SLOTS <= |t| && |kept| <= SLOTS
    requires forall k :: 0 <= k < |kept| ==> EntrySlots(t)[k] == kept[k] && ValidFile(kept[k].track)
    requires forall k :: |kept| <= k < SLOTS ==> t[35 * k] == 0
    ensures ValidEntries(EntrySlots(t)) == kept
  {
    var slots := EntrySlots(t);
    forall k | |kept| <= k < SLOTS
      ensures !ValidFile(slots[k].track)
    {
    }
    ValidEntriesSplit(slots, |kept|);
    assert slots[..|kept|] == kept;
  }

  /** Reading the seven slots of the written entries and the zero padding
      keeps exactly the written entries. */
  lemma SlotsOfWritten(es: seq<FileEntry>, padding: seq<bv8>, rest: seq<bv8>)
    requires |es| <= SLOTS && StorableEntries(es)
    requires padding == Zeros(35 * (SLOTS - |es|))
    ensures EntriesBytes(es).Ok?
    ensures 35 * SLOTS <= |EntriesBytes(es).value + padding + rest|
    ensures ValidEntries(EntrySlots(EntriesBytes(es).value + padding + rest)) == StoredEntries(es)
    ensures (EntriesBytes(es).value + padding + rest)[35 * SLOTS..] == rest
  {
    EntriesBytesAt(es);
    var t := EntriesBytes(es).value + padding + rest;
    WrittenSlots(es, padding + rest);
    assert t == EntriesBytes(es).value + (padding + rest);
    PaddingSlots(EntriesBytes(es).value, padding, rest);
    SlotsSplit(t, StoredEntries(es));
  }

  lemma WrittenSlots(es: seq<FileEntry>, tail: seq<bv8>)
    requires |es| <= SLOTS && StorableEntries(es)
    requires 35 * SLOTS <= 35 * |es| + |tail|
    ensures EntriesBytes(es).Ok? && |EntriesBytes(es).value| == 35 * |es|
    ensures forall k :: 0 <= k < |es| ==>
      EntrySlots(EntriesBytes(es).value + tail)[k] == StoredEntries(es)[k]
      && ValidFile(StoredEntries(es)[k].track)
  {
    EntriesBytesAt(es);
    var eb := EntriesBytes(es).value;
    forall k | 0 <= k < |es|
      ensures EntrySlots(eb + tail)[k] == StoredEntries(es)[k] && ValidFile(StoredEntries(es)[k].track)
    {
      WrittenSlot(eb, k, es[k], tail);
    }
  }

  lemma PaddingSlots(eb: seq<bv8>, padding: seq<bv8>, rest: seq<bv8>)
    requires |eb| % 35 == 0 && |eb| <= 35 * SLOTS
    requires padding == Zeros(35 * SLOTS - |eb|)
    ensures forall k :: |eb| / 35 <= k < SLOTS ==> (eb + padding + rest)[35 * k] == 0
  {
    forall k | |eb| / 35 <= k < SLOTS
      ensures (eb + padding + rest)[35 * k] == 0
    {
      assert (eb + padding + rest)[35 * k] == padding[35 * k - |eb|];
    }
  }

  /** A sector is read as its 11 header bytes and the slots that follow. */
  lemma ParsedCatalogOfSector(h: seq<bv8>, t: seq<bv8>)
    requires |h| == 11 && 35 * SLOTS <= |t|
    ensures ParsedCatalog(h + t) == CatalogOfSlots(h, t[35 * SLOTS..], EntrySlots(t))
  {
    var s := h + t;
    assert s[..11] == h && s[11..] == t && s[256..] == t[35 * SLOTS..];
  }

  /** Parsing what `as_vec` wrote gives back the valid entries, each with its
      name stored as the 30-byte field, whatever follows the sector. */
  lemma CatalogRoundTrip(c: Catalog, rest: seq<bv8>)
    requires |c.reserved2| == 8 && |c.entries| <= SLOTS && StorableEntries(c.entries)
    ensures CatalogBytes(c).Ok?
    ensures ParsedCatalog(CatalogBytes(c).value + rest) == Done(rest, Catalog(c.reserved, c.nextTrack,
              c.nextSector, c.reserved2, StoredEntries(c.entries), NameIndex(StoredEntries(c.entries), map[])))
  {
    var padding := Zeros(35 * (SLOTS - |c.entries|));
    SlotsOfWritten(c.entries, padding, rest);
    StoredNamed(c.entries);
    var h := [c.reserved, c.nextTrack, c.nextSector] + c.reserved2;
    var eb := EntriesBytes(c.entries).value;
    CatalogBytesWritten(c);
    ConcatAssoc(h, eb, padding, rest);
    ParsedSectorOfKept(c, eb + padding + rest, rest, StoredEntries(c.entries));
  }

  /** `as_vec` of a catalog whose entries all serialise. */
  lemma CatalogBytesWritten(c: Catalog)
    requires |c.entries| <= SLOTS && EntriesBytes(c.entries).Ok?
    ensures CatalogBytes(c) == Ok([c.reserved, c.nextTrack, c.nextSector] + c.reserved2
                                  + EntriesBytes(c.entries).value + Zeros(35 * (SLOTS - |c.entries|)))
  {
  }

  /** The catalog read from a header and slots keeping `kept`. */
  lemma ParsedSectorOfKept(c: Catalog, t: seq<bv8>, rest: seq<bv8>, kept: seq<FileEntry>)
    requires |c.reserved2| == 8
    requires 35 * SLOTS <= |t| && t[35 * SLOTS..] == rest
    requires ValidEntries(EntrySlots(t)) == kept && AllNamed(kept)
    ensures ParsedCatalog([c.reserved, c.nextTrack, c.nextSector] + c.reserved2 + t)
         == Done(rest, Catalog(c.reserved, c.nextTrack, c.nextSector, c.reserved2, kept, NameIndex(kept, map[])))
  {
    HeaderParts(c.reserved, c.nextTrack, c.nextSector, c.reserved2);
    ParsedCatalogOfSector([c.reserved, c.nextTrack, c.nextSector] + c.reserved2, t);
  }

  /** The eleven header bytes read back as their parts. */
  lemma HeaderParts(reserved: bv8, nextTrack: bv8, nextSector: bv8, reserved2: seq<bv8>)
    requires |reserved2| == 8
    ensures var h := [reserved, nextTrack, nextSector] + reserved2;
      |h| == 11 && h[0] == reserved && h[1] == nextTrack && h[2] == nextSector && h[3..11] == reserved2
  {
    var h := [reserved, nextTrack, nextSector] + reserved2;
    assert h[3..] == reserved2;
  }

  /** Slots whose first `n` entries are all valid and the rest all
      invalid filter down to those `n`. */
  lemma {:induction false} ValidEntriesSplit(slots: seq<FileEntry>, n: nat)
    requires n <= |slots|
    requires forall k :: 0 <= k < n ==> ValidFile(slots[k].track)
    requires forall k :: n <= k < |slots| ==> !ValidFile(slots[k].track)
    ensures ValidEntries(slots) == slots[..n]
    decreases |slots|
  {
    if slots != [] {
      if n > 0 {
        ValidEntriesSplit(slots[1..], n - 1);
        assert [slots[0]] + slots[1..][..n - 1] == slots[..n];
      } else {
        ValidEntriesSplit(slots[1..], 0);
      }
    }
  }
}
