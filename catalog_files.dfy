/** Apple DOS 3.3 files: following the chain of catalog sectors and a file's
    chain of track/sector lists over a disk split into sectors, and
    reassembling a file's bytes from the sectors its lists name.

    The two chain-following loops of the source stop only when a pointer
    is zero, so a malformed disk whose pointers form a cycle makes them run
    forever.  The model gives each loop a step bound `fuel` (the most
    sectors it may read) and reports `OutOfFuel` when it is used up. */
module AppleFiles {
  import opened Parsing
  import opened Serialize
  import opened AppleFileEntry
  import opened AppleTrackSectorList
  import opened AppleCatalog

  /** A disk as `volume_parser` hands it on: `tracks[t][s]` is sector `s`
      of track `t`. */
  type Tracks = seq<seq<seq<bv8>>>

  /** `tracks[t as usize][s as usize]`: an index out of range panics. */
  function SectorAt(tracks: Tracks, t: bv8, s: bv8): (r: Result<seq<bv8>>)
    ensures r.Ok? <==> t as int < |tracks| && s as int < |tracks[t as int]|
    ensures r.Ok? ==> r.value == tracks[t as int][s as int]
    ensures r.Err? ==> r.error == Panicked
  {
    if t as int < |tracks| && s as int < |tracks[t as int]| then Ok(tracks[t as int][s as int])
    else Err(Panicked)
  }

  // ---------------------------------------------------------------------
  // The catalog chain (`parse_catalogs`)
  // ---------------------------------------------------------------------

  /** One catalog sector read with `parse_catalog(...)?`: a nom error becomes
      an error message, a panic stays a panic. */
  function CatalogAt(tracks: Tracks, t: bv8, s: bv8): (r: Result<Catalog>)
    ensures r.Ok? ==> (SectorAt(tracks, t, s).Ok?
      && ParsedCatalog(SectorAt(tracks, t, s).value).Done?
      && ParsedCatalog(SectorAt(tracks, t, s).value).value == r.value)
    ensures r.Ok? ==> AllNamed(r.value.entries)
    ensures r.Err? ==> r.error == Panicked || r.error == Message
  {
    var sector :- SectorAt(tracks, t, s);
    var c := ParsedCatalog(sector);
    if c.Fail? then Err(FromFailure(c.failure)) else Ok(c.value)
  }

  /** Reading the catalog sector a pointer names.  The chain functions below
      take the reader as a parameter; `parse_catalogs` reads through
      `CatalogAt` over the disk's tracks. */
  type CatalogReader = (bv8, bv8) -> Result<Catalog>

  /** `CatalogAt` over a given disk. */
  function DiskCatalogs(tracks: Tracks): (read: CatalogReader)
    ensures forall t: bv8, s: bv8 :: read(t, s) == CatalogAt(tracks, t, s)
  {
    (t: bv8, s: bv8) => CatalogAt(tracks, t, s)
  }

  /** Every catalog the reader yields has names `filename()` accepts and
      fails only the ways `parse_catalog(...)?` fails. */
  ghost predicate WellBehaved(read: CatalogReader) {
    forall t: bv8, s: bv8 ::
      (read(t, s).Ok? ==> AllNamed(read(t, s).value.entries))
      && (read(t, s).Err? ==> read(t, s).error in {Panicked, Message})
  }

  lemma DiskCatalogsWellBehaved(tracks: Tracks)
    ensures WellBehaved(DiskCatalogs(tracks))
  {
  }

  /** The loop condition of `parse_catalogs`: both parts of the pointer to
      the next catalog sector are nonzero. */
  predicate HasNext(c: Catalog) {
    c.nextTrack != 0 && c.nextSector != 0
  }

  /** The catalog sectors the loop reads after `c`, reading at most `fuel`
      of them. */
  function CatalogsAfter(read: CatalogReader, c: Catalog, fuel: nat): (r: Result<seq<Catalog>>)
    ensures r.Ok? ==> |r.value| <= fuel
    ensures WellBehaved(read) && r.Ok? ==> forall k :: 0 <= k < |r.value| ==> AllNamed(r.value[k].entries)
    ensures WellBehaved(read) && r.Err? ==> r.error in {Panicked, Message, OutOfFuel}
    decreases fuel
  {
    if !HasNext(c) then Ok([])
    else if fuel == 0 then Err(OutOfFuel)
    else
      var next :- read(c.nextTrack, c.nextSector);
      var more :- CatalogsAfter(read, next, fuel - 1);
      Ok([next] + more)
  }

  /** Every catalog sector `parse_catalogs` reads, in chain order, starting
      at track `t`, sector `s`. */
  function CatalogChain(read: CatalogReader, t: bv8, s: bv8, fuel: nat): (r: Result<seq<Catalog>>)
    ensures r.Ok? ==> 1 <= |r.value| <= fuel
    ensures WellBehaved(read) && r.Ok? ==> forall k :: 0 <= k < |r.value| ==> AllNamed(r.value[k].entries)
    ensures WellBehaved(read) && r.Err? ==> r.error in {Panicked, Message, OutOfFuel}
  {
    if fuel == 0 then Err(OutOfFuel)
    else
      var first :- read(t, s);
      var more :- CatalogsAfter(read, first, fuel - 1);
      Ok([first] + more)
  }

  /** `visited` in front of the catalogs still to be read. */
  function PrependCatalogs(visited: seq<Catalog>, r: Result<seq<Catalog>>): Result<seq<Catalog>> {
    if r.Ok? then Ok(visited + r.value) else r
  }

  /** The file entries of a chain of catalog sectors, sector by sector. */
  function ChainEntries(cs: seq<Catalog>): (r: seq<FileEntry>)
    ensures (forall k :: 0 <= k < |cs| ==> AllNamed(cs[k].entries)) ==> AllNamed(r)
  {
    if cs == [] then []
    else ChainEntries(cs[..|cs| - 1]) + cs[|cs| - 1].entries
  }

  lemma ChainEntriesSnoc(cs: seq<Catalog>, c: Catalog)
    ensures ChainEntries(cs + [c]) == ChainEntries(cs) + c.entries
  {
    assert (cs + [c])[..|cs|] == cs;
  }

  /** The catalog of a whole disk: all entries, and the index by name. */
  datatype FullCatalog = FullCatalog(fileEntries: seq<FileEntry>, byName: map<seq<bv8>, FileEntry>)

  /** `parse_catalogs` over the catalogs `read` yields: the entries of every
      catalog sector in chain order, each inserted into the name index in
      that order. */
  function FullCatalogFrom(read: CatalogReader, t: bv8, s: bv8, fuel: nat): (r: Result<FullCatalog>)
    requires WellBehaved(read)
    ensures r.Ok? ==> AllNamed(r.value.fileEntries)
    ensures r.Err? ==> r.error in {Panicked, Message, OutOfFuel}
  {
    var chain :- CatalogChain(read, t, s, fuel);
    var es := ChainEntries(chain);
    Ok(FullCatalog(es, NameIndex(es, map[])))
  }

  /** `parse_catalogs` over the sectors of a disk. */
  function FullCatalogOf(tracks: Tracks, t: bv8, s: bv8, fuel: nat): (r: Result<FullCatalog>)
    ensures r.Ok? ==> AllNamed(r.value.fileEntries)
    ensures r.Err? ==> r.error in {Panicked, Message, OutOfFuel}
  {
    DiskCatalogsWellBehaved(tracks);
    FullCatalogFrom(DiskCatalogs(tracks), t, s, fuel)
  }

  /** Inserting one more entry into the index is inserting it last. */
  lemma {:induction false} NameIndexSnoc(es: seq<FileEntry>, e: FileEntry, m: map<seq<bv8>, FileEntry>)
    requires AllNamed(es) && Filename(e.fileName).Some?
    ensures AllNamed(es + [e])
    ensures NameIndex(es + [e], m) == NameIndex(es, m)[Filename(e.fileName).value := e]
    decreases |es|
  {
    assert forall k :: 0 <= k < |es| ==> (es + [e])[k] == es[k];
    if es != [] {
      var m' := m[Filename(es[0].fileName).value := es[0]];
      assert (es + [e])[1..] == es[1..] + [e];
      NameIndexSnoc(es[1..], e, m');
    }
  }

  /** The body of both `for file in &catalog.file_entries` loops of
      `parse_catalogs`: push each entry and insert it under its name.  The
      `filename().unwrap()` cannot panic here: `parse_catalog` already
      unwrapped the same names. */
  method CollectEntries(entries: seq<FileEntry>, byName: map<seq<bv8>, FileEntry>, more: seq<FileEntry>)
    returns (entries': seq<FileEntry>, byName': map<seq<bv8>, FileEntry>)
    requires AllNamed(entries) && AllNamed(more) && byName == NameIndex(entries, map[])
    ensures entries' == entries + more && AllNamed(entries')
    ensures byName' == NameIndex(entries', map[])
  {
    entries', byName' := entries, byName;
    for k := 0 to |more|
      invariant entries' == entries + more[..k] && AllNamed(entries')
      invariant byName' == NameIndex(entries', map[])
    {
      var name := Filename(more[k].fileName).value;
      NameIndexSnoc(entries', more[k], map[]);
      assert more[..k + 1] == more[..k] + [more[k]];
      entries' := entries' + [more[k]];
      byName' := byName'[name := more[k]];
    }
    assert more[..|more|] == more;
  }

  /** One more catalog read by the loop: it goes after those visited. */
  lemma CatalogsAfterStep(read: CatalogReader, visited: seq<Catalog>, c: Catalog, fuel: nat)
    requires HasNext(c) && fuel > 0 && read(c.nextTrack, c.nextSector).Ok?
    ensures PrependCatalogs(visited, CatalogsAfter(read, c, fuel))
      == PrependCatalogs(visited + [read(c.nextTrack, c.nextSector).value],
           CatalogsAfter(read, read(c.nextTrack, c.nextSector).value, fuel - 1))
  {
    var next := read(c.nextTrack, c.nextSector).value;
    var more := CatalogsAfter(read, next, fuel - 1);
    if more.Ok? {
      assert visited + ([next] + more.value) == visited + [next] + more.value;
    }
  }

  /** The first catalog read goes in front of those the loop reads. */
  lemma CatalogChainFirst(read: CatalogReader, t: bv8, s: bv8, fuel: nat)
    requires fuel > 0 && read(t, s).Ok?
    ensures CatalogChain(read, t, s, fuel)
      == PrependCatalogs([read(t, s).value], CatalogsAfter(read, read(t, s).value, fuel - 1))
  {
  }

  /** What the loop of `parse_catalogs` knows once it has read the
      catalog sectors `visited`, the last of them `last`, with `left` more
      reads allowed: they begin the chain, and the rest of the chain is
      what follows `last`. */
  ghost predicate Followed(read: CatalogReader, t: bv8, s: bv8, fuel: nat, left: nat, visited: seq<Catalog>, last: Catalog) {
    CatalogChain(read, t, s, fuel) == PrependCatalogs(visited, CatalogsAfter(read, last, left))
  }

  lemma FollowedFirst(read: CatalogReader, t: bv8, s: bv8, fuel: nat)
    requires WellBehaved(read) && fuel > 0 && read(t, s).Ok?
    ensures Followed(read, t, s, fuel, fuel - 1, [read(t, s).value], read(t, s).value)
    ensures ChainEntries([read(t, s).value]) == read(t, s).value.entries
    ensures AllNamed(read(t, s).value.entries)
  {
    CatalogChainFirst(read, t, s, fuel);
    ChainEntriesSnoc([], read(t, s).value);
  }

  lemma FollowedStep(read: CatalogReader, t: bv8, s: bv8, fuel: nat, left: nat, visited: seq<Catalog>, last: Catalog, next: Catalog)
    requires WellBehaved(read) && Followed(read, t, s, fuel, left, visited, last) && left > 0
    requires HasNext(last) && read(last.nextTrack, last.nextSector) == Ok(next)
    ensures Followed(read, t, s, fuel, left - 1, visited + [next], next)
    ensures ChainEntries(visited + [next]) == ChainEntries(visited) + next.entries
    ensures AllNamed(next.entries)
  {
    CatalogsAfterStep(read, visited, last, left);
    ChainEntriesSnoc(visited, next);
  }

  lemma FollowedEnd(read: CatalogReader, t: bv8, s: bv8, fuel: nat, left: nat, visited: seq<Catalog>, last: Catalog)
    requires WellBehaved(read) && Followed(read, t, s, fuel, left, visited, last)
    requires !HasNext(last) && AllNamed(ChainEntries(visited))
    ensures FullCatalogFrom(read, t, s, fuel)
      == Ok(FullCatalog(ChainEntries(visited), NameIndex(ChainEntries(visited), map[])))
  {
    assert visited + [] == visited;
  }

  /** The loop stops early when it may read no more, or when the next
      read fails: the whole chain fails the same way. */
  lemma FollowedFails(read: CatalogReader, t: bv8, s: bv8, fuel: nat, left: nat, visited: seq<Catalog>, last: Catalog)
    requires WellBehaved(read) && Followed(read, t, s, fuel, left, visited, last)
    requires HasNext(last) && (left == 0 || read(last.nextTrack, last.nextSector).Err?)
    ensures FullCatalogFrom(read, t, s, fuel)
      == Err(if left == 0 then OutOfFuel else read(last.nextTrack, last.nextSector).error)
  {
  }

  /** Without a step or a first sector, nothing is read. */
  lemma FirstFails(read: CatalogReader, t: bv8, s: bv8, fuel: nat)
    requires WellBehaved(read) && (fuel == 0 || read(t, s).Err?)
    ensures FullCatalogFrom(read, t, s, fuel) == Err(if fuel == 0 then OutOfFuel else read(t, s).error)
  {
  }

  /** One turn of the loop of `parse_catalogs`: read the catalog sector
      `catalog` points at and collect its entries, or stop with the error
      the whole chain ends in. */
  method FollowOne(read: CatalogReader, t: bv8, s: bv8, fuel: nat, left: nat, ghost visited: seq<Catalog>,
                   catalog: Catalog, fileEntries: seq<FileEntry>, byName: map<seq<bv8>, FileEntry>)
    returns (failed: Option<ErrorKind>, catalog': Catalog, fileEntries': seq<FileEntry>,
             byName': map<seq<bv8>, FileEntry>, ghost visited': seq<Catalog>, left': nat)
    requires WellBehaved(read) && HasNext(catalog)
    requires Followed(read, t, s, fuel, left, visited, catalog)
    requires fileEntries == ChainEntries(visited) && AllNamed(fileEntries)
    requires byName == NameIndex(fileEntries, map[])
    ensures failed.Some? ==> Err(failed.value) == FullCatalogFrom(read, t, s, fuel)
    ensures failed.None? ==> left' < left && Followed(read, t, s, fuel, left', visited', catalog')
    ensures failed.None? ==> fileEntries' == ChainEntries(visited') && AllNamed(fileEntries')
    ensures failed.None? ==> byName' == NameIndex(fileEntries', map[])
  {
    catalog', fileEntries', byName', visited', left' := catalog, fileEntries, byName, visited, left;
    if left == 0 {
      FollowedFails(read, t, s, fuel, left, visited, catalog);
      return Some(OutOfFuel), catalog', fileEntries', byName', visited', left';
    }
    var next := read(catalog.nextTrack, catalog.nextSector);
    if next.Err? {
      FollowedFails(read, t, s, fuel, left, visited, catalog);
      return Some(next.error), catalog', fileEntries', byName', visited', left';
    }
    FollowedStep(read, t, s, fuel, left, visited, catalog, next.value);
    catalog' := next.value;
    fileEntries', byName' := CollectEntries(fileEntries, byName, catalog'.entries);
    visited' := visited + [catalog'];
    left' := left - 1;
    failed := None;
  }

  /** The loop of `parse_catalogs`, reading each catalog sector through
      `read`: read the first one, collect its entries, then follow the
      next-sector pointers while both parts are nonzero. */
  method FollowCatalogs(read: CatalogReader, t: bv8, s: bv8, fuel: nat) returns (r: Result<FullCatalog>)
    requires WellBehaved(read)
    ensures r == FullCatalogFrom(read, t, s, fuel)
  {
    if fuel == 0 {
      FirstFails(read, t, s, fuel);
      return Err(OutOfFuel);
    }
    var first := read(t, s);
    if first.Err? {
      FirstFails(read, t, s, fuel);
      return Err(first.error);
    }
    var catalog := first.value;
    FollowedFirst(read, t, s, fuel);
    var fileEntries, byName := CollectEntries([], map[], catalog.entries);
    ghost var visited := [catalog];
    var left: nat := fuel - 1;
    while HasNext(catalog)
      invariant Followed(read, t, s, fuel, left, visited, catalog)
      invariant fileEntries == ChainEntries(visited) && AllNamed(fileEntries)
      invariant byName == NameIndex(fileEntries, map[])
      decreases left
    {
      var failed: Option<ErrorKind>;
      failed, catalog, fileEntries, byName, visited, left := FollowOne(read, t, s, fuel, left, visited, catalog, fileEntries, byName);
      if failed.Some? {
        return Err(failed.value);
      }
    }
    FollowedEnd(read, t, s, fuel, left, visited, catalog);
    return Ok(FullCatalog(fileEntries, byName));
  }

  /** `parse_catalogs`: the loop over the catalog sectors of a disk, each
      read with `parse_catalog(tracks[track][sector])?`. */
  method ParseCatalogs(tracks: Tracks, t: bv8, s: bv8, fuel: nat) returns (r: Result<FullCatalog>)
    ensures r == FullCatalogOf(tracks, t, s, fuel)
  {
    DiskCatalogsWellBehaved(tracks);
    r := FollowCatalogs(DiskCatalogs(tracks), t, s, fuel);
  }

  /** A chain as the pointers lay it out: the first sector is the one named,
      each sector with a nonzero pointer is followed by the one it names,
      and the last has no pointer. */
  ghost predicate Linked(read: CatalogReader, t: bv8, s: bv8, cs: seq<Catalog>) {
    && cs != []
    && read(t, s) == Ok(cs[0])
    && (forall k :: 0 <= k < |cs| - 1 ==>
          HasNext(cs[k]) && read(cs[k].nextTrack, cs[k].nextSector) == Ok(cs[k + 1]))
    && !HasNext(cs[|cs| - 1])
  }

  /** The catalogs after `c` when it has no pointer or is followed by `cs`. */
  ghost predicate LinkedAfter(read: CatalogReader, c: Catalog, cs: seq<Catalog>) {
    if cs == [] then !HasNext(c)
    else HasNext(c) && Linked(read, c.nextTrack, c.nextSector, cs)
  }

  lemma {:induction false} CatalogsAfterLinked(read: CatalogReader, c: Catalog, fuel: nat, cs: seq<Catalog>)
    ensures CatalogsAfter(read, c, fuel) == Ok(cs) <==> LinkedAfter(read, c, cs) && |cs| <= fuel
    decreases fuel
  {
    if HasNext(c) && fuel > 0 && cs != [] && read(c.nextTrack, c.nextSector) == Ok(cs[0]) {
      CatalogsAfterLinked(read, cs[0], fuel - 1, cs[1..]);
      assert cs == [cs[0]] + cs[1..];
      LinkedTail(read, c.nextTrack, c.nextSector, cs);
    }
  }

  /** A linked chain is its first catalog followed by a chain linked after
      it. */
  lemma LinkedTail(read: CatalogReader, t: bv8, s: bv8, cs: seq<Catalog>)
    requires cs != [] && read(t, s) == Ok(cs[0])
    ensures Linked(read, t, s, cs) <==> LinkedAfter(read, cs[0], cs[1..])
  {
    if Linked(read, t, s, cs) && |cs| > 1 {
      forall k | 0 <= k < |cs[1..]| - 1
        ensures HasNext(cs[1..][k])
        ensures read(cs[1..][k].nextTrack, cs[1..][k].nextSector) == Ok(cs[1..][k + 1])
      {
        assert cs[1..][k] == cs[k + 1] && cs[1..][k + 1] == cs[k + 2];
      }
    }
    if LinkedAfter(read, cs[0], cs[1..]) && |cs| > 1 {
      forall k | 0 <= k < |cs| - 1
        ensures HasNext(cs[k]) && read(cs[k].nextTrack, cs[k].nextSector) == Ok(cs[k + 1])
      {
        if k > 0 {
          assert cs[1..][k - 1] == cs[k] && cs[1..][k] == cs[k + 1];
        }
      }
    }
  }

  /** `parse_catalogs` reads exactly the chain the pointers lay out: the
      chain it returns is linked, and any linked chain no longer than the
      step bound is the one it returns. */
  lemma CatalogChainLinked(read: CatalogReader, t: bv8, s: bv8, fuel: nat, cs: seq<Catalog>)
    ensures CatalogChain(read, t, s, fuel) == Ok(cs) <==> Linked(read, t, s, cs) && |cs| <= fuel
  {
    if fuel > 0 && cs != [] && read(t, s) == Ok(cs[0]) {
      CatalogsAfterLinked(read, cs[0], fuel - 1, cs[1..]);
      assert cs == [cs[0]] + cs[1..];
      LinkedTail(read, t, s, cs);
    }
  }

  lemma {:induction false} CatalogsAfterCycle(read: CatalogReader, c: Catalog, fuel: nat)
    requires HasNext(c) && read(c.nextTrack, c.nextSector) == Ok(c)
    ensures CatalogsAfter(read, c, fuel) == Err(OutOfFuel)
    decreases fuel
  {
    if fuel > 0 {
      CatalogsAfterCycle(read, c, fuel - 1);
    }
  }

  /** A catalog sector that points at itself makes `parse_catalogs` loop
      for ever: no step bound is enough. */
  lemma CatalogSelfLoop(read: CatalogReader, t: bv8, s: bv8, fuel: nat)
    requires read(t, s).Ok?
    requires read(t, s).value.nextTrack == t && read(t, s).value.nextSector == s
    requires t != 0 && s != 0
    ensures CatalogChain(read, t, s, fuel) == Err(OutOfFuel)
  {
    if fuel > 0 {
      CatalogsAfterCycle(read, read(t, s).value, fuel - 1);
    }
  }

  /** Looking a name up in the full catalog finds the last entry of the
      chain carrying it, and only names of entries are present. */
  lemma FullCatalogLookup(tracks: Tracks, t: bv8, s: bv8, fuel: nat, n: seq<bv8>)
    requires FullCatalogOf(tracks, t, s, fuel).Ok?
    ensures var fc := FullCatalogOf(tracks, t, s, fuel).value;
      n in fc.byName <==> exists k :: 0 <= k < |fc.fileEntries| && Filename(fc.fileEntries[k].fileName) == Some(n)
    ensures var fc := FullCatalogOf(tracks, t, s, fuel).value;
      forall k :: 0 <= k < |fc.fileEntries| && Filename(fc.fileEntries[k].fileName) == Some(n)
        && (forall j :: k < j < |fc.fileEntries| ==> Filename(fc.fileEntries[j].fileName) != Some(n))
        ==> n in fc.byName && fc.byName[n] == fc.fileEntries[k]
  {
    var fc := FullCatalogOf(tracks, t, s, fuel).value;
    NameIndexKeys(fc.fileEntries, map[], n);
    forall k | 0 <= k < |fc.fileEntries| && Filename(fc.fileEntries[k].fileName) == Some(n)
        && (forall j :: k < j < |fc.fileEntries| ==> Filename(fc.fileEntries[j].fileName) != Some(n))
      ensures n in fc.byName && fc.byName[n] == fc.fileEntries[k]
    {
      NameIndexLast(fc.fileEntries, map[], n, k);
    }
  }

  // ---------------------------------------------------------------------
  // The chain of track/sector lists (`build_file`)
  // ---------------------------------------------------------------------

  /** One track/sector list read with `parse_track_sector_list(...).unwrap()`:
      any parser failure panics. */
  function ListAt(tracks: Tracks, t: bv8, s: bv8): (r: Result<TrackSectorList>)
    ensures r.Ok? ==> (SectorAt(tracks, t, s).Ok?
      && ParsedTrackSectorList(SectorAt(tracks, t, s).value).Done?
      && ParsedTrackSectorList(SectorAt(tracks, t, s).value).value == r.value)
    ensures r.Err? ==> r.error == Panicked
  {
    var sector :- SectorAt(tracks, t, s);
    var l := ParsedTrackSectorList(sector);
    if l.Fail? then Err(Panicked) else Ok(l.value)
  }

  /** The lists the `while track.is_some()` loop reads after `l`, at most
      `fuel` of them.  The loop tests only the track: a next list in sector
      0, whose pointer byte the parser reads as `None`, makes
      `sector.unwrap()` panic. */
  function ListsAfter(tracks: Tracks, l: TrackSectorList, fuel: nat): (r: Result<seq<TrackSectorList>>)
    ensures r.Ok? ==> |r.value| <= fuel
    ensures r.Err? ==> r.error == Panicked || r.error == OutOfFuel
    decreases fuel
  {
    if l.nextTrack.None? then Ok([])
    else if l.nextSector.None? then Err(Panicked)
    else if fuel == 0 then Err(OutOfFuel)
    else
      var next :- ListAt(tracks, l.nextTrack.value, l.nextSector.value);
      var more :- ListsAfter(tracks, next, fuel - 1);
      Ok([next] + more)
  }

  /** `build_file`: the file's first list, named by its catalog entry, and
      every list after it in chain order. */
  function TrackSectorLists(tracks: Tracks, e: FileEntry, fuel: nat): (r: Result<seq<TrackSectorList>>)
    ensures r.Ok? ==> 1 <= |r.value| <= fuel
    ensures r.Err? ==> r.error == Panicked || r.error == OutOfFuel
  {
    if fuel == 0 then Err(OutOfFuel)
    else
      var first :- ListAt(tracks, e.track, e.sector);
      var more :- ListsAfter(tracks, first, fuel - 1);
      Ok([first] + more)
  }

  /** `lists` in front of the lists still to be read. */
  function PrependLists(lists: seq<TrackSectorList>, r: Result<seq<TrackSectorList>>): Result<seq<TrackSectorList>> {
    if r.Ok? then Ok(lists + r.value) else r
  }

  /** One more list read by the loop: it goes after those read before. */
  lemma ListsAfterStep(tracks: Tracks, lists: seq<TrackSectorList>, l: TrackSectorList, fuel: nat)
    requires l.nextTrack.Some? && l.nextSector.Some? && fuel > 0
    requires ListAt(tracks, l.nextTrack.value, l.nextSector.value).Ok?
    ensures PrependLists(lists, ListsAfter(tracks, l, fuel))
      == PrependLists(lists + [ListAt(tracks, l.nextTrack.value, l.nextSector.value).value],
           ListsAfter(tracks, ListAt(tracks, l.nextTrack.value, l.nextSector.value).value, fuel - 1))
  {
    var next := ListAt(tracks, l.nextTrack.value, l.nextSector.value).value;
    var more := ListsAfter(tracks, next, fuel - 1);
    if more.Ok? {
      assert lists + ([next] + more.value) == lists + [next] + more.value;
    }
  }

  /** `build_file`: read the first list, then follow the next-list pointers
      while the track part is present. */
  method BuildFile(e: FileEntry, tracks: Tracks, fuel: nat) returns (r: Result<seq<TrackSectorList>>)
    ensures r == TrackSectorLists(tracks, e, fuel)
  {
    if fuel == 0 {
      return Err(OutOfFuel);
    }
    var first := ListAt(tracks, e.track, e.sector);
    if first.Err? {
      return Err(first.error);
    }
    var lists := [first.value];
    var track, sector := first.value.nextTrack, first.value.nextSector;
    var left: nat := fuel - 1;
    while track.Some?
      invariant lists != []
      invariant track == lists[|lists| - 1].nextTrack && sector == lists[|lists| - 1].nextSector
      invariant TrackSectorLists(tracks, e, fuel) == PrependLists(lists, ListsAfter(tracks, lists[|lists| - 1], left))
      decreases left
    {
      if sector.None? {
        return Err(Panicked);
      }
      if left == 0 {
        return Err(OutOfFuel);
      }
      var next := ListAt(tracks, track.value, sector.value);
      if next.Err? {
        return Err(next.error);
      }
      ListsAfterStep(tracks, lists, lists[|lists| - 1], left);
      track, sector := next.value.nextTrack, next.value.nextSector;
      lists := lists + [next.value];
      left := left - 1;
    }
    assert lists + [] == lists;
    return Ok(lists);
  }

  /** A chain of lists as the pointers lay it out: the first is the list
      named, each list with a next track is followed by the list its
      pointer names, and the last has no next track. */
  ghost predicate ListsLinked(tracks: Tracks, t: bv8, s: bv8, ls: seq<TrackSectorList>) {
    && ls != []
    && ListAt(tracks, t, s) == Ok(ls[0])
    && (forall k :: 0 <= k < |ls| - 1 ==>
          ls[k].nextTrack.Some? && ls[k].nextSector.Some?
          && ListAt(tracks, ls[k].nextTrack.value, ls[k].nextSector.value) == Ok(ls[k + 1]))
    && ls[|ls| - 1].nextTrack.None?
  }

  /** The lists after `l` when it has no next track or is followed by `ls`. */
  ghost predicate ListsLinkedAfter(tracks: Tracks, l: TrackSectorList, ls: seq<TrackSectorList>) {
    if ls == [] then l.nextTrack.None?
    else l.nextTrack.Some? && l.nextSector.Some? && ListsLinked(tracks, l.nextTrack.value, l.nextSector.value, ls)
  }

  /** A linked chain of lists is its first list followed by a chain linked
      after it. */
  lemma ListsLinkedTail(tracks: Tracks, t: bv8, s: bv8, ls: seq<TrackSectorList>)
    requires ls != [] && ListAt(tracks, t, s) == Ok(ls[0])
    ensures ListsLinked(tracks, t, s, ls) <==> ListsLinkedAfter(tracks, ls[0], ls[1..])
  {
    if ListsLinked(tracks, t, s, ls) && |ls| > 1 {
      forall k | 0 <= k < |ls[1..]| - 1
        ensures ls[1..][k].nextTrack.Some? && ls[1..][k].nextSector.Some?
        ensures ListAt(tracks, ls[1..][k].nextTrack.value, ls[1..][k].nextSector.value) == Ok(ls[1..][k + 1])
      {
        assert ls[1..][k] == ls[k + 1] && ls[1..][k + 1] == ls[k + 2];
      }
    }
    if ListsLinkedAfter(tracks, ls[0], ls[1..]) && |ls| > 1 {
      forall k | 0 <= k < |ls| - 1
        ensures ls[k].nextTrack.Some? && ls[k].nextSector.Some?
        ensures ListAt(tracks, ls[k].nextTrack.value, ls[k].nextSector.value) == Ok(ls[k + 1])
      {
        if k > 0 {
          assert ls[1..][k - 1] == ls[k] && ls[1..][k] == ls[k + 1];
        }
      }
    }
  }

  lemma {:induction false} ListsAfterLinked(tracks: Tracks, l: TrackSectorList, fuel: nat, ls: seq<TrackSectorList>)
    ensures ListsAfter(tracks, l, fuel) == Ok(ls) <==> ListsLinkedAfter(tracks, l, ls) && |ls| <= fuel
    decreases fuel
  {
    if l.nextTrack.Some? && l.nextSector.Some? && fuel > 0 && ls != []
      && ListAt(tracks, l.nextTrack.value, l.nextSector.value) == Ok(ls[0])
    {
      ListsAfterLinked(tracks, ls[0], fuel - 1, ls[1..]);
      assert ls == [ls[0]] + ls[1..];
      ListsLinkedTail(tracks, l.nextTrack.value, l.nextSector.value, ls);
    }
  }

  /** `build_file` collects exactly the lists the pointers lay out, when
      the step bound allows: the lists it returns are linked from the
      entry's first list, and any chain so linked is the one it returns. */
  lemma TrackSectorListsLinked(tracks: Tracks, e: FileEntry, fuel: nat, ls: seq<TrackSectorList>)
    ensures TrackSectorLists(tracks, e, fuel) == Ok(ls) <==> ListsLinked(tracks, e.track, e.sector, ls) && |ls| <= fuel
  {
    if fuel > 0 && ls != [] && ListAt(tracks, e.track, e.sector) == Ok(ls[0]) {
      ListsAfterLinked(tracks, ls[0], fuel - 1, ls[1..]);
      assert ls == [ls[0]] + ls[1..];
      ListsLinkedTail(tracks, e.track, e.sector, ls);
    }
  }

  /** A list whose next pointer names sector 0 of a nonzero track makes
      `build_file` panic: the parser reads that sector byte as `None`. */
  lemma NextListInSectorZeroPanics(tracks: Tracks, e: FileEntry, fuel: nat)
    requires ListAt(tracks, e.track, e.sector).Ok?
    requires ListAt(tracks, e.track, e.sector).value.nextTrack.Some?
    requires ListAt(tracks, e.track, e.sector).value.nextSector.None?
    requires fuel > 0
    ensures TrackSectorLists(tracks, e, fuel) == Err(Panicked)
  {
  }

  // ---------------------------------------------------------------------
  // File data (`get_data`)
  // ---------------------------------------------------------------------

  /** The sectors named by the pairs, concatenated in order; a pair out of
      range panics. */
  function PairsData(tracks: Tracks, ps: seq<TrackSectorPair>): (r: Result<seq<bv8>>)
    ensures r.Err? ==> r.error == Panicked
  {
    if ps == [] then Ok([])
    else
      var first :- SectorAt(tracks, ps[0].track, ps[0].sector);
      var more :- PairsData(tracks, ps[1..]);
      Ok(first + more)
  }

  /** `flat_map(|tsl| tsl.track_sector_pairs)`: the pairs of every list in
      order. */
  function AllPairs(ls: seq<TrackSectorList>): (r: seq<TrackSectorPair>)
  {
    if ls == [] then [] else ls[0].pairs + AllPairs(ls[1..])
  }

  /** Every sector of the disk is 256 bytes, as `volume_parser` makes them. */
  ghost predicate FullSectors(tracks: Tracks) {
    forall t, s :: 0 <= t < |tracks| && 0 <= s < |tracks[t]| ==> |tracks[t][s]| == 256
  }

  /** A pair is in range when both indexes are. */
  predicate InRange(tracks: Tracks, p: TrackSectorPair) {
    p.track as int < |tracks| && p.sector as int < |tracks[p.track as int]|
  }

  /** On a disk of 256-byte sectors the data is 256 bytes per pair, the
      k-th block being the sector the k-th pair names; it is there exactly
      when every pair is in range. */
  lemma {:induction false} PairsDataBlocks(tracks: Tracks, ps: seq<TrackSectorPair>)
    requires FullSectors(tracks)
    ensures PairsData(tracks, ps).Ok? <==> forall k :: 0 <= k < |ps| ==> InRange(tracks, ps[k])
    ensures PairsData(tracks, ps).Ok? ==>
      var d := PairsData(tracks, ps).value;
      |d| == 256 * |ps|
      && forall k :: 0 <= k < |ps| ==>
        d[256 * k..256 * k + 256] == tracks[ps[k].track as int][ps[k].sector as int]
    decreases |ps|
  {
    if ps != [] {
      PairsDataBlocks(tracks, ps[1..]);
      assert forall k :: 1 <= k < |ps| ==> ps[1..][k - 1] == ps[k];
      if PairsData(tracks, ps).Ok? {
        var d := PairsData(tracks, ps).value;
        var first := tracks[ps[0].track as int][ps[0].sector as int];
        var more := PairsData(tracks, ps[1..]).value;
        assert d == first + more && |first| == 256;
        forall k | 0 <= k < |ps|
          ensures d[256 * k..256 * k + 256] == tracks[ps[k].track as int][ps[k].sector as int]
        {
          if k == 0 {
            assert d[..256] == first;
          } else {
            SliceRight(first, more, 256 * k, 256 * k + 256);
          }
        }
      }
    }
  }

  lemma SliceRight(a: seq<bv8>, b: seq<bv8>, i: nat, j: nat)
    requires |a| <= i <= j <= |a| + |b|
    ensures (a + b)[i..j] == b[i - |a|..j - |a|]
  {
  }

  /** The payload `get_data` takes from a Binary file's bytes: after a
      2-byte address and a 2-byte little-endian length, exactly `length`
      bytes when that many follow; otherwise every byte, header included.
      `len + 4` is computed in 16 bits, so a declared length of 0xFFFC or
      more overflows and panics once that many bytes are present. */
  function BinaryPayload(d: seq<bv8>): (r: Result<seq<bv8>>)
    ensures r.Err? <==> 4 <= |d| && 0xFFFC <= LeWord(d[2], d[3]) <= |d| - 4
    ensures r.Err? ==> r.error == Panicked
    ensures r.Ok? ==> (r.value == d
      || (4 <= |d| && LeWord(d[2], d[3]) <= |d| - 4 && r.value == d[4..4 + LeWord(d[2], d[3])]))
  {
    if |d| >= 4 then
      var length := LeWord(d[2], d[3]);
      if |d| - 4 >= length then
        if length + 4 >= 0x1_0000 then Err(Panicked)
        else Ok(d[4..length + 4])
      else Ok(d)
    else Ok(d)
  }

  /** `get_data`: the bytes of every sector the lists name, in order; for a
      Binary file the payload, and any other type is an error.  The sectors
      are read (and may panic) before the type is looked at. */
  function GetData(e: FileEntry, tracks: Tracks, ls: seq<TrackSectorList>): (r: Result<seq<bv8>>)
    ensures r.Err? ==> r.error == Panicked || r.error == Invalid
    ensures r.Ok? ==> e.fileType == Binary
    ensures e.fileType != Binary && PairsData(tracks, AllPairs(ls)).Ok? ==> r == Err(Invalid)
  {
    var data :- PairsData(tracks, AllPairs(ls));
    if e.fileType == Binary then BinaryPayload(data) else Err(Invalid)
  }

  /** A catalog entry with its data, ready to be written out. */
  datatype FullFile = FullFile(entry: FileEntry, data: seq<bv8>, address: u16, length: u16)

  /** `FullFile::as_vec`: a Binary file is its address and length as
      little-endian words, then its data; no other type is serialised. */
  function FullFileBytes(f: FullFile): (r: Result<seq<bv8>>)
    ensures r.Ok? <==> f.entry.fileType == Binary
    ensures r.Err? ==> r.error == Unimplemented
    ensures r.Ok? ==> |r.value| == 4 + |f.data| && r.value[4..] == f.data
    ensures r.Ok? ==> LeU16(r.value) == Done(r.value[2..], f.address)
    ensures r.Ok? ==> LeU16(r.value[2..]) == Done(r.value[4..], f.length)
  {
    if f.entry.fileType == Binary then
      var a, n := LittleEndianWordToBytes(f.address), LittleEndianWordToBytes(f.length);
      LeU16OfWordBytes(f.address, n + f.data);
      LeU16OfWordBytes(f.length, f.data);
      assert (a + n + f.data)[2..] == n + f.data;
      assert (a + n + f.data)[4..] == f.data;
      Ok(a + n + f.data)
    else Err(Unimplemented)
  }

  /** Reading a serialised Binary file back, whatever follows it in its
      last sector, gives back exactly its data when its length field is
      its data's length. */
  lemma BinaryPayloadRoundTrip(f: FullFile, slack: seq<bv8>)
    requires f.entry.fileType == Binary && |f.data| == f.length && f.length < 0xFFFC
    ensures FullFileBytes(f).Ok?
    ensures BinaryPayload(FullFileBytes(f).value + slack) == Ok(f.data)
  {
    var b := FullFileBytes(f).value;
    var d := b + slack;
    assert d[2] == b[2] && d[3] == b[3];
    assert LeWord(d[2], d[3]) == f.length by {
      assert LeU16(b[2..]) == Done(b[4..], f.length);
      assert b[2..][0] == b[2] && b[2..][1] == b[3];
    }
    assert d[4..4 + f.length] == b[4..];
  }

  /** The payload with `len + 4` computed in `usize`, as the length test before
      it evidently intends: exactly `length` bytes after the header when
      that many follow, for every 16-bit length. */
  function CorrectedBinaryPayload(d: seq<bv8>): (r: seq<bv8>)
    ensures 4 <= |d| && LeWord(d[2], d[3]) <= |d| - 4 ==> r == d[4..4 + LeWord(d[2], d[3])]
    ensures !(4 <= |d| && LeWord(d[2], d[3]) <= |d| - 4) ==> r == d
  {
    if |d| >= 4 && |d| - 4 >= LeWord(d[2], d[3]) then d[4..LeWord(d[2], d[3]) + 4] else d
  }

  /** Reading a serialised Binary file back gives back its data for every
      length, once the sum cannot overflow. */
  lemma CorrectedBinaryPayloadRoundTrip(f: FullFile, slack: seq<bv8>)
    requires f.entry.fileType == Binary && |f.data| == f.length
    ensures FullFileBytes(f).Ok?
    ensures CorrectedBinaryPayload(FullFileBytes(f).value + slack) == f.data
  {
    var b := FullFileBytes(f).value;
    var d := b + slack;
    assert LeWord(d[2], d[3]) == f.length by {
      assert LeU16(b[2..]) == Done(b[4..], f.length);
      assert b[2..][0] == d[2] && b[2..][1] == d[3];
    }
    assert d[4..4 + f.length] == b[4..];
  }

  /** As written, a Binary file of 0xFFFC bytes, the longest 16-bit length
      short of the wrap, does not come back: `len + 4` overflows and the
      program panics. */
  lemma BinaryPayloadOverflows()
    ensures var f := FullFile(FileEntry(0x11, 0x0F, Binary, false, [0x42], 0), Zeros(0xFFFC), 0x0800, 0xFFFC);
      && FullFileBytes(f).Ok?
      && BinaryPayload(FullFileBytes(f).value) == Err(Panicked)
      && CorrectedBinaryPayload(FullFileBytes(f).value) == f.data
  {
    var f := FullFile(FileEntry(0x11, 0x0F, Binary, false, [0x42], 0), Zeros(0xFFFC), 0x0800, 0xFFFC);
    CorrectedBinaryPayloadRoundTrip(f, []);
    var b := FullFileBytes(f).value;
    assert b + [] == b;
    assert LeWord(b[2], b[3]) == 0xFFFC by {
      assert LeU16(b[2..]) == Done(b[4..], f.length);
      assert b[2..][0] == b[2] && b[2..][1] == b[3];
    }
  }

  // ---------------------------------------------------------------------
  // All files (`build_files`)
  // ---------------------------------------------------------------------

  /** A file as `build_files` stores it: its lists and its data. */
  datatype File = File(lists: seq<TrackSectorList>, data: seq<bv8>)

  /** `res.unwrap_or_default()`: an error gives the empty vector; a panic
      has already ended the program. */
  function UnwrapOrDefault(res: Result<seq<bv8>>): (r: Result<seq<bv8>>)
    ensures r.Ok? <==> res.Ok? || res.error != Panicked
    ensures r.Ok? ==> r.value == if res.Ok? then res.value else []
  {
    if res.Ok? || res.error == Panicked then res else Ok([])
  }

  /** `filename().unwrap()`: a name that is not UTF-8 panics. */
  function NameOf(e: FileEntry): (r: Result<seq<bv8>>)
    ensures r.Ok? <==> Filename(e.fileName).Some?
    ensures r.Ok? ==> Filename(e.fileName) == Some(r.value)
    ensures r.Err? ==> r.error == Panicked
  {
    if Filename(e.fileName).Some? then Ok(Filename(e.fileName).value) else Err(Panicked)
  }

  /** One iteration of `build_files`: the lists, then the data, defaulting
      to empty for a file `get_data` cannot export. */
  function BuiltFile(tracks: Tracks, e: FileEntry, fuel: nat): (r: Result<File>)
    ensures r.Ok? ==> TrackSectorLists(tracks, e, fuel) == Ok(r.value.lists)
    ensures r.Ok? && e.fileType != Binary ==> r.value.data == []
  {
    var lists :- TrackSectorLists(tracks, e, fuel);
    var data :- UnwrapOrDefault(GetData(e, tracks, lists));
    Ok(File(lists, data))
  }

  /** `build_files` from the entries `es` on, over the files built so far. */
  function BuiltFiles(tracks: Tracks, es: seq<FileEntry>, files: map<seq<bv8>, File>, fuel: nat)
    : (r: Result<map<seq<bv8>, File>>)
    decreases |es|
  {
    if es == [] then Ok(files)
    else
      var file :- BuiltFile(tracks, es[0], fuel);
      var name :- NameOf(es[0]);
      BuiltFiles(tracks, es[1..], files[name := file], fuel)
  }

  /** `build_files`: build every entry of the catalog in order and insert it
      under its name. */
  method BuildFiles(catalog: FullCatalog, tracks: Tracks, fuel: nat) returns (r: Result<map<seq<bv8>, File>>)
    ensures r == BuiltFiles(tracks, catalog.fileEntries, map[], fuel)
  {
    var es := catalog.fileEntries;
    var files: map<seq<bv8>, File> := map[];
    for i := 0 to |es|
      invariant BuiltFiles(tracks, es, map[], fuel) == BuiltFiles(tracks, es[i..], files, fuel)
    {
      assert es[i..][1..] == es[i + 1..];
      var lists := BuildFile(es[i], tracks, fuel);
      if lists.Err? {
        return Err(lists.error);
      }
      var data := UnwrapOrDefault(GetData(es[i], tracks, lists.value));
      if data.Err? {
        return Err(data.error);
      }
      var name := NameOf(es[i]);
      if name.Err? {
        return Err(name.error);
      }
      files := files[name.value := File(lists.value, data.value)];
    }
    return Ok(files);
  }

  /** The files built hold exactly the names of the entries (and whatever
      was there before). */
  lemma {:induction false} BuiltFilesKeys(tracks: Tracks, es: seq<FileEntry>, files: map<seq<bv8>, File>, fuel: nat, n: seq<bv8>)
    requires BuiltFiles(tracks, es, files, fuel).Ok?
    ensures n in BuiltFiles(tracks, es, files, fuel).value <==>
      n in files || exists k :: 0 <= k < |es| && NameOf(es[k]) == Ok(n)
    decreases |es|
  {
    if es != [] {
      var name := NameOf(es[0]).value;
      var file := BuiltFile(tracks, es[0], fuel).value;
      BuiltFilesKeys(tracks, es[1..], files[name := file], fuel, n);
      if exists k :: 0 <= k < |es| && NameOf(es[k]) == Ok(n) {
        var k :| 0 <= k < |es| && NameOf(es[k]) == Ok(n);
        if k > 0 {
          assert es[1..][k - 1] == es[k];
        }
      }
      if exists k :: 0 <= k < |es[1..]| && NameOf(es[1..][k]) == Ok(n) {
        var k :| 0 <= k < |es[1..]| && NameOf(es[1..][k]) == Ok(n);
        assert es[1..][k] == es[k + 1];
      }
    }
  }

  /** A name no later entry carries keeps the file stored under it. */
  lemma {:induction false} BuiltFilesUntouched(tracks: Tracks, es: seq<FileEntry>, files: map<seq<bv8>, File>, fuel: nat, n: seq<bv8>)
    requires BuiltFiles(tracks, es, files, fuel).Ok?
    requires forall k :: 0 <= k < |es| ==> NameOf(es[k]) != Ok(n)
    requires n in files
    ensures n in BuiltFiles(tracks, es, files, fuel).value
    ensures BuiltFiles(tracks, es, files, fuel).value[n] == files[n]
    decreases |es|
  {
    if es != [] {
      var name := NameOf(es[0]).value;
      var file := BuiltFile(tracks, es[0], fuel).value;
      forall j | 0 <= j < |es| - 1
        ensures NameOf(es[1..][j]) != Ok(n)
      {
        assert es[1..][j] == es[j + 1];
      }
      BuiltFilesUntouched(tracks, es[1..], files[name := file], fuel, n);
    }
  }

  /** A successful build of a non-empty list built and named its first
      entry, then went on with the rest. */
  lemma BuiltFilesFirst(tracks: Tracks, es: seq<FileEntry>, files: map<seq<bv8>, File>, fuel: nat)
    requires es != [] && BuiltFiles(tracks, es, files, fuel).Ok?
    ensures BuiltFile(tracks, es[0], fuel).Ok? && NameOf(es[0]).Ok?
    ensures BuiltFiles(tracks, es, files, fuel)
         == BuiltFiles(tracks, es[1..], files[NameOf(es[0]).value := BuiltFile(tracks, es[0], fuel).value], fuel)
  {
  }

  /** A name maps to the file built from the last entry carrying it. */
  lemma {:induction false} BuiltFilesLast(tracks: Tracks, es: seq<FileEntry>, files: map<seq<bv8>, File>, fuel: nat, n: seq<bv8>, k: nat)
    requires BuiltFiles(tracks, es, files, fuel).Ok?
    requires k < |es| && NameOf(es[k]) == Ok(n)
    requires forall j :: k < j < |es| ==> NameOf(es[j]) != Ok(n)
    ensures BuiltFile(tracks, es[k], fuel).Ok?
    ensures n in BuiltFiles(tracks, es, files, fuel).value
    ensures BuiltFiles(tracks, es, files, fuel).value[n] == BuiltFile(tracks, es[k], fuel).value
    decreases |es|
  {
    BuiltFilesFirst(tracks, es, files, fuel);
    var name := NameOf(es[0]).value;
    var file := BuiltFile(tracks, es[0], fuel).value;
    forall j | k <= j < |es| - 1
      ensures NameOf(es[1..][j]) != Ok(n)
    {
      assert es[1..][j] == es[j + 1];
    }
    if k > 0 {
      assert es[1..][k - 1] == es[k];
      BuiltFilesLast(tracks, es[1..], files[name := file], fuel, n, k - 1);
    } else {
      BuiltFilesUntouched(tracks, es[1..], files[name := file], fuel, n);
    }
  }
}
