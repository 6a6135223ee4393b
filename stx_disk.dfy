/** The STX container (stx/disk.rs): the file header, its sanity check,
    the disk parser and the sector data it extracts. */
module StxDisk {
  import opened Parsing
  import opened StxSector
  import opened StxTrack

  /** `STXDiskHeader`: sixteen bytes at the start of the file. */
  datatype DiskHeader = DiskHeader(
    diskId: seq<bv8>,
    version: u16,
    toolUsed: u16,
    reservedArea1: seq<bv8>,
    trackCount: bv8,
    newFormat: bv8,
    reservedArea2: seq<bv8>)

  /** The magic number, "RSY" and a NUL byte. */
  const MAGIC: seq<bv8> := [0x52, 0x53, 0x59, 0x00]

  const DISK_HEADER_SIZE: nat := 16

  /** The most tracks the sanity check accepts. */
  const MAX_TRACKS: nat := 164

  /** `stx_disk_header_parser` (disk.rs:145-176). */
  function DiskHeaderParser(s: seq<bv8>): (r: Outcome<DiskHeader>)
    ensures r.Fail? ==> r.failure == Error
  {
    var (i, diskId) :- Tag(s, MAGIC);
    var (i, version) :- LeU16(i);
    var (i, toolUsed) :- LeU16(i);
    var (i, reservedArea1) :- Take(i, 2);
    var (i, trackCount) :- U8(i);
    var (i, newFormat) :- U8(i);
    var (i, reservedArea2) :- Take(i, 4);
    Done(i, DiskHeader(diskId, version, toolUsed, reservedArea1, trackCount, newFormat, reservedArea2))
  }

  /** The header layout: the magic, two little-endian words, two reserved
      bytes, the track count, the format byte and four reserved bytes. */
  function DiskHeaderAt(s: seq<bv8>): DiskHeader
    requires DISK_HEADER_SIZE <= |s|
  {
    DiskHeader(s[..4], LeWord(s[4], s[5]), LeWord(s[6], s[7]), s[8..10], s[10], s[11], s[12..16])
  }

  /** The header parser accepts exactly the inputs of sixteen bytes or more
      that start with the magic number, and consumes sixteen bytes. */
  lemma DiskHeaderLayout(s: seq<bv8>)
    ensures DiskHeaderParser(s).Done? <==> DISK_HEADER_SIZE <= |s| && s[..4] == MAGIC
    ensures DiskHeaderParser(s).Done? ==> DiskHeaderParser(s) == Done(s[DISK_HEADER_SIZE..], DiskHeaderAt(s))
  {
    if 4 <= |s| && s[..4] == MAGIC {
      var i := s[4..];
      if 10 <= |s| {
        assert i[2..][2..] == s[8..];
        assert s[8..][..2] == s[8..10];
        if 12 <= |s| {
          assert s[8..][2..][1..][1..] == s[12..];
          if 16 <= |s| {
            assert s[12..][..4] == s[12..16] && s[12..][4..] == s[16..];
          }
        }
      }
    }
  }

  /** The unit tests of disk.rs:182-228: the stock header reads as version
      3, tool 1, 82 tracks in the new format, and a header whose magic has
      0x60 for its third byte is refused. */
  lemma DiskHeaderExamples(s: seq<bv8>)
    requires |s| == 16 && s[4] == 3 && s[6] == 1 && s[10] == 0x52 && s[11] == 2
    requires s[0] == 0x52 && s[1] == 0x53 && s[3] == 0
    requires forall k :: 4 <= k < 16 && k != 4 && k != 6 && k != 10 && k != 11 ==> s[k] == 0
    ensures s[2] == 0x59 ==>
      DiskHeaderParser(s) == Done([], DiskHeader(MAGIC, 3, 1, [0, 0], 0x52, 2, [0, 0, 0, 0]))
    ensures s[2] == 0x60 ==> DiskHeaderParser(s) == Fail(Error)
  {
    DiskHeaderLayout(s);
    if s[2] == 0x59 {
      assert s[..4] == MAGIC;
      assert s[8..10] == [0, 0];
      assert s[12..16] == [0, 0, 0, 0];
    } else if s[2] == 0x60 {
      assert s[..4][2] != MAGIC[2];
    }
  }

  /** The disk's sanity check (disk.rs:94-103). */
  predicate Check(h: DiskHeader) {
    h.trackCount as int <= MAX_TRACKS
  }

  /** `STXDisk`: the header and its tracks. */
  datatype Disk = Disk(header: DiskHeader, tracks: seq<Track>)

  /** `stx_disk_parser` (disk.rs:123-141): the header, the sanity check (a failure
      panics), then as many tracks as the header counts. */
  function DiskParser(s: seq<bv8>): Outcome<Disk> {
    var (i, header) :- DiskHeaderParser(s);
    if !Check(header) then Fail(Panic)
    else
      var (i, tracks) :- TracksParser(header.trackCount as nat, i);
      Done(i, Disk(header, tracks))
  }

  /** A file without the magic number is a plain error, and one counting
      more than 164 tracks panics. */
  lemma DiskParserFailures(s: seq<bv8>)
    ensures !(DISK_HEADER_SIZE <= |s| && s[..4] == MAGIC) ==> DiskParser(s) == Fail(Error)
    ensures DISK_HEADER_SIZE <= |s| && s[..4] == MAGIC && s[10] as int > MAX_TRACKS ==> DiskParser(s) == Fail(Panic)
  {
    DiskHeaderLayout(s);
  }

  /** An accepted disk: its header is the first sixteen bytes and passes
      the sanity check, and it holds exactly the counted tracks, parsed from the
      end of the header. */
  lemma DiskParserDone(s: seq<bv8>)
    requires DiskParser(s).Done?
    ensures DISK_HEADER_SIZE <= |s| && s[..4] == MAGIC
    ensures var d := DiskParser(s).value;
      d.header == DiskHeaderAt(s) && Check(d.header) &&
      |d.tracks| == s[10] as int <= MAX_TRACKS &&
      TracksParser(|d.tracks|, s[DISK_HEADER_SIZE..]) == Done(DiskParser(s).rest, d.tracks)
  {
    DiskHeaderLayout(s);
  }

  /** The tracks of an accepted disk are read one record after another
      from the end of the header, and the parser stops after the last. */
  lemma DiskTracksInOrder(s: seq<bv8>)
    requires DiskParser(s).Done?
    ensures DISK_HEADER_SIZE <= |s|
    ensures var d := DiskParser(s).value;
      TrackOffset(d.tracks, |d.tracks|) <= |s| - DISK_HEADER_SIZE &&
      DiskParser(s).rest == s[DISK_HEADER_SIZE + TrackOffset(d.tracks, |d.tracks|)..] &&
      forall k :: 0 <= k < |d.tracks| ==> TrackAt(s[DISK_HEADER_SIZE..], d.tracks, k)
  {
    DiskParserDone(s);
    var d := DiskParser(s).value;
    TracksInOrder(|d.tracks|, s[DISK_HEADER_SIZE..]);
  }

  // ---------------------------------------------------------------------
  // The extracted image
  // ---------------------------------------------------------------------

  /** The pieces laid end to end. */
  function Concat(pieces: seq<seq<bv8>>): seq<bv8> {
    if pieces == [] then [] else pieces[0] + Concat(pieces[1..])
  }

  lemma {:induction false} ConcatAppend(a: seq<seq<bv8>>, b: seq<seq<bv8>>)
    ensures Concat(a + b) == Concat(a) + Concat(b)
    decreases |a|
  {
    if a != [] {
      assert (a + b)[0] == a[0] && (a + b)[1..] == a[1..] + b;
      ConcatAppend(a[1..], b);
    } else {
      assert a + b == b;
    }
  }

  /** A track's contribution: its sector data in order, or nothing when it
      has none. */
  function TrackBytes(t: Track): seq<bv8> {
    if t.sectorData.Some? then Concat(t.sectorData.value) else []
  }

  /** The bytes `save_disk_image` writes and `disk_image_data` returns
      (disk.rs:49-56): the sector data of the tracks that have some, in
      track order and sector order. */
  function ImageData(tracks: seq<Track>): seq<bv8> {
    if tracks == [] then [] else TrackBytes(tracks[0]) + ImageData(tracks[1..])
  }

  lemma {:induction false} ImageDataAppend(a: seq<Track>, b: seq<Track>)
    ensures ImageData(a + b) == ImageData(a) + ImageData(b)
    decreases |a|
  {
    if a != [] {
      assert (a + b)[0] == a[0] && (a + b)[1..] == a[1..] + b;
      ImageDataAppend(a[1..], b);
    } else {
      assert a + b == b;
    }
  }

  /** The image is in order: sector `j` of track `k` sits right after the
      data of the tracks before `k` and of the sectors before `j`. */
  lemma SectorInImage(tracks: seq<Track>, k: nat, j: nat)
    requires k < |tracks| && tracks[k].sectorData.Some? && j < |tracks[k].sectorData.value|
    ensures var pieces := tracks[k].sectorData.value;
      var offset := |ImageData(tracks[..k])| + |Concat(pieces[..j])|;
      offset + |pieces[j]| <= |ImageData(tracks)| &&
      ImageData(tracks)[offset..offset + |pieces[j]|] == pieces[j]
  {
    var pieces := tracks[k].sectorData.value;
    ImageDataSplit(tracks, k);
    ConcatSplit(pieces, j);
    var before := ImageData(tracks[..k]);
    var mid := Concat(pieces[..j]);
    var tail := Concat(pieces[j + 1..]);
    var after := ImageData(tracks[k + 1..]);
    assert ImageData(tracks) == before + (mid + pieces[j] + tail) + after;
    Regroup(before, mid, pieces[j], tail, after);
    Middle(before + mid, pieces[j], tail + after);
  }

  lemma ImageDataSplit(tracks: seq<Track>, k: nat)
    requires k < |tracks|
    ensures ImageData(tracks) == ImageData(tracks[..k]) + TrackBytes(tracks[k]) + ImageData(tracks[k + 1..])
  {
    SliceAt(tracks, k);
    ImageDataAppend(tracks[..k], tracks[k..]);
  }

  lemma {:induction false} ConcatSplit(pieces: seq<seq<bv8>>, j: nat)
    requires j < |pieces|
    ensures Concat(pieces) == Concat(pieces[..j]) + pieces[j] + Concat(pieces[j + 1..])
    decreases j
  {
    if j == 0 {
      assert pieces[..0] == [];
    } else {
      var t := pieces[1..];
      ConcatSplit(t, j - 1);
      assert t[..j - 1] == pieces[..j][1..];
      assert t[j - 1] == pieces[j];
      assert t[j..] == pieces[j + 1..];
    }
  }

  /** Tracks without sector data add nothing to the image. */
  lemma {:induction false} ImageDataWithoutSectors(tracks: seq<Track>)
    requires forall k :: 0 <= k < |tracks| ==> tracks[k].sectorData.None?
    ensures ImageData(tracks) == []
    decreases |tracks|
  {
    if tracks != [] {
      ImageDataWithoutSectors(tracks[1..]);
    }
  }
}
