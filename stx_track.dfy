/** STX track records (stx/track.rs): the track header, its sanity check,
    the track-image header and the track parser that skips to the next
    record by the block size. */
module StxTrack {
  import opened Parsing
  import opened StxSector

  /** `STXTrackHeader`: sixteen bytes at the start of every track record. */
  datatype TrackHeader = TrackHeader(
    blockSize: u32,
    fuzzySize: u32,
    sectorsCount: u16,
    flags: u16,
    mfmSize: u16,
    trackNumber: bv8,
    recordType: bv8)

  const TRACK_HEADER_SIZE: nat := 16

  /** Bit `mask` (a power of two) of `flags` is set. */
  predicate HasBit(flags: u16, mask: nat)
    requires 0 < mask
  {
    (flags / mask) % 2 == 1
  }

  /** The ten-odd reads of `stx_track_header_parser` (track.rs:140-161). */
  function TrackHeaderParser(s: seq<bv8>): (r: Outcome<TrackHeader>)
    ensures r.Fail? ==> r.failure == Error
  {
    var (i, blockSize) :- LeU32(s);
    var (i, fuzzySize) :- LeU32(i);
    var (i, sectorsCount) :- LeU16(i);
    var (i, flags) :- LeU16(i);
    var (i, mfmSize) :- LeU16(i);
    var (i, trackNumber) :- U8(i);
    var (i, recordType) :- U8(i);
    Done(i, TrackHeader(blockSize, fuzzySize, sectorsCount, flags, mfmSize, trackNumber, recordType))
  }

  /** The header layout, all fields little-endian. */
  function TrackHeaderAt(s: seq<bv8>): TrackHeader
    requires TRACK_HEADER_SIZE <= |s|
  {
    TrackHeader(
      LeWord(s[0], s[1]) + 0x1_0000 * LeWord(s[2], s[3]),
      LeWord(s[4], s[5]) + 0x1_0000 * LeWord(s[6], s[7]),
      LeWord(s[8], s[9]), LeWord(s[10], s[11]), LeWord(s[12], s[13]),
      s[14], s[15])
  }

  /** The header parser consumes exactly sixteen bytes and fails with a
      plain error on a shorter input. */
  lemma TrackHeaderLayout(s: seq<bv8>)
    ensures TrackHeaderParser(s).Done? <==> TRACK_HEADER_SIZE <= |s|
    ensures TRACK_HEADER_SIZE <= |s| ==> TrackHeaderParser(s) == Done(s[TRACK_HEADER_SIZE..], TrackHeaderAt(s))
  {
    if 8 <= |s| {
      assert s[4..][4..] == s[8..];
    }
    if 14 <= |s| {
      assert s[8..][2..][2..][2..] == s[14..];
    }
    if TRACK_HEADER_SIZE <= |s| {
      assert s[14..][1..][1..] == s[16..];
    }
  }

  /** The track's sanity check (track.rs:63-77). */
  predicate Check(h: TrackHeader) {
    (h.flags == 0x21 || h.flags == 0x61 || h.flags == 0xC1) &&
    (HasBit(h.flags, 0x40) || h.sectorsCount == 0)
  }

  /** Every accepted flags value marks a track of sector blocks, and a
      track without a track image has no sectors. */
  lemma CheckedTrackHasSectorBlocks(h: TrackHeader)
    requires Check(h)
    ensures HasBit(h.flags, 0x01)
    ensures h.sectorsCount > 0 ==> h.flags == 0x61 || h.flags == 0xC1
  {
  }

  /** The unit tests of track.rs:360-410: the sample header reads back
      with its fields, passes the sanity check with flags 0x61 and fails it with
      flags 0x62. */
  lemma TrackHeaderExample(s: seq<bv8>, flags: bv8)
    requires |s| == 16 && s[0] == 0x43 && s[1] == 0x2B && s[8] == 0x09 && s[10] == flags && s[12] == 0x74 && s[13] == 0x18
    requires forall k :: 0 <= k < 16 && k != 0 && k != 1 && k != 8 && k != 10 && k != 12 && k != 13 ==> s[k] == 0
    ensures TrackHeaderParser(s) == Done([], TrackHeader(0x2B43, 0, 9, flags as int, 0x1874, 0, 0))
    ensures flags == 0x61 ==> Check(TrackHeaderParser(s).value)
    ensures flags == 0x62 ==> !Check(TrackHeaderParser(s).value)
  {
    TrackHeaderLayout(s);
    assert s[2] == 0 && s[3] == 0 && s[4] == 0 && s[5] == 0 && s[6] == 0 && s[7] == 0;
    assert s[9] == 0 && s[11] == 0 && s[14] == 0 && s[15] == 0;
  }

  // ---------------------------------------------------------------------
  // The track image header
  // ---------------------------------------------------------------------

  /** `STXTrackImageHeader`; a field the flags leave out reads as 0. */
  datatype TrackImageHeader = TrackImageHeader(firstSyncOffset: u16, trackImageSize: u16)

  function LeWordParser(): seq<bv8> -> Outcome<u16> {
    t => LeU16(t)
  }

  /** `stx_track_image_header_parser` (track.rs:316-338): the first sync
      offset when bits 6 and 7 are set, then the image size when bit 6 is. */
  function TrackImageHeaderParser(flags: u16, s: seq<bv8>): Outcome<TrackImageHeader> {
    var (i, firstSyncOffset) :- Cond(HasBit(flags, 0x40) && HasBit(flags, 0x80), LeWordParser(), s);
    var (i, trackImageSize) :- Cond(HasBit(flags, 0x40), LeWordParser(), i);
    Done(i, TrackImageHeader(UnwrapOr(firstSyncOffset, 0), UnwrapOr(trackImageSize, 0)))
  }

  /** How many bytes the track-image header takes for the given flags. */
  function ImageHeaderSize(flags: u16): (n: nat)
    ensures n == 0 || n == 2 || n == 4
  {
    if !HasBit(flags, 0x40) then 0 else if HasBit(flags, 0x80) then 4 else 2
  }

  /** The image header consumes 0, 2 or 4 bytes as the flags say, reading
      little-endian words, and fails with a plain error when they are not
      there. */
  lemma TrackImageHeaderLayout(flags: u16, s: seq<bv8>)
    ensures TrackImageHeaderParser(flags, s).Done? <==> ImageHeaderSize(flags) <= |s|
    ensures TrackImageHeaderParser(flags, s).Fail? ==> TrackImageHeaderParser(flags, s).failure == Error
    ensures ImageHeaderSize(flags) <= |s| ==>
      TrackImageHeaderParser(flags, s).rest == s[ImageHeaderSize(flags)..]
    ensures ImageHeaderSize(flags) == 4 && 4 <= |s| ==>
      TrackImageHeaderParser(flags, s).value == TrackImageHeader(LeWord(s[0], s[1]), LeWord(s[2], s[3]))
    ensures ImageHeaderSize(flags) == 2 && 2 <= |s| ==>
      TrackImageHeaderParser(flags, s).value == TrackImageHeader(0, LeWord(s[0], s[1]))
    ensures ImageHeaderSize(flags) == 0 ==>
      TrackImageHeaderParser(flags, s) == Done(s, TrackImageHeader(0, 0))
  {
    if ImageHeaderSize(flags) == 4 && 4 <= |s| {
      assert s[2..][2..] == s[4..];
    }
  }

  // ---------------------------------------------------------------------
  // The track parser
  // ---------------------------------------------------------------------

  /** `STXTrack`: the header, and the sector headers and sector data of a
      track of sector blocks. */
  datatype Track = Track(
    header: TrackHeader,
    sectorHeaders: Option<seq<SectorHeader>>,
    sectorData: Option<seq<seq<bv8>>>)

  function SectorHeaderParserValue(): seq<bv8> -> Outcome<SectorHeader> {
    t => SectorHeaderParser(t)
  }

  /** What the track parser reads after the header (track.rs:200-267):
      plain 512-byte sectors for a track without sector blocks, otherwise
      the sector headers, the fuzzy mask, the image header and the sector
      data, the data measured from the end of the fuzzy mask. */
  function TrackBody(h: TrackHeader, i: seq<bv8>): Outcome<(Option<seq<SectorHeader>>, Option<seq<seq<bv8>>>)> {
    if !HasBit(h.flags, 0x01) then
      if h.sectorsCount > 0 then
        var (j, _) :- PlainSectors(h.sectorsCount, i);
        Done(j, (None, None))
      else Done(i, (None, None))
    else if h.fuzzySize > 0 then Fail(Panic)
    else if h.sectorsCount > 0 then SectorBlocks(h.sectorsCount, h.fuzzySize, h.flags, i)
    else Done(i, (None, None))
  }

  /** The sector-block branch: `n` sector headers, the fuzzy mask, the
      track-image header, and the sector data measured from the end of the
      fuzzy mask (track.rs:226-263). */
  function SectorBlocks(n: nat, fuzzySize: u32, flags: u16, i: seq<bv8>): Outcome<(Option<seq<SectorHeader>>, Option<seq<seq<bv8>>>)> {
    var (j, headers) :- Count(SectorHeaderParserValue(), n, i);
    var (k, _) :- Take(j, fuzzySize);
    var (m, _) :- TrackImageHeaderParser(flags, k);
    var (_, data) :- SectorData(headers, k);
    Done(m, (Some(headers), Some(data)))
  }

  /** When the sector-block branch succeeds, the headers are the counted
      ones and the data is sliced after the fuzzy mask. */
  lemma SectorBlocksDone(n: nat, fuzzySize: u32, flags: u16, i: seq<bv8>)
    requires SectorBlocks(n, fuzzySize, flags, i).Done?
    ensures Count(SectorHeaderParserValue(), n, i).Done?
    ensures var c := Count(SectorHeaderParserValue(), n, i);
      fuzzySize <= |c.rest| &&
      SectorData(c.value, c.rest[fuzzySize..]).Done? &&
      SectorBlocks(n, fuzzySize, flags, i).value ==
        (Some(c.value), Some(SectorData(c.value, c.rest[fuzzySize..]).value))
  {
  }

  /** `stx_track_parser` (track.rs:187-284): the header, the sanity check (a
      failure panics), the body, and then the next record, `block_size`
      bytes from the start of this one. */
  function TrackParser(s: seq<bv8>): Outcome<Track> {
    var (i, h) :- TrackHeaderParser(s);
    if !Check(h) then Fail(Panic)
    else
      var (_, body) :- TrackBody(h, i);
      var (next, _) :- Take(s, h.blockSize);
      Done(next, Track(h, body.0, body.1))
  }

  /** A short input is a plain error; a header that fails the sanity check, or a
      sector-block track with a fuzzy mask, panics. */
  lemma TrackParserFailures(s: seq<bv8>)
    ensures |s| < TRACK_HEADER_SIZE ==> TrackParser(s) == Fail(Error)
    ensures TRACK_HEADER_SIZE <= |s| && !Check(TrackHeaderAt(s)) ==> TrackParser(s) == Fail(Panic)
    ensures TRACK_HEADER_SIZE <= |s| && Check(TrackHeaderAt(s)) && TrackHeaderAt(s).fuzzySize > 0 ==>
      TrackParser(s) == Fail(Panic)
  {
    TrackHeaderLayout(s);
    if TRACK_HEADER_SIZE <= |s| && Check(TrackHeaderAt(s)) {
      CheckedTrackHasSectorBlocks(TrackHeaderAt(s));
    }
  }

  /** The sector-block part of an accepted track: the `n` sector headers
      right after the track header, each with a good CRC, and each sector's
      data measured from the end of the headers. */
  predicate SectorsOfTrack(s: seq<bv8>, n: nat, headers: seq<SectorHeader>, data: seq<seq<bv8>>) {
    var base := TRACK_HEADER_SIZE + SECTOR_HEADER_SIZE * n;
    base <= |s| && |headers| == n && |data| == n &&
    (forall k :: 0 <= k < n ==>
      TRACK_HEADER_SIZE + SECTOR_HEADER_SIZE * k + SECTOR_HEADER_SIZE <= |s| &&
      headers[k] == SectorHeaderAt(s[TRACK_HEADER_SIZE + SECTOR_HEADER_SIZE * k..]) &&
      StxSector.Check(headers[k])) &&
    (forall k :: 0 <= k < n ==> DataFits(headers[k], s[base..]) && data[k] == DataOf(headers[k], s[base..]))
  }

  /** An accepted track: its header is the first sixteen bytes and passes
      the sanity check, the parser resumes `block_size` bytes on, and the sector
      headers and data are both present, exactly when the track has
      sectors, with one entry per sector. */
  lemma TrackParserDone(s: seq<bv8>)
    requires TrackParser(s).Done?
    ensures TRACK_HEADER_SIZE <= |s|
    ensures var t := TrackParser(s).value;
      t.header == TrackHeaderAt(s) && Check(t.header) &&
      t.header.blockSize <= |s| && TrackParser(s).rest == s[t.header.blockSize..] &&
      (t.sectorHeaders.Some? <==> t.header.sectorsCount > 0) &&
      (t.sectorData.Some? <==> t.header.sectorsCount > 0) &&
      (t.header.sectorsCount > 0 ==>
        t.header.fuzzySize == 0 &&
        SectorsOfTrack(s, t.header.sectorsCount, t.sectorHeaders.value, t.sectorData.value))
  {
    TrackHeaderLayout(s);
    var h := TrackHeaderAt(s);
    CheckedTrackHasSectorBlocks(h);
    assert TrackBody(h, s[TRACK_HEADER_SIZE..]).Done?;
    if h.sectorsCount > 0 {
      SectorBlocksOfTrack(s, h);
    }
  }

  /** The body of a track of sector blocks with sectors. */
  lemma SectorBlocksOfTrack(s: seq<bv8>, h: TrackHeader)
    requires TRACK_HEADER_SIZE <= |s|
    requires Check(h) && h.sectorsCount > 0
    requires TrackBody(h, s[TRACK_HEADER_SIZE..]).Done?
    ensures var body := TrackBody(h, s[TRACK_HEADER_SIZE..]).value;
      h.fuzzySize == 0 && body.0.Some? && body.1.Some? &&
      SectorsOfTrack(s, h.sectorsCount, body.0.value, body.1.value)
  {
    var i := s[TRACK_HEADER_SIZE..];
    var n: nat := h.sectorsCount;
    CheckedTrackHasSectorBlocks(h);
    assert h.fuzzySize == 0;
    assert TrackBody(h, i) == SectorBlocks(n, 0, h.flags, i);
    SectorBlocksDone(n, 0, h.flags, i);
    var c := Count(SectorHeaderParserValue(), n, i);
    SectorHeadersOfTrack(s, n, c.value);
    var base := TRACK_HEADER_SIZE + SECTOR_HEADER_SIZE * n;
    assert c.rest[0..] == s[base..];
    var d := SectorData(c.value, s[base..]);
    assert d.Done? && TrackBody(h, i).value == (Some(c.value), Some(d.value));
    assert forall k :: 0 <= k < n ==> DataFits(c.value[k], s[base..]) && d.value[k] == DataOf(c.value[k], s[base..]);
    assert SectorsOfTrack(s, n, c.value, d.value);
  }

  /** Whenever the sector header parser succeeds it has read sixteen
      bytes. */
  lemma SectorHeaderParserConsumes()
    ensures Consumes(SectorHeaderParserValue(), SECTOR_HEADER_SIZE)
  {
    forall t | SectorHeaderParserValue()(t).Done?
      ensures SECTOR_HEADER_SIZE <= |t| && SectorHeaderParserValue()(t).rest == t[SECTOR_HEADER_SIZE..]
    {
      SectorHeaderParserDone(t);
    }
  }

  /** The counted sector headers sit back to back after the track header. */
  lemma SectorHeadersOfTrack(s: seq<bv8>, n: nat, headers: seq<SectorHeader>)
    requires TRACK_HEADER_SIZE <= |s|
    requires Count(SectorHeaderParserValue(), n, s[TRACK_HEADER_SIZE..]).Done?
    requires headers == Count(SectorHeaderParserValue(), n, s[TRACK_HEADER_SIZE..]).value
    ensures TRACK_HEADER_SIZE + SECTOR_HEADER_SIZE * n <= |s|
    ensures Count(SectorHeaderParserValue(), n, s[TRACK_HEADER_SIZE..]).rest == s[TRACK_HEADER_SIZE + SECTOR_HEADER_SIZE * n..]
    ensures forall k :: 0 <= k < n ==>
      TRACK_HEADER_SIZE + SECTOR_HEADER_SIZE * k + SECTOR_HEADER_SIZE <= |s| &&
      headers[k] == SectorHeaderAt(s[TRACK_HEADER_SIZE + SECTOR_HEADER_SIZE * k..]) &&
      StxSector.Check(headers[k])
  {
    var i := s[TRACK_HEADER_SIZE..];
    SectorHeaderParserConsumes();
    CountConsumes(SectorHeaderParserValue(), SECTOR_HEADER_SIZE, n, i);
    assert i[n * SECTOR_HEADER_SIZE..] == s[TRACK_HEADER_SIZE + SECTOR_HEADER_SIZE * n..];
    forall k | 0 <= k < n
      ensures TRACK_HEADER_SIZE + SECTOR_HEADER_SIZE * k + SECTOR_HEADER_SIZE <= |s|
      ensures headers[k] == SectorHeaderAt(s[TRACK_HEADER_SIZE + SECTOR_HEADER_SIZE * k..])
      ensures StxSector.Check(headers[k])
    {
      SectorHeaderOfTrack(s, n, headers, k);
    }
  }

  /** Sector header `k` of a track, read at its offset. */
  lemma SectorHeaderOfTrack(s: seq<bv8>, n: nat, headers: seq<SectorHeader>, k: nat)
    requires TRACK_HEADER_SIZE <= |s| && k < n
    requires Count(SectorHeaderParserValue(), n, s[TRACK_HEADER_SIZE..]).Done?
    requires headers == Count(SectorHeaderParserValue(), n, s[TRACK_HEADER_SIZE..]).value
    ensures TRACK_HEADER_SIZE + SECTOR_HEADER_SIZE * k + SECTOR_HEADER_SIZE <= |s|
    ensures headers[k] == SectorHeaderAt(s[TRACK_HEADER_SIZE + SECTOR_HEADER_SIZE * k..])
    ensures StxSector.Check(headers[k])
  {
    var i := s[TRACK_HEADER_SIZE..];
    SectorHeaderParserConsumes();
    CountConsumes(SectorHeaderParserValue(), SECTOR_HEADER_SIZE, n, i);
    var t := s[TRACK_HEADER_SIZE + SECTOR_HEADER_SIZE * k..];
    assert i[k * SECTOR_HEADER_SIZE..] == t;
    SectorHeaderParserDone(t);
  }

  function TrackParserValue(): seq<bv8> -> Outcome<Track> {
    t => TrackParser(t)
  }

  /** `stx_tracks_parser(n)` (track.rs:288-290). */
  function TracksParser(n: nat, s: seq<bv8>): (r: Outcome<seq<Track>>)
    ensures r.Done? ==> |r.value| == n
  {
    Count(TrackParserValue(), n, s)
  }

  /** The length of a track record. */
  function BlockLength(): Track -> nat {
    (t: Track) => t.header.blockSize
  }

  /** Where track `k` of a parsed disk begins: the records before it laid
      end to end by their block sizes. */
  function TrackOffset(tracks: seq<Track>, k: nat): nat
    requires k <= |tracks|
  {
    OffsetOf(tracks, BlockLength(), k)
  }

  /** Track `k` of `tracks` is what the track parser reads at the end of
      the records before it. */
  predicate TrackAt(s: seq<bv8>, tracks: seq<Track>, k: nat)
    requires k < |tracks|
  {
    TrackOffset(tracks, k) <= TrackOffset(tracks, k + 1) <= |s| &&
    TrackParser(s[TrackOffset(tracks, k)..]) == Done(s[TrackOffset(tracks, k + 1)..], tracks[k])
  }

  /** The tracks come in input order, each record read where the one
      before it ends, and the parse resumes after the last record. */
  lemma TracksInOrder(n: nat, s: seq<bv8>)
    requires TracksParser(n, s).Done?
    ensures TrackOffset(TracksParser(n, s).value, n) <= |s|
    ensures TracksParser(n, s).rest == s[TrackOffset(TracksParser(n, s).value, n)..]
    ensures forall k :: 0 <= k < n ==> TrackAt(s, TracksParser(n, s).value, k)
  {
    var p := TrackParserValue();
    TrackParserConsumes();
    CountRest(p, BlockLength(), n, s);
    forall k | 0 <= k < n
      ensures TrackAt(s, TracksParser(n, s).value, k)
    {
      CountAt(p, BlockLength(), n, s, k);
    }
  }

  /** Every accepted track record is `block_size` bytes long. */
  lemma TrackParserConsumes()
    ensures ConsumesLength(TrackParserValue(), BlockLength())
  {
    forall t | TrackParserValue()(t).Done?
      ensures BlockLength()(TrackParserValue()(t).value) <= |t|
      ensures TrackParserValue()(t).rest == t[BlockLength()(TrackParserValue()(t).value)..]
    {
      TrackParserResumes(t);
    }
  }

  /** An accepted track resumes `block_size` bytes on. */
  lemma TrackParserResumes(s: seq<bv8>)
    requires TrackParser(s).Done?
    ensures TrackParser(s).value.header.blockSize <= |s|
    ensures TrackParser(s).rest == s[TrackParser(s).value.header.blockSize..]
  {
  }
}
