/** The older single-file STX parser (stx.rs). Its headers, sanity checks
    and CRC are those of the stx/ modules and are shared with them here;
    what differs is the byte-wise boot-sector sum and a track parser that
    stops after the sector headers. */
module StxLegacy {
  import opened Parsing
  import opened StxSector
  import opened StxTrack
  import StxDisk

  // ---------------------------------------------------------------------
  // Boot sector sum
  // ---------------------------------------------------------------------

  /** The sum of the bytes, as a mathematical integer. */
  function ByteSum(s: seq<bv8>): nat {
    if s == [] then 0 else ByteSum(s[..|s| - 1]) + s[|s| - 1] as nat
  }

  /** Each byte adds at most 255. */
  lemma {:induction false} ByteSumBound(s: seq<bv8>)
    ensures ByteSum(s) <= 255 * |s|
    decreases |s|
  {
    if s != [] {
      ByteSumBound(s[..|s| - 1]);
    }
  }

  /** The bytes the sum looks at: the first 256, or all of a shorter input. */
  function BootPrefix(data: seq<bv8>): (p: seq<bv8>)
    ensures |p| <= 256 && p <= data
    ensures |p| == 256 || p == data
  {
    if |data| < 256 then data else data[..256]
  }

  /** `calculate_boot_sector_sum` (stx.rs:522-533): a `u16` sum over at
      most 256 bytes, compared with 0x1234. The sum never exceeds
      256 * 255 = 65280, so the `u16` addition never overflows. */
  method CalculateBootSectorSum(data: seq<bv8>) returns (r: bool)
    ensures r <==> ByteSum(BootPrefix(data)) == 0x1234
  {
    var n := if |data| < 256 then |data| else 256;
    var sum: u16 := 0;
    for k := 0 to n
      invariant sum == ByteSum(data[..k])
    {
      assert data[..k + 1][..k] == data[..k];
      ByteSumBound(data[..k + 1]);
      sum := sum + data[k] as int;
    }
    assert data[..n] == BootPrefix(data);
    r := sum == 0x1234;
  }

  /** A sector starting 0x12, 0x34 and then zeros has byte sum 0x46 over
      any prefix of two bytes or more. */
  lemma {:induction false} ByteSumOfHeadAndZeros(s: seq<bv8>, k: nat)
    requires 2 <= k <= |s| && s[0] == 0x12 && s[1] == 0x34
    requires forall j :: 2 <= j < |s| ==> s[j] == 0
    ensures ByteSum(s[..k]) == 0x46
    decreases k
  {
    assert s[..k][..k - 1] == s[..k - 1];
    if k == 2 {
      assert s[..1][..0] == [];
      assert ByteSum(s[..1]) == 0x12;
      assert s[..2][1] == 0x34;
    } else {
      ByteSumOfHeadAndZeros(s, k - 1);
    }
  }

  /** The two checksums disagree: the boot sector that the word-wise sum of
      sector.rs accepts (its own unit test) is refused by the byte-wise sum
      of stx.rs. */
  lemma ByteAndWordSumsDisagree(s: seq<bv8>)
    requires |s| == 512 && s[0] == 0x12 && s[1] == 0x34
    requires forall k :: 2 <= k < 512 ==> s[k] == 0
    ensures Sum(WordsOf(s)) % 0xFFFF == 0x1234
    ensures ByteSum(BootPrefix(s)) == 0x46
  {
    BootSectorExample(s);
    ByteSumOfHeadAndZeros(s, 256);
  }

  // ---------------------------------------------------------------------
  // Tracks without sector data
  // ---------------------------------------------------------------------

  /** `STXTrack` of stx.rs: the header and the sector headers only. */
  datatype LegacyTrack = LegacyTrack(header: TrackHeader, sectorHeaders: Option<seq<SectorHeader>>)

  /** The sector-block branch of stx.rs:611-658: the sector headers, the
      fuzzy mask and the track-image header; the sector data is not read. */
  function LegacySectorBlocks(n: nat, fuzzySize: u32, flags: u16, i: seq<bv8>): Outcome<Option<seq<SectorHeader>>> {
    var (j, headers) :- Count(SectorHeaderParserValue(), n, i);
    var (k, _) :- Take(j, fuzzySize);
    var (m, _) :- TrackImageHeaderParser(flags, k);
    Done(m, Some(headers))
  }

  /** What the legacy track parser reads after the header
      (stx.rs:595-661). */
  function LegacyTrackBody(h: TrackHeader, i: seq<bv8>): Outcome<Option<seq<SectorHeader>>> {
    if !HasBit(h.flags, 0x01) then
      if h.sectorsCount > 0 then
        var (j, _) :- PlainSectors(h.sectorsCount, i);
        Done(j, None)
      else Done(i, None)
    else if h.fuzzySize > 0 then Fail(Panic)
    else if h.sectorsCount > 0 then LegacySectorBlocks(h.sectorsCount, h.fuzzySize, h.flags, i)
    else Done(i, None)
  }

  /** `stx_track_parser` of stx.rs (stx.rs:581-673): as in track.rs, the
      next record starts `block_size` bytes from the start of this one. */
  function LegacyTrackParser(s: seq<bv8>): Outcome<LegacyTrack> {
    var (i, h) :- TrackHeaderParser(s);
    if !StxTrack.Check(h) then Fail(Panic)
    else
      var (_, headers) :- LegacyTrackBody(h, i);
      var (next, _) :- Take(s, h.blockSize);
      Done(next, LegacyTrack(h, headers))
  }

  /** What the legacy parser keeps of a track. */
  function Forget(t: Track): LegacyTrack {
    LegacyTrack(t.header, t.sectorHeaders)
  }

  /** Every track the stx/ parser accepts, the legacy parser accepts too,
      resuming at the same place with the same header and sector headers. */
  lemma TrackParserRefinesLegacy(s: seq<bv8>)
    requires TrackParser(s).Done?
    ensures LegacyTrackParser(s) == Done(TrackParser(s).rest, Forget(TrackParser(s).value))
  {
    var (i, h) := (TrackHeaderParser(s).rest, TrackHeaderParser(s).value);
    var body := TrackBody(h, i);
    if HasBit(h.flags, 0x01) && h.fuzzySize == 0 && h.sectorsCount > 0 {
      SectorBlocksDone(h.sectorsCount, h.fuzzySize, h.flags, i);
    }
  }

  function LegacyTrackParserValue(): seq<bv8> -> Outcome<LegacyTrack> {
    t => LegacyTrackParser(t)
  }

  /** `stx_tracks_parser` of stx.rs (stx.rs:675-679). */
  function LegacyTracksParser(n: nat, s: seq<bv8>): (r: Outcome<seq<LegacyTrack>>)
    ensures r.Done? ==> |r.value| == n
  {
    Count(LegacyTrackParserValue(), n, s)
  }

  /** The track sequences agree wherever the stx/ parser succeeds. */
  lemma TracksParserRefinesLegacy(n: nat, s: seq<bv8>)
    requires TracksParser(n, s).Done?
    ensures LegacyTracksParser(n, s).Done? && LegacyTracksParser(n, s).rest == TracksParser(n, s).rest
    ensures forall k :: 0 <= k < n ==> LegacyTracksParser(n, s).value[k] == Forget(TracksParser(n, s).value[k])
  {
    forall t | TrackParserValue()(t).Done?
      ensures LegacyTrackParserValue()(t) == Done(TrackParserValue()(t).rest, Forget(TrackParserValue()(t).value))
    {
      TrackParserRefinesLegacy(t);
    }
    CountProjects(TrackParserValue(), LegacyTrackParserValue(), (t: Track) => Forget(t), n, s);
  }

  /** `STXDisk` of stx.rs. */
  datatype LegacyDisk = LegacyDisk(header: StxDisk.DiskHeader, tracks: seq<LegacyTrack>)

  /** `stx_disk_parser` of stx.rs (stx.rs:441-459). */
  function LegacyDiskParser(s: seq<bv8>): Outcome<LegacyDisk> {
    var (i, header) :- StxDisk.DiskHeaderParser(s);
    if !StxDisk.Check(header) then Fail(Panic)
    else
      var (i, tracks) :- LegacyTracksParser(header.trackCount as nat, i);
      Done(i, LegacyDisk(header, tracks))
  }

  /** Every disk the stx/ parser accepts, the legacy parser accepts with
      the same header, the same number of tracks and the same sector
      headers. */
  lemma DiskParserRefinesLegacy(s: seq<bv8>)
    requires StxDisk.DiskParser(s).Done?
    ensures LegacyDiskParser(s).Done? && LegacyDiskParser(s).rest == StxDisk.DiskParser(s).rest
    ensures var d, l := StxDisk.DiskParser(s).value, LegacyDiskParser(s).value;
      l.header == d.header && |l.tracks| == |d.tracks| &&
      forall k :: 0 <= k < |d.tracks| ==> l.tracks[k] == Forget(d.tracks[k])
  {
    var (i, header) := (StxDisk.DiskHeaderParser(s).rest, StxDisk.DiskHeaderParser(s).value);
    TracksParserRefinesLegacy(header.trackCount as nat, i);
  }
}
