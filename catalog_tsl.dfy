/** Apple DOS 3.3 track/sector lists: the sector that lists, pair by pair,
    where a file's data sectors are, and points at the next such list. */
module AppleTrackSectorList {
  import opened Parsing

  datatype TrackSectorPair = TrackSectorPair(track: bv8, sector: bv8)

  /** `parse_track_sector_pair`: two bytes, track first. */
  function ParseTrackSectorPair(s: seq<bv8>): (r: Outcome<TrackSectorPair>)
    ensures r.Done? <==> 2 <= |s|
    ensures r.Done? ==> r.rest == s[2..] && r.value == TrackSectorPair(s[0], s[1])
    ensures r.Fail? ==> r.failure == Error
  {
    var (i1, track) :- U8(s);
    var (i2, sector) :- U8(i1);
    Done(i2, TrackSectorPair(track, sector))
  }

  /** `TrackSectorPairs::as_vec`: each pair as its two bytes, in order. */
  function PairsBytes(ps: seq<TrackSectorPair>): (r: seq<bv8>)
    ensures |r| == 2 * |ps|
  {
    if ps == [] then [] else [ps[0].track, ps[0].sector] + PairsBytes(ps[1..])
  }

  lemma {:induction false} PairsBytesSnoc(ps: seq<TrackSectorPair>, p: TrackSectorPair)
    ensures PairsBytes(ps + [p]) == PairsBytes(ps) + [p.track, p.sector]
  {
    if ps != [] {
      assert (ps + [p])[1..] == ps[1..] + [p];
      PairsBytesSnoc(ps[1..], p);
    }
  }

  datatype TrackSectorList = TrackSectorList(
    reserved: bv8,
    nextTrack: Option<bv8>,     // track of the next list, None when the byte is 0
    nextSector: Option<bv8>,    // sector of the next list, None when the byte is 0
    reserved2: seq<bv8>,        // 2 bytes
    sectorOffset: seq<bv8>,     // 2 bytes: offset in the file of the first sector listed
    reserved3: seq<bv8>,        // 5 bytes
    pairs: seq<TrackSectorPair>)

  /** A pointer byte as the parser stores it: 0 means no pointer. */
  function Pointer(b: bv8): (o: Option<bv8>)
    ensures o.None? <==> b == 0
    ensures o.Some? ==> o.value == b
  {
    if b != 0 then Some(b) else None
  }

  /** A pointer as `as_vec` writes it: no pointer is 0. */
  function PointerByte(o: Option<bv8>): bv8 {
    if o.Some? then o.value else 0
  }

  lemma PointerRoundTrip(o: Option<bv8>)
    requires o != Some(0)
    ensures Pointer(PointerByte(o)) == o
  {
  }

  /** `TrackSectorList::as_vec`: the twelve header bytes, then the pairs. */
  function TrackSectorListBytes(l: TrackSectorList): (r: seq<bv8>)
    ensures |r| == 3 + |l.reserved2| + |l.sectorOffset| + |l.reserved3| + 2 * |l.pairs|
  {
    [l.reserved, PointerByte(l.nextTrack), PointerByte(l.nextSector)]
    + l.reserved2 + l.sectorOffset + l.reserved3 + PairsBytes(l.pairs)
  }

  /** `TrackSectorList::as_vec` as the source writes it: push the header,
      append the slices, then the bytes of every pair. */
  method TrackSectorListAsVec(l: TrackSectorList) returns (r: Result<seq<bv8>>)
    ensures r == Ok(TrackSectorListBytes(l))
  {
    var bytes: seq<bv8> := [l.reserved];
    if l.nextTrack.Some? {
      bytes := bytes + [l.nextTrack.value];
    } else {
      bytes := bytes + [0];
    }
    if l.nextSector.Some? {
      bytes := bytes + [l.nextSector.value];
    } else {
      bytes := bytes + [0];
    }
    bytes := bytes + l.reserved2 + l.sectorOffset + l.reserved3;
    var pairBytes: seq<bv8> := [];
    for i := 0 to |l.pairs|
      invariant pairBytes == PairsBytes(l.pairs[..i])
    {
      PairsBytesSnoc(l.pairs[..i], l.pairs[i]);
      assert l.pairs[..i + 1] == l.pairs[..i] + [l.pairs[i]];
      pairBytes := pairBytes + [l.pairs[i].track, l.pairs[i].sector];
    }
    assert l.pairs[..|l.pairs|] == l.pairs;
    assert bytes == [l.reserved, PointerByte(l.nextTrack), PointerByte(l.nextSector)]
      + l.reserved2 + l.sectorOffset + l.reserved3;
    return Ok(bytes + pairBytes);
  }

  /** At most this many pairs are collected. */
  const MAX_TSPS: nat := 121

  /** The collecting loop of `parse_track_sector_list`, from the point where
      `current` has been read and `cnt` is the loop counter: while the
      current pair's track is nonzero and `cnt <= 121`, keep the current
      pair and read the next one.  The pair that stops the loop has been
      read but is not kept. */
  function PairsFrom(s: seq<bv8>, current: TrackSectorPair, cnt: nat): (r: Outcome<seq<TrackSectorPair>>)
    ensures r.Fail? ==> r.failure == Error
    decreases MAX_TSPS + 1 - cnt
  {
    if current.track != 0 && cnt <= MAX_TSPS then
      if |s| < 2 then Fail(Error)
      else
        var more := PairsFrom(s[2..], TrackSectorPair(s[0], s[1]), cnt + 1);
        if more.Fail? then more else Done(more.rest, [current] + more.value)
    else Done(s, [])
  }

  /** `parse_track_sector_list`: the twelve header bytes (the reserved
      byte, the two next-list pointers, where 0 becomes `None`, and the 2-,
      2- and 5-byte fields), the first pair, then the collecting loop.  The
      header and the first pair are read with complete parsers, so input
      shorter than 14 bytes is a plain error. */
  function ParsedTrackSectorList(s: seq<bv8>): (r: Outcome<TrackSectorList>)
    ensures r.Fail? ==> r.failure == Error
  {
    if |s| < 14 then Fail(Error)
    else
      var (rest, pairs) :- PairsFrom(s[14..], TrackSectorPair(s[12], s[13]), 1);
      Done(rest, TrackSectorList(s[0], Pointer(s[1]), Pointer(s[2]), s[3..5], s[5..7], s[7..12], pairs))
  }

  /** The pairs already kept, put in front of what the rest of the loop keeps. */
  function Prepend(kept: seq<TrackSectorPair>, r: Outcome<seq<TrackSectorPair>>): Outcome<seq<TrackSectorPair>> {
    if r.Done? then Done(r.rest, kept + r.value) else r
  }

  lemma PrependNothing(r: Outcome<seq<TrackSectorPair>>)
    ensures Prepend([], r) == r
  {
    if r.Done? {
      assert [] + r.value == r.value;
    }
  }

  lemma PrependTwice(a: seq<TrackSectorPair>, b: seq<TrackSectorPair>, r: Outcome<seq<TrackSectorPair>>)
    ensures Prepend(a, Prepend(b, r)) == Prepend(a + b, r)
  {
    if r.Done? {
      assert a + (b + r.value) == a + b + r.value;
    }
  }

  /** `parse_track_sector_list` as the source writes it, with its mutable
      input position, current pair and counter. */
  method ParseTrackSectorList(s: seq<bv8>) returns (r: Outcome<TrackSectorList>)
    ensures r == ParsedTrackSectorList(s)
  {
    if |s| < 14 {
      return Fail(Error);
    }
    var reserved, nextTrack, nextSector := s[0], Pointer(s[1]), Pointer(s[2]);
    var reserved2, sectorOffset, reserved3 := s[3..5], s[5..7], s[7..12];
    var pairs: seq<TrackSectorPair> := [];
    var i := s[14..];
    var pair := TrackSectorPair(s[12], s[13]);
    var cnt := 1;
    PrependNothing(PairsFrom(i, pair, cnt));
    while pair.track != 0 && cnt <= MAX_TSPS
      invariant 1 <= cnt <= MAX_TSPS + 1
      invariant PairsFrom(s[14..], TrackSectorPair(s[12], s[13]), 1) == Prepend(pairs, PairsFrom(i, pair, cnt))
      decreases MAX_TSPS + 1 - cnt
    {
      var next := ParseTrackSectorPair(i);
      if next.Fail? {
        return Fail(Error);
      }
      PrependTwice(pairs, [pair], PairsFrom(next.rest, next.value, cnt + 1));
      pairs := pairs + [pair];
      pair := next.value;
      i := next.rest;
      cnt := cnt + 1;
    }
    assert PairsFrom(i, pair, cnt) == Done(i, []);
    assert pairs + [] == pairs;
    return Done(i, TrackSectorList(reserved, nextTrack, nextSector, reserved2, sectorOffset, reserved3, pairs));
  }

  /** What the collecting loop consumes: one pair read per pair kept after
      `current`, and no more than the counter allows. */
  lemma {:induction false} PairsFromLength(s: seq<bv8>, current: TrackSectorPair, cnt: nat)
    requires 1 <= cnt <= MAX_TSPS + 1 && PairsFrom(s, current, cnt).Done?
    ensures |PairsFrom(s, current, cnt).value| <= MAX_TSPS + 1 - cnt
    ensures 2 * |PairsFrom(s, current, cnt).value| <= |s|
    ensures PairsFrom(s, current, cnt).rest == s[2 * |PairsFrom(s, current, cnt).value|..]
    decreases MAX_TSPS + 1 - cnt
  {
    if current.track != 0 && cnt <= MAX_TSPS {
      var i := s[2..];
      var next := TrackSectorPair(s[0], s[1]);
      PairsFromLength(i, next, cnt + 1);
      var more := PairsFrom(i, next, cnt + 1);
      assert |PairsFrom(s, current, cnt).value| == 1 + |more.value|;
      assert i[2 * |more.value|..] == s[2 + 2 * |more.value|..];
    }
  }

  /** What the collecting loop keeps: `current` first, then the pairs read
      from `s` in order, all with nonzero tracks. */
  lemma {:induction false} PairsFromValues(s: seq<bv8>, current: TrackSectorPair, cnt: nat)
    requires 1 <= cnt <= MAX_TSPS + 1 && PairsFrom(s, current, cnt).Done?
    ensures var v := PairsFrom(s, current, cnt).value;
      && 2 * |v| <= |s|
      && (forall k :: 0 <= k < |v| ==> v[k].track != 0)
      && (|v| > 0 ==> v[0] == current)
      && (forall k :: 1 <= k < |v| ==> v[k] == TrackSectorPair(s[2 * k - 2], s[2 * k - 1]))
    decreases MAX_TSPS + 1 - cnt
  {
    PairsFromLength(s, current, cnt);
    if current.track != 0 && cnt <= MAX_TSPS {
      var i := s[2..];
      var next := TrackSectorPair(s[0], s[1]);
      PairsFromValues(i, next, cnt + 1);
      var more := PairsFrom(i, next, cnt + 1).value;
      var v := [current] + more;
      assert PairsFrom(s, current, cnt).value == v;
      forall k | 1 <= k < |v|
        ensures v[k] == TrackSectorPair(s[2 * k - 2], s[2 * k - 1])
      {
        if k > 1 {
          assert v[k] == more[k - 1];
          assert i[2 * (k - 1) - 2] == s[2 * k - 2];
        }
      }
    }
  }

  /** Why the collecting loop stopped: on a pair with track 0, unless the
      counter ran out. */
  lemma {:induction false} PairsFromEnd(s: seq<bv8>, current: TrackSectorPair, cnt: nat)
    requires 1 <= cnt <= MAX_TSPS + 1 && PairsFrom(s, current, cnt).Done?
    ensures var n := |PairsFrom(s, current, cnt).value|;
      && 2 * n <= |s|
      && (n == 0 ==> current.track == 0 || cnt > MAX_TSPS)
      && (n > 0 && cnt + n <= MAX_TSPS ==> s[2 * n - 2] == 0)
    decreases MAX_TSPS + 1 - cnt
  {
    PairsFromLength(s, current, cnt);
    if current.track != 0 && cnt <= MAX_TSPS {
      var i := s[2..];
      var next := TrackSectorPair(s[0], s[1]);
      PairsFromEnd(i, next, cnt + 1);
      var m := |PairsFrom(i, next, cnt + 1).value|;
      assert |PairsFrom(s, current, cnt).value| == 1 + m;
      if m > 0 && cnt + 1 + m <= MAX_TSPS {
        assert i[2 * m - 2] == s[2 * m];
      }
    }
  }

  /** The layout `parse_track_sector_list` accepts: at most 121 pairs are
      kept, all with nonzero tracks, pair `k` is read at offset 12 + 2k, one
      more pair is consumed after the kept ones, and unless 121 pairs were
      kept that extra pair has track 0. */
  lemma ParsedTrackSectorListShape(s: seq<bv8>)
    requires ParsedTrackSectorList(s).Done?
    ensures var r := ParsedTrackSectorList(s); var n := |r.value.pairs|;
      && n <= MAX_TSPS
      && 14 + 2 * n <= |s| && r.rest == s[14 + 2 * n..]
      && r.value.nextTrack == Pointer(s[1]) && r.value.nextSector == Pointer(s[2])
      && (forall k :: 0 <= k < n ==> r.value.pairs[k] == TrackSectorPair(s[12 + 2 * k], s[13 + 2 * k]))
      && (forall k :: 0 <= k < n ==> r.value.pairs[k].track != 0)
      && (n < MAX_TSPS ==> s[12 + 2 * n] == 0)
  {
    var p := FirstPairs(s);
    assert ParsedTrackSectorList(s) == Done(p.rest, TrackSectorList(s[0], Pointer(s[1]), Pointer(s[2]),
                                                                     s[3..5], s[5..7], s[7..12], p.value)) by {
      assert |s| >= 14;
    }
    FirstPairsLength(s);
    FirstPairsValues(s);
    if |p.value| < MAX_TSPS {
      FirstPairsEnd(s);
    }
  }

  /** The collecting loop started on the first pair of a list sector. */
  function FirstPairs(s: seq<bv8>): Outcome<seq<TrackSectorPair>>
    requires 14 <= |s|
  {
    PairsFrom(s[14..], TrackSectorPair(s[12], s[13]), 1)
  }

  /** It keeps at most 121 pairs, two bytes each, and stops after them. */
  lemma FirstPairsLength(s: seq<bv8>)
    requires 14 <= |s| && FirstPairs(s).Done?
    ensures |FirstPairs(s).value| <= MAX_TSPS
    ensures 14 + 2 * |FirstPairs(s).value| <= |s| && FirstPairs(s).rest == s[14 + 2 * |FirstPairs(s).value|..]
  {
    var i := s[14..];
    var p := FirstPairs(s);
    PairsFromLength(i, TrackSectorPair(s[12], s[13]), 1);
    assert i[2 * |p.value|..] == s[14 + 2 * |p.value|..];
  }

  /** Pair `k` is read at offset 12 + 2k and has a nonzero track. */
  lemma FirstPairsValues(s: seq<bv8>)
    requires 14 <= |s| && FirstPairs(s).Done?
    ensures forall k :: 0 <= k < |FirstPairs(s).value| ==>
      14 + 2 * k <= |s| && FirstPairs(s).value[k] == TrackSectorPair(s[12 + 2 * k], s[13 + 2 * k])
    ensures forall k :: 0 <= k < |FirstPairs(s).value| ==> FirstPairs(s).value[k].track != 0
  {
    forall k | 0 <= k < |FirstPairs(s).value|
      ensures 14 + 2 * k <= |s| && FirstPairs(s).value[k] == TrackSectorPair(s[12 + 2 * k], s[13 + 2 * k])
      ensures FirstPairs(s).value[k].track != 0
    {
      FirstPairAt(s, k);
    }
  }

  lemma FirstPairAt(s: seq<bv8>, k: nat)
    requires 14 <= |s| && FirstPairs(s).Done? && k < |FirstPairs(s).value|
    ensures 14 + 2 * k <= |s| && FirstPairs(s).value[k] == TrackSectorPair(s[12 + 2 * k], s[13 + 2 * k])
    ensures FirstPairs(s).value[k].track != 0
  {
    var i := s[14..];
    PairsFromValues(i, TrackSectorPair(s[12], s[13]), 1);
    if k > 0 {
      assert i[2 * k - 2] == s[12 + 2 * k] && i[2 * k - 1] == s[13 + 2 * k];
    }
  }

  /** Unless 121 pairs were kept, the loop stopped on a zero track. */
  lemma FirstPairsEnd(s: seq<bv8>)
    requires 14 <= |s| && FirstPairs(s).Done? && |FirstPairs(s).value| < MAX_TSPS
    ensures 14 + 2 * |FirstPairs(s).value| <= |s| && s[12 + 2 * |FirstPairs(s).value|] == 0
  {
    var i := s[14..];
    var n := |FirstPairs(s).value|;
    PairsFromEnd(i, TrackSectorPair(s[12], s[13]), 1);
    if 0 < n {
      assert i[2 * n - 2] == s[12 + 2 * n];
    }
  }

  /** The loop reading back the bytes of `ps` after `current`, then a pair
      `[t, x]` that ends it: it keeps `current` and all of `ps` and stops
      after consuming `[t, x]`. */
  lemma {:induction false} PairsFromBytes(current: TrackSectorPair, ps: seq<TrackSectorPair>, cnt: nat,
                                          t: bv8, x: bv8, rest: seq<bv8>)
    requires 1 <= cnt && cnt + |ps| <= MAX_TSPS
    requires current.track != 0 && forall k :: 0 <= k < |ps| ==> ps[k].track != 0
    requires t == 0 || cnt + |ps| == MAX_TSPS
    ensures PairsFrom(PairsBytes(ps) + [t, x] + rest, current, cnt) == Done(rest, [current] + ps)
    decreases |ps|
  {
    var s := PairsBytes(ps) + [t, x] + rest;
    if ps == [] {
      assert s == [t, x] + rest;
      assert s[2..] == rest;
    } else {
      assert s == [ps[0].track, ps[0].sector] + (PairsBytes(ps[1..]) + [t, x] + rest);
      PairsFromBytes(ps[0], ps[1..], cnt + 1, t, x, rest);
      assert [current] + ([ps[0]] + ps[1..]) == [current] + ps;
    }
  }

  /** A list `as_vec` can write and `parse_track_sector_list` reads back:
      the fixed fields have their sizes, the pointers are not `Some(0)`,
      and there are at most 121 pairs, all with nonzero tracks. */
  predicate Storable(l: TrackSectorList) {
    && |l.reserved2| == 2 && |l.sectorOffset| == 2 && |l.reserved3| == 5
    && l.nextTrack != Some(0) && l.nextSector != Some(0)
    && |l.pairs| <= MAX_TSPS
    && forall k :: 0 <= k < |l.pairs| ==> l.pairs[k].track != 0
  }

  /** Reading back what `as_vec` wrote, followed by a pair that ends the
      list (a zero track, or any pair once 121 are kept), gives the list. */
  lemma TrackSectorListRoundTrip(l: TrackSectorList, t: bv8, x: bv8, rest: seq<bv8>)
    requires Storable(l)
    requires t == 0 || |l.pairs| == MAX_TSPS
    ensures ParsedTrackSectorList(TrackSectorListBytes(l) + [t, x] + rest) == Done(rest, l)
  {
    var header := [l.reserved, PointerByte(l.nextTrack), PointerByte(l.nextSector)]
      + l.reserved2 + l.sectorOffset + l.reserved3;
    var body := PairsBytes(l.pairs) + [t, x] + rest;
    var s := TrackSectorListBytes(l) + [t, x] + rest;
    assert s[..12] == header && s[12..] == body by {
      assert s == header + body;
    }
    assert s[3..5] == l.reserved2 && s[5..7] == l.sectorOffset && s[7..12] == l.reserved3 by {
      assert s[..12][3..5] == s[3..5] && s[..12][5..7] == s[5..7] && s[..12][7..12] == s[7..12];
    }
    PointerRoundTrip(l.nextTrack);
    PointerRoundTrip(l.nextSector);
    assert PairsFrom(s[14..], TrackSectorPair(s[12], s[13]), 1) == Done(rest, l.pairs) by {
      PairsOfBody(l.pairs, t, x, rest);
      assert s[12..][2..] == s[14..];
    }
  }

  /** The pairs written after the header, followed by the ending pair,
      read back as the list's pairs. */
  lemma PairsOfBody(pairs: seq<TrackSectorPair>, t: bv8, x: bv8, rest: seq<bv8>)
    requires |pairs| <= MAX_TSPS && forall k :: 0 <= k < |pairs| ==> pairs[k].track != 0
    requires t == 0 || |pairs| == MAX_TSPS
    ensures var body := PairsBytes(pairs) + [t, x] + rest;
      2 <= |body| && PairsFrom(body[2..], TrackSectorPair(body[0], body[1]), 1) == Done(rest, pairs)
  {
    var body := PairsBytes(pairs) + [t, x] + rest;
    if pairs == [] {
      assert body == [t, x] + rest;
    } else {
      var ps := pairs[1..];
      var head: seq<bv8> := [pairs[0].track, pairs[0].sector];
      assert PairsBytes(pairs) == head + PairsBytes(ps);
      ConcatAssoc(head, PairsBytes(ps), [t, x], rest);
      PairsFromBytes(pairs[0], ps, 1, t, x, rest);
      assert body[2..] == PairsBytes(ps) + [t, x] + rest;
      assert [pairs[0]] + ps == pairs;
    }
  }

  /** The serialisation tests: a list with no pair is 12 bytes, and with
      pairs (0x12, 0x34) and (0x56, 0x78) 16 bytes, pointers written as 0. */
  lemma TrackSectorListBytesExamples()
    ensures TrackSectorListBytes(TrackSectorList(0x01, None, None, [0x02, 0x03], [0x04, 0x05],
                                                 [0x06, 0x07, 0x08, 0x09, 0x10], []))
         == [0x01, 0x00, 0x00, 0x02, 0x03, 0x04, 0x05, 0x06, 0x07, 0x08, 0x09, 0x10]
    ensures TrackSectorListBytes(TrackSectorList(0x01, None, None, [0x02, 0x03], [0x04, 0x05],
                                                 [0x06, 0x07, 0x08, 0x09, 0x10],
                                                 [TrackSectorPair(0x12, 0x34), TrackSectorPair(0x56, 0x78)]))
         == [0x01, 0x00, 0x00, 0x02, 0x03, 0x04, 0x05, 0x06, 0x07, 0x08, 0x09, 0x10,
             0x12, 0x34, 0x56, 0x78]
  {
    var ps := [TrackSectorPair(0x12, 0x34), TrackSectorPair(0x56, 0x78)];
    assert PairsBytes(ps) == [0x12, 0x34, 0x56, 0x78];
  }

  /** With two bytes per remaining loop pass available, the collecting loop
      cannot run out of input. */
  lemma {:induction false} PairsFromTotal(s: seq<bv8>, current: TrackSectorPair, cnt: nat)
    requires 1 <= cnt <= MAX_TSPS + 1 && 2 * (MAX_TSPS + 1 - cnt) <= |s|
    ensures PairsFrom(s, current, cnt).Done?
    decreases MAX_TSPS + 1 - cnt
  {
    if current.track != 0 && cnt <= MAX_TSPS {
      PairsFromTotal(s[2..], TrackSectorPair(s[0], s[1]), cnt + 1);
    }
  }

  /** A track/sector list sector has room for 122 pairs (bytes 0x0C to
      0xFF), but the loop keeps at most 121: in a sector whose 122 slots all
      name a sector, as in every full list of a file longer than 121
      sectors, all 256 bytes are consumed but only 121 pairs are kept; the
      last slot is read and dropped, and its data sector never reaches the
      file. */
  lemma FullListDropsLastPair(s: seq<bv8>)
    requires |s| == 256
    requires forall k :: 0 <= k < 122 ==> s[12 + 2 * k] != 0
    ensures ParsedTrackSectorList(s).Done?
    ensures |ParsedTrackSectorList(s).value.pairs| == MAX_TSPS
    ensures ParsedTrackSectorList(s).rest == []
  {
    PairsFromTotal(s[14..], TrackSectorPair(s[12], s[13]), 1);
    ParsedTrackSectorListShape(s);
    var n := |ParsedTrackSectorList(s).value.pairs|;
    assert s[12 + 2 * n] != 0;
  }

  /** The pairs of a list sector's slots, up to the first with track 0 or
      the end of the `n` slots, without reading past either. */
  function ListedPairs(slots: seq<bv8>, n: nat): (ps: seq<TrackSectorPair>)
    ensures |ps| <= n
    ensures forall k :: 0 <= k < |ps| ==> ps[k].track != 0
  {
    if n == 0 || |slots| < 2 || slots[0] == 0 then []
    else [TrackSectorPair(slots[0], slots[1])] + ListedPairs(slots[2..], n - 1)
  }

  /** The number of pair slots in a 256-byte list sector. */
  const SLOTS: nat := 122

  /** The list a 256-byte sector holds: the twelve header bytes and every
      pair up to the first zero track, all 122 slots included. */
  function CorrectedTrackSectorList(s: seq<bv8>): (r: Outcome<TrackSectorList>)
    ensures r.Done? <==> 256 <= |s|
    ensures r.Done? ==> r.rest == s[256..] && |r.value.pairs| <= SLOTS
  {
    if |s| < 256 then Fail(Error)
    else Done(s[256..], TrackSectorList(s[0], Pointer(s[1]), Pointer(s[2]), s[3..5], s[5..7], s[7..12],
                                        ListedPairs(s[12..256], SLOTS)))
  }

  lemma {:induction false} ListedPairsOfBytes(ps: seq<TrackSectorPair>, n: nat, tail: seq<bv8>)
    requires |ps| <= n && forall k :: 0 <= k < |ps| ==> ps[k].track != 0
    requires |ps| < n ==> |tail| >= 2 && tail[0] == 0
    ensures ListedPairs(PairsBytes(ps) + tail, n) == ps
    decreases |ps|
  {
    if ps != [] {
      var head: seq<bv8> := [ps[0].track, ps[0].sector];
      assert PairsBytes(ps) + tail == head + (PairsBytes(ps[1..]) + tail);
      ListedPairsOfBytes(ps[1..], n - 1, tail);
      assert [ps[0]] + ps[1..] == ps;
    }
  }

  /** The corrected reading gives back every list `as_vec` writes, padded
      with zeros to a full sector, up to the 122 pairs a sector holds. */
  lemma CorrectedTrackSectorListRoundTrip(l: TrackSectorList)
    requires |l.reserved2| == 2 && |l.sectorOffset| == 2 && |l.reserved3| == 5
    requires l.nextTrack != Some(0) && l.nextSector != Some(0)
    requires |l.pairs| <= SLOTS && forall k :: 0 <= k < |l.pairs| ==> l.pairs[k].track != 0
    ensures CorrectedTrackSectorList(TrackSectorListBytes(l) + seq(244 - 2 * |l.pairs|, _ => 0))
         == Done([], l)
  {
    var zeros: seq<bv8> := seq(244 - 2 * |l.pairs|, _ => 0);
    var header := [l.reserved, PointerByte(l.nextTrack), PointerByte(l.nextSector)]
      + l.reserved2 + l.sectorOffset + l.reserved3;
    var s := TrackSectorListBytes(l) + zeros;
    assert s == header + (PairsBytes(l.pairs) + zeros);
    assert s[3..5] == l.reserved2 && s[5..7] == l.sectorOffset && s[7..12] == l.reserved3;
    assert s[12..256] == PairsBytes(l.pairs) + zeros;
    PointerRoundTrip(l.nextTrack);
    PointerRoundTrip(l.nextSector);
    ListedPairsOfBytes(l.pairs, SLOTS, zeros);
  }
}
