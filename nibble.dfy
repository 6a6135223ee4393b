/** The Apple II nibble encodings and the nibble-image parser
    (src/disk_format/apple/nibble.rs).

    A disk controller can only store bytes with the high bit set and no long
    runs of zero bits, so data is spread over several "disk bytes".  Address
    fields use the "4 and 4" encoding (one byte in two disk bytes, odd bits then
    even bits); data fields use "6 and 2" (256 bytes in 342 disk bytes plus a
    checksum byte), through the two tables below.
 */
module Nibble {
  import opened Parsing
  import opened NibbleTables

  // ---------------------------------------------------------------------------
  // 4 and 4

  /** `parse_nibble_byte_4_and_4` (nibble.rs:92-98): two disk bytes, odd bits
      then even bits, each padded with ones; the streaming `take` asks for more
      input when fewer than two bytes remain. */
  function ParseNibbleByte4And4(s: seq<bv8>): (r: Outcome<bv8>)
    ensures r.Done? <==> 2 <= |s|
    ensures r.Done? ==> r.rest == s[2..]
    ensures r.Fail? ==> r.failure == Incomplete
  {
    var (i, bytes) :- TakeStreaming(s, 2);
    Done(i, ((bytes[0] << 1) | 0x01) & bytes[1])
  }

  /** The split the encoding documents (nibble.rs:43-44):
      b7..b0 -> 1 . . . b7 b5 b3 b1, then 1 . . . b6 b4 b2 b0. */
  function Encode4And4(v: bv8): (r: seq<bv8>)
    ensures |r| == 2
  {
    [0xAA | (v >> 1), 0xAA | v]
  }

  /** Every encoded disk byte has the high bit set and alternating clock bits. */
  lemma FourAndFourDiskBytes(v: bv8)
    ensures Encode4And4(v)[0] & 0xAA == 0xAA && Encode4And4(v)[1] & 0xAA == 0xAA
  {
  }

  lemma FourAndFourBits(v: bv8)
    ensures (((0xAA | (v >> 1)) << 1) | 0x01) & (0xAA | v) == v
  {
  }

  /** Decoding undoes the odd/even split for every byte. */
  lemma FourAndFourRoundTrip(v: bv8, rest: seq<bv8>)
    ensures ParseNibbleByte4And4(Encode4And4(v) + rest) == Done(rest, v)
  {
    var s := Encode4And4(v) + rest;
    assert s[..2] == Encode4And4(v) && s[2..] == rest;
    FourAndFourBits(v);
  }

  /** The decoded values the unit tests expect (nibble.rs:549-618). */
  lemma FourAndFourExamples()
    ensures ParseNibbleByte4And4([0xFF, 0xFE]) == Done([], 0xFE)
    ensures ParseNibbleByte4And4([0xAB, 0xBF]) == Done([], 0x17)
    ensures ParseNibbleByte4And4([0xAA, 0xAF]) == Done([], 0x05)
    ensures ParseNibbleByte4And4([0xFE, 0xEE]) == Done([], 0xEC)
    ensures ParseNibbleByte4And4([0x00, 0x00]) == Done([], 0x00)
    ensures ParseNibbleByte4And4([0x00, 0x01]) == Done([], 0x01)
  {
  }

  // ---------------------------------------------------------------------------
  // Prologue search

  /** An address prologue starts at `k`: D5 AA, then 96 (DOS 3.3) or B5 (DOS 3.2). */
  predicate PrologueAt(s: seq<bv8>, k: int) {
    0 <= k && k + 3 <= |s| && s[k] == 0xD5 && s[k + 1] == 0xAA && (s[k + 2] == 0x96 || s[k + 2] == 0xB5)
  }

  /** The first prologue at or after `from`. */
  function FirstPrologue(s: seq<bv8>, from: nat): (r: Option<nat>)
    ensures r.Some? ==> from <= r.value && PrologueAt(s, r.value)
    ensures r.Some? ==> forall k :: from <= k < r.value ==> !PrologueAt(s, k)
    ensures r.None? ==> forall k :: from <= k ==> !PrologueAt(s, k)
    decreases |s| - from
  {
    if from + 3 > |s| then None
    else if PrologueAt(s, from) then Some(from)
    else FirstPrologue(s, from + 1)
  }

  /** What `parse_prologue` promises: the input after the first prologue, with
      the input from that prologue on as the value; no prologue at all leaves
      the streaming search asking for more input. */
  function Prologue(s: seq<bv8>): Outcome<seq<bv8>> {
    match FirstPrologue(s, 0)
    case Some(k) => Done(s[k + 3..], s[k..])
    case None => Fail(Incomplete)
  }

  lemma PrologueMeaning(s: seq<bv8>)
    ensures var r := Prologue(s);
      (r.Done? <==> exists k :: PrologueAt(s, k)) &&
      (r.Done? ==> PrologueAt(s, |s| - |r.value|) && r.value[3..] == r.rest) &&
      (r.Done? ==> IsSuffix(r.value, s) && forall k :: 0 <= k < |s| - |r.value| ==> !PrologueAt(s, k)) &&
      (r.Fail? ==> r.failure == Incomplete)
  {
  }

  /** `parse_prologue` (nibble.rs:114-137): search for D5 AA; if the next byte
      is 96 or B5 stop, otherwise search again from the byte after AA. */
  method ParsePrologue(s: seq<bv8>) returns (r: Outcome<seq<bv8>>)
    ensures r == Prologue(s)
  {
    var pos := 0;
    while true
      invariant 0 <= pos <= |s|
      invariant forall k :: 0 <= k < pos ==> !PrologueAt(s, k)
      decreases |s| - pos
    {
      var newI := s[pos..];
      var found := TakeUntil(newI, [0xD5, 0xAA]);
      PairSearch(s, pos);
      if found.Fail? {
        PrologueMissing(s, pos);
        return Fail(Incomplete);
      }
      var q := pos + |found.value|;
      var i := found.rest;
      PrologueAfterPair(s, pos, q);
      newI := i[2..];
      assert newI == s[q + 2..];
      if |newI| > 0 && (newI[0] == 0x96 || newI[0] == 0xB5) {
        assert s[q + 2] == newI[0] && newI[1..] == s[q + 3..];
        return Done(newI[1..], i);
      }
      pos := q + 2;
    }
  }

  /** No prologue before `pos` and none from there on: the parse asks for
      more input. */
  lemma PrologueMissing(s: seq<bv8>, pos: nat)
    requires forall k :: 0 <= k < pos ==> !PrologueAt(s, k)
    requires forall k :: pos <= k ==> !PrologueAt(s, k)
    ensures Prologue(s) == Fail(Incomplete)
  {
    assert FirstPrologue(s, 0).None?;
  }

  /** A D5 AA pair at `q` with no prologue before it: it is the first
      prologue when the next byte is 96 or B5, and otherwise there is no
      prologue before `q + 2`. */
  lemma PrologueAfterPair(s: seq<bv8>, pos: nat, q: nat)
    requires q + 2 <= |s| && s[q] == 0xD5 && s[q + 1] == 0xAA
    requires forall k :: 0 <= k < pos ==> !PrologueAt(s, k)
    requires forall k :: pos <= k < q ==> !PrologueAt(s, k)
    ensures if q + 2 < |s| && (s[q + 2] == 0x96 || s[q + 2] == 0xB5)
      then Prologue(s) == Done(s[q + 3..], s[q..])
      else forall k :: 0 <= k < q + 2 ==> !PrologueAt(s, k)
  {
    if q + 2 < |s| && (s[q + 2] == 0x96 || s[q + 2] == 0xB5) {
      assert PrologueAt(s, q);
      assert FirstPrologue(s, 0) == Some(q);
    }
  }

  /** One search for D5 AA from `pos`: a failure means no prologue from
      there on; a success stops at the first pair, before which there is no
      prologue. */
  lemma PairSearch(s: seq<bv8>, pos: nat)
    requires pos <= |s|
    ensures var found := TakeUntil(s[pos..], [0xD5, 0xAA]);
      (found.Fail? ==> forall k :: pos <= k ==> !PrologueAt(s, k)) &&
      (found.Done? ==>
        var q := pos + |found.value|;
        q + 2 <= |s| && s[q] == 0xD5 && s[q + 1] == 0xAA && found.rest == s[q..] &&
        forall k :: pos <= k < q ==> !PrologueAt(s, k))
  {
    var newI := s[pos..];
    var found := TakeUntil(newI, [0xD5, 0xAA]);
    if found.Fail? {
      forall k | pos <= k && PrologueAt(s, k) ensures false {
        assert OccursAt(newI, [0xD5, 0xAA], k - pos);
      }
    } else {
      var q := pos + |found.value|;
      forall k | pos <= k < q && PrologueAt(s, k) ensures false {
        assert OccursAt(newI, [0xD5, 0xAA], k - pos);
      }
      PairAt(newI, |found.value|);
      assert newI[q - pos] == s[q] && newI[q - pos + 1] == s[q + 1];
    }
  }

  lemma PairAt(t: seq<bv8>, j: int)
    requires OccursAt(t, [0xD5, 0xAA], j)
    ensures j + 2 <= |t| && t[j] == 0xD5 && t[j + 1] == 0xAA
  {
    assert t[j..j + 2][0] == t[j] && t[j..j + 2][1] == t[j + 1];
  }

  /** `recognize_prologue` (nibble.rs:141-148): the third byte of the first
      prologue, which tells DOS 3.3 (96) from DOS 3.2 (B5). */
  function RecognizePrologue(s: seq<bv8>): (r: Option<bv8>)
    ensures r.Some? <==> exists k :: PrologueAt(s, k)
    ensures r.Some? ==> r.value == 0x96 || r.value == 0xB5
    ensures r.Some? ==> FirstPrologue(s, 0).Some? && r.value == s[FirstPrologue(s, 0).value + 2]
  {
    PrologueMeaning(s);
    match Prologue(s)
    case Done(_, p) => Some(p[2])
    case Fail(_) => None
  }

  /** The prologue unit tests that find one (nibble.rs:713-831). */
  lemma PrologueExamples()
    ensures Prologue([0xD5, 0xAA, 0x96]) == Done([], [0xD5, 0xAA, 0x96])
    ensures Prologue([0x00, 0x00, 0xD5, 0xAA, 0x96]) == Done([], [0xD5, 0xAA, 0x96])
    ensures Prologue([0xD5, 0xAA, 0xB5]) == Done([], [0xD5, 0xAA, 0xB5])
  {
    var s := [0x00, 0x00, 0xD5, 0xAA, 0x96];
    assert !PrologueAt(s, 0) && !PrologueAt(s, 1) && PrologueAt(s, 2);
    assert FirstPrologue(s, 0) == Some(2);
    assert s[2..] == [0xD5, 0xAA, 0x96] && s[5..] == [];
  }

  /** The prologue unit tests that find none: the streaming search asks for
      more input. */
  lemma MissingPrologueExamples()
    ensures Prologue([0x00, 0x00, 0x00]) == Fail(Incomplete)
    ensures Prologue([0xD5, 0xAA, 0x00]) == Fail(Incomplete)
    ensures Prologue([0xD5, 0xAA]) == Fail(Incomplete)
  {
    var a: seq<bv8> := [0x00, 0x00, 0x00];
    var b: seq<bv8> := [0xD5, 0xAA, 0x00];
    assert !PrologueAt(a, 0) && FirstPrologue(a, 1) == None;
    assert !PrologueAt(b, 0) && FirstPrologue(b, 1) == None;
  }

  // ---------------------------------------------------------------------------
  // Address fields

  const ADDRESS_PROLOGUE: seq<bv8> := [0xD5, 0xAA, 0x96]
  const DATA_PROLOGUE: seq<bv8> := [0xD5, 0xAA, 0xAD]
  const EPILOGUE: seq<bv8> := [0xDE, 0xAA, 0xEB]

  datatype AddressField = AddressField(volume: bv8, track: bv8, sector: bv8, checksum: bv8)

  /** `find_and_parse_address_field` (nibble.rs:151-206): skip to the first
      D5 AA 96, read four 4-and-4 bytes and a three-byte epilogue.  A checksum
      other than volume ^ track ^ sector panics unless checksums are ignored.
      Every read is streaming, so a short input asks for more. */
  function FindAndParseAddressField(ignoreChecksums: bool, s: seq<bv8>): (r: Outcome<AddressField>)
    ensures r.Done? ==> IsSuffix(r.rest, s) && |r.rest| + 14 <= |s|
    ensures r.Done? ==> ignoreChecksums || r.value.volume ^ r.value.track ^ r.value.sector == r.value.checksum
    ensures r.Fail? ==> r.failure == Incomplete || r.failure == Panic
    ensures r.Fail? && r.failure == Panic ==> !ignoreChecksums
  {
    var (i, _) :- TakeUntil(s, ADDRESS_PROLOGUE);
    var (j, _) :- TakeStreaming(i, 3);
    var r := AddressFieldBody(ignoreChecksums, j);
    assert IsSuffix(j, s) by {
      assert j == s[|s| - |j|..];
    }
    if r.Done? then SuffixTransitive(r.rest, j, s); r else r
  }

  /** The rest of an address field once its prologue has been read. */
  function AddressFieldBody(ignoreChecksums: bool, i: seq<bv8>): (r: Outcome<AddressField>)
    ensures r.Done? ==> IsSuffix(r.rest, i) && |r.rest| + 11 <= |i|
    ensures r.Done? ==> ignoreChecksums || r.value.volume ^ r.value.track ^ r.value.sector == r.value.checksum
    ensures r.Fail? ==> r.failure == Incomplete || r.failure == Panic
    ensures r.Fail? && r.failure == Panic ==> !ignoreChecksums
  {
    var (i, volume) :- ParseNibbleByte4And4(i);
    var (i, track) :- ParseNibbleByte4And4(i);
    var (i, sector) :- ParseNibbleByte4And4(i);
    var (i, checksum) :- ParseNibbleByte4And4(i);
    var (i, _) :- TakeStreaming(i, 3);
    if volume ^ track ^ sector != checksum && !ignoreChecksums then Fail(Panic)
    else Done(i, AddressField(volume, track, sector, checksum))
  }

  /** The bytes of an address field with the given contents (nibble.rs:151-163). */
  function AddressFieldBytes(volume: bv8, track: bv8, sector: bv8, checksum: bv8): (r: seq<bv8>)
    ensures |r| == 14 && r[..3] == ADDRESS_PROLOGUE && r[11..] == EPILOGUE
  {
    ADDRESS_PROLOGUE + Encode4And4(volume) + Encode4And4(track) + Encode4And4(sector)
      + Encode4And4(checksum) + EPILOGUE
  }

  /** The address field a DOS 3.3 controller writes for a sector: the encoder
      the parser is the inverse of. */
  function EncodeAddressField(volume: bv8, track: bv8, sector: bv8): (r: seq<bv8>)
    ensures |r| == 14
  {
    AddressFieldBytes(volume, track, sector, volume ^ track ^ sector)
  }

  /** An address field parses back to its four values; a checksum that does
      not match volume ^ track ^ sector panics unless checksums are ignored. */
  lemma AddressFieldParse(ignoreChecksums: bool, volume: bv8, track: bv8, sector: bv8, checksum: bv8, rest: seq<bv8>)
    ensures FindAndParseAddressField(ignoreChecksums, AddressFieldBytes(volume, track, sector, checksum) + rest)
         == if volume ^ track ^ sector == checksum || ignoreChecksums
            then Done(rest, AddressField(volume, track, sector, checksum))
            else Fail(Panic)
  {
    var s := AddressFieldBytes(volume, track, sector, checksum) + rest;
    AddressFieldBytesSplit(volume, track, sector, checksum, rest);
    AddressFieldAtStart(ignoreChecksums, s);
    AddressFieldBodyParse(ignoreChecksums, volume, track, sector, checksum, rest);
  }

  /** An input that starts with the address prologue is read from there. */
  lemma AddressFieldAtStart(ignoreChecksums: bool, s: seq<bv8>)
    requires 3 <= |s| && s[..3] == ADDRESS_PROLOGUE
    ensures FindAndParseAddressField(ignoreChecksums, s) == AddressFieldBody(ignoreChecksums, s[3..])
  {
    assert OccursAt(s, ADDRESS_PROLOGUE, 0);
    assert TakeUntil(s, ADDRESS_PROLOGUE) == Done(s, []);
  }

  /** `find_and_parse_address_field` reads "the first field": whatever bytes
      come before it, the field is read at the first D5 AA 96, and an input
      without one asks for more. */
  lemma AddressFieldAtFirstPrologue(ignoreChecksums: bool, s: seq<bv8>)
    ensures FindFrom(s, ADDRESS_PROLOGUE, 0).None? ==> FindAndParseAddressField(ignoreChecksums, s) == Fail(Incomplete)
    ensures FindFrom(s, ADDRESS_PROLOGUE, 0).Some? ==>
      var k := FindFrom(s, ADDRESS_PROLOGUE, 0).value;
      FindAndParseAddressField(ignoreChecksums, s) == AddressFieldBody(ignoreChecksums, s[k + 3..])
  {
    match FindFrom(s, ADDRESS_PROLOGUE, 0)
    case None =>
    case Some(k) =>
      assert TakeUntil(s, ADDRESS_PROLOGUE) == Done(s[k..], s[..k]);
      assert s[k..][3..] == s[k + 3..];
  }

  /** Self-sync bytes: gap bytes without 0xD5, the first byte of every mark. */
  predicate Unmarked(gap: seq<bv8>) {
    forall i :: 0 <= i < |gap| ==> gap[i] != 0xD5
  }

  /** An address field after a run of sync bytes, as on a real track, parses
      as if the run were not there. */
  lemma AddressFieldAfterSync(ignoreChecksums: bool, sync: seq<bv8>, volume: bv8, track: bv8, sector: bv8, checksum: bv8,
                              rest: seq<bv8>)
    requires Unmarked(sync)
    ensures FindAndParseAddressField(ignoreChecksums, sync + (AddressFieldBytes(volume, track, sector, checksum) + rest))
         == if volume ^ track ^ sector == checksum || ignoreChecksums
            then Done(rest, AddressField(volume, track, sector, checksum))
            else Fail(Panic)
  {
    var t := AddressFieldBytes(volume, track, sector, checksum) + rest;
    var s := sync + t;
    AddressFieldBytesSplit(volume, track, sector, checksum, rest);
    assert OccursAt(t, ADDRESS_PROLOGUE, 0);
    FindAfterGap(sync, t, ADDRESS_PROLOGUE);
    AddressFieldAtFirstPrologue(ignoreChecksums, s);
    assert s[|sync| + 3..] == t[3..];
    AddressFieldAtStart(ignoreChecksums, t);
    AddressFieldParse(ignoreChecksums, volume, track, sector, checksum, rest);
  }

  lemma AddressFieldBytesSplit(volume: bv8, track: bv8, sector: bv8, checksum: bv8, rest: seq<bv8>)
    ensures var s := AddressFieldBytes(volume, track, sector, checksum) + rest;
      3 <= |s| && s[..3] == ADDRESS_PROLOGUE &&
      s[3..] == Encode4And4(volume) + (Encode4And4(track) + (Encode4And4(sector) + (Encode4And4(checksum) + (EPILOGUE + rest))))
  {
    var e1, e2, e3, e4 := Encode4And4(volume), Encode4And4(track), Encode4And4(sector), Encode4And4(checksum);
    var t4 := e4 + (EPILOGUE + rest);
    var t3 := e3 + t4;
    var t2 := e2 + t3;
    var t1 := e1 + t2;
    var x1 := ADDRESS_PROLOGUE + e1;
    var x2 := x1 + e2;
    var x3 := x2 + e3;
    var x4 := x3 + e4;
    Assoc(x4, EPILOGUE, rest);
    Assoc(x3, e4, EPILOGUE + rest);
    Assoc(x2, e3, t4);
    Assoc(x1, e2, t3);
    Assoc(ADDRESS_PROLOGUE, e1, t2);
    assert (ADDRESS_PROLOGUE + t1)[3..] == t1;
  }

  lemma Assoc(a: seq<bv8>, b: seq<bv8>, c: seq<bv8>)
    ensures a + b + c == a + (b + c)
  {
  }

  lemma AddressFieldBodyParse(ignoreChecksums: bool, volume: bv8, track: bv8, sector: bv8, checksum: bv8, rest: seq<bv8>)
    ensures AddressFieldBody(ignoreChecksums,
              Encode4And4(volume) + (Encode4And4(track) + (Encode4And4(sector) + (Encode4And4(checksum) + (EPILOGUE + rest)))))
         == if volume ^ track ^ sector == checksum || ignoreChecksums
            then Done(rest, AddressField(volume, track, sector, checksum))
            else Fail(Panic)
  {
    var s4 := Encode4And4(checksum) + (EPILOGUE + rest);
    var s3 := Encode4And4(sector) + s4;
    var s2 := Encode4And4(track) + s3;
    var s1 := Encode4And4(volume) + s2;
    FourAndFourRoundTrip(volume, s2);
    FourAndFourRoundTrip(track, s3);
    FourAndFourRoundTrip(sector, s4);
    FourAndFourRoundTrip(checksum, EPILOGUE + rest);
    assert TakeStreaming(EPILOGUE + rest, 3) == Done(rest, EPILOGUE) by {
      assert (EPILOGUE + rest)[3..] == rest;
      assert (EPILOGUE + rest)[..3] == EPILOGUE;
    }
    AddressFieldBodySteps(ignoreChecksums, s1, s2, s3, s4, EPILOGUE + rest, rest, volume, track, sector, checksum);
  }

  /** The body read from the outcomes of its five steps. */
  lemma AddressFieldBodySteps(ignoreChecksums: bool, s1: seq<bv8>, s2: seq<bv8>, s3: seq<bv8>, s4: seq<bv8>, s5: seq<bv8>,
                              rest: seq<bv8>, volume: bv8, track: bv8, sector: bv8, checksum: bv8)
    requires ParseNibbleByte4And4(s1) == Done(s2, volume)
    requires ParseNibbleByte4And4(s2) == Done(s3, track)
    requires ParseNibbleByte4And4(s3) == Done(s4, sector)
    requires ParseNibbleByte4And4(s4) == Done(s5, checksum)
    requires TakeStreaming(s5, 3) == Done(rest, EPILOGUE)
    ensures AddressFieldBody(ignoreChecksums, s1)
         == if volume ^ track ^ sector == checksum || ignoreChecksums
            then Done(rest, AddressField(volume, track, sector, checksum))
            else Fail(Panic)
  {
  }

  /** An encoded address field parses back to its volume, track and sector. */
  lemma AddressFieldRoundTrip(ignoreChecksums: bool, volume: bv8, track: bv8, sector: bv8, rest: seq<bv8>)
    ensures FindAndParseAddressField(ignoreChecksums, EncodeAddressField(volume, track, sector) + rest)
         == Done(rest, AddressField(volume, track, sector, volume ^ track ^ sector))
  {
    AddressFieldParse(ignoreChecksums, volume, track, sector, volume ^ track ^ sector, rest);
  }

  /** The address-field unit test (nibble.rs:621-642): volume 254, track 23,
      sector 5 with its checksum. */
  lemma AddressFieldExample(ignoreChecksums: bool)
    ensures FindAndParseAddressField(ignoreChecksums,
              [0xD5, 0xAA, 0x96, 0xFF, 0xFE, 0xAB, 0xBF, 0xAA, 0xAF, 0xFE, 0xEE, 0xDE, 0xAA, 0xEB])
         == Done([], AddressField(0xFE, 0x17, 0x05, 0xEC))
  {
    var s: seq<bv8> := [0xD5, 0xAA, 0x96, 0xFF, 0xFE, 0xAB, 0xBF, 0xAA, 0xAF, 0xFE, 0xEE, 0xDE, 0xAA, 0xEB];
    assert OccursAt(s, ADDRESS_PROLOGUE, 0);
    assert TakeUntil(s, ADDRESS_PROLOGUE) == Done(s, []);
    var t := s[3..];
    assert ParseNibbleByte4And4(t) == Done(t[2..], 0xFE);
    assert ParseNibbleByte4And4(t[2..]) == Done(t[4..], 0x17);
    assert ParseNibbleByte4And4(t[4..]) == Done(t[6..], 0x05);
    assert ParseNibbleByte4And4(t[6..]) == Done(t[8..], 0xEC);
    assert t[8..][3..] == [];
  }

  /** The same field with a zero checksum (nibble.rs:690-709): the computed
      checksum 236 differs, so the parser panics unless checksums are ignored. */
  lemma AddressFieldBadChecksumExample(ignoreChecksums: bool)
    ensures FindAndParseAddressField(ignoreChecksums,
              [0xD5, 0xAA, 0x96, 0xFF, 0xFE, 0xAB, 0xBF, 0xAA, 0xAF, 0x00, 0x00, 0xDE, 0xAA, 0xEB])
         == if ignoreChecksums then Done([], AddressField(0xFE, 0x17, 0x05, 0x00)) else Fail(Panic)
  {
    var s: seq<bv8> := [0xD5, 0xAA, 0x96, 0xFF, 0xFE, 0xAB, 0xBF, 0xAA, 0xAF, 0x00, 0x00, 0xDE, 0xAA, 0xEB];
    assert OccursAt(s, ADDRESS_PROLOGUE, 0);
    assert TakeUntil(s, ADDRESS_PROLOGUE) == Done(s, []);
    var t := s[3..];
    assert ParseNibbleByte4And4(t) == Done(t[2..], 0xFE);
    assert ParseNibbleByte4And4(t[2..]) == Done(t[4..], 0x17);
    assert ParseNibbleByte4And4(t[4..]) == Done(t[6..], 0x05);
    assert ParseNibbleByte4And4(t[6..]) == Done(t[8..], 0x00);
    assert t[8..][3..] == [];
  }

  // ---------------------------------------------------------------------------
  // Data fields

  /** The 342 disk bytes of a 6-and-2 data field. */
  type Nibbles = s: seq<bv8> | |s| == 342 witness seq(342, _ => 0)

  datatype DataField = DataField(prologue: seq<bv8>, data: Nibbles, checksum: bv8, epilogue: seq<bv8>)

  /** `find_and_parse_data_field` (nibble.rs:231-257): skip to the first
      D5 AA AD, then a three-byte prologue, 342 data bytes, one checksum byte
      and a three-byte epilogue.  The search and the takes are streaming, but
      the checksum byte is read by the complete `le_u8`, so an input that ends
      right after the data is a plain error. */
  function FindAndParseDataField(s: seq<bv8>): (r: Outcome<DataField>)
    ensures r.Done? <==> (var k := FindFrom(s, DATA_PROLOGUE, 0); k.Some? && k.value + 349 <= |s|)
    ensures r.Done? ==> var k := FindFrom(s, DATA_PROLOGUE, 0).value;
      r.rest == s[k + 349..] && r.value.prologue == DATA_PROLOGUE &&
      r.value.data == s[k + 3..k + 345] && r.value.checksum == s[k + 345] && r.value.epilogue == s[k + 346..k + 349]
    ensures r.Done? ==> IsSuffix(r.rest, s) && |r.rest| + 349 <= |s|
    ensures r.Fail? && r.failure == Error <==> (var k := FindFrom(s, DATA_PROLOGUE, 0); k.Some? && k.value + 345 == |s|)
    ensures r.Fail? ==> r.failure == Error || r.failure == Incomplete
  {
    var (i, _) :- TakeUntil(s, DATA_PROLOGUE);
    var (i, prologue) :- TakeStreaming(i, 3);
    var (i, data) :- TakeStreaming(i, 342);
    var (i, checksum) :- U8(i);
    var (i, epilogue) :- TakeStreaming(i, 3);
    Done(i, DataField(prologue, data, checksum, epilogue))
  }

  // ---------------------------------------------------------------------------
  // 6 and 2 decoding

  /** The running XOR of the first `n` decoded disk bytes. */
  function XorPrefix(data: seq<bv8>, n: nat): bv8
    requires n <= |data|
  {
    if n == 0 then 0 else XorPrefix(data, n - 1) ^ READ_TABLE[data[n - 1]]
  }

  /** The buffer `data_field_build_buffer` fills: the running XOR after disk
      byte 86 + p at position p < 256, and the running XOR after each of the
      first 86 disk bytes stored backwards at the end. */
  function DecodedBuffer(data: Nibbles): (b: seq<bv8>)
    ensures |b| == 342
  {
    seq(342, p requires 0 <= p < 342 => if p < 256 then XorPrefix(data, p + 87) else XorPrefix(data, 342 - p))
  }

  /** The checksum `data_field_build_buffer` returns; 0 means the field is intact. */
  function DataChecksum(df: DataField): bv8 {
    XorPrefix(df.data, 342) ^ READ_TABLE[df.checksum]
  }

  /** `data_field_build_buffer` (nibble.rs:267-286). */
  method DataFieldBuildBuffer(df: DataField) returns (buffer: seq<bv8>, checksum: bv8)
    ensures buffer == DecodedBuffer(df.data) && checksum == DataChecksum(df)
  {
    var computed: bv8 := 0;
    var size := |df.data|;
    var b := new bv8[342](_ => 0);
    for index := 0 to size
      invariant computed == XorPrefix(df.data, index)
      invariant forall p :: 0 <= p < 256 && p + 87 <= index ==> b[p] == XorPrefix(df.data, p + 87)
      invariant forall p :: 256 <= p < 342 && 342 - p <= index ==> b[p] == XorPrefix(df.data, 342 - p)
    {
      computed := computed ^ READ_TABLE[df.data[index]];
      if index < 0x56 {
        b[size - index - 1] := computed;
      } else {
        b[index - 0x56] := computed;
      }
    }
    computed := computed ^ READ_TABLE[df.checksum];
    buffer, checksum := b[..], computed;
    FilledBufferIsDecoded(df.data, buffer);
  }

  /** A buffer holding the running XORs at the places the loop of
      `data_field_build_buffer` stores them is the decoded buffer. */
  lemma FilledBufferIsDecoded(data: Nibbles, buffer: seq<bv8>)
    requires |buffer| == 342
    requires forall p :: 0 <= p < 256 ==> buffer[p] == XorPrefix(data, p + 87)
    requires forall p :: 256 <= p < 342 ==> buffer[p] == XorPrefix(data, 342 - p)
    ensures buffer == DecodedBuffer(data)
  {
    var decoded := DecodedBuffer(data);
    DecodedBufferAt(data);
    forall p | 0 <= p < 342
      ensures buffer[p] == decoded[p]
    {
    }
  }

  lemma DecodedBufferAt(data: Nibbles)
    ensures forall p :: 0 <= p < 256 ==> DecodedBuffer(data)[p] == XorPrefix(data, p + 87)
    ensures forall p :: 256 <= p < 342 ==> DecodedBuffer(data)[p] == XorPrefix(data, 342 - p)
  {
  }

  const REVERSE_VALUES: seq<bv8> := [0x00, 0x02, 0x01, 0x03]

  /** Byte i of the decoded sector, as one turn of the decoding loop of
      `transform_data_field` computes it (nibble.rs:317-324): six high bits
      from buffer[i], two low bits from the auxiliary byte counted back from
      the end of the buffer, pair i / 86 of it, bit-swapped. */
  function DenibblizedByte(buffer: seq<bv8>, i: nat): bv8
    requires |buffer| == 342 && i < 256
  {
    var nibbleLow := |buffer| - (i % 0x56) - 1;
    var shiftPairs := (i / 0x56) * 2;
    (buffer[i] << 2) | REVERSE_VALUES[(buffer[nibbleLow] >> shiftPairs) & 0x03]
  }

  /** A decoded 256-byte sector. */
  type SectorBytes = s: seq<bv8> | |s| == 256 witness seq(256, _ => 0)

  datatype Sector = Sector(data: SectorBytes)

  function Denibblize(buffer: seq<bv8>): SectorBytes
    requires |buffer| == 342
  {
    seq(256, i requires 0 <= i < 256 => DenibblizedByte(buffer, i))
  }

  /** What `transform_data_field` yields for a data field: a panic on a bad
      checksum unless checksums are ignored, otherwise the decoded sector. */
  function TransformedSector(ignoreChecksums: bool, df: DataField): Result<Sector> {
    if DataChecksum(df) != 0 && !ignoreChecksums then Err(Panicked)
    else Ok(Sector(Denibblize(DecodedBuffer(df.data))))
  }

  /** `transform_data_field` (nibble.rs:289-331). */
  method TransformDataField(ignoreChecksums: bool, df: DataField) returns (r: Result<Sector>)
    ensures r == TransformedSector(ignoreChecksums, df)
  {
    var buffer, computed := DataFieldBuildBuffer(df);
    if computed != 0 && !ignoreChecksums {
      return Err(Panicked);
    }
    var data := DenibblizeLoop(buffer);
    r := Ok(Sector(data));
  }

  /** The decoding loop of `transform_data_field` (nibble.rs:314-325). */
  method DenibblizeLoop(buffer: seq<bv8>) returns (sector: SectorBytes)
    requires |buffer| == 342
    ensures sector == Denibblize(buffer)
  {
    var data := new bv8[256](_ => 0);
    for i := 0 to 256
      invariant forall j :: 0 <= j < i ==> data[j] == DenibblizedByte(buffer, j)
    {
      data[i] := DenibblizedByte(buffer, i);
    }
    assert data[..] == Denibblize(buffer);
    sector := data[..];
  }

  // ---------------------------------------------------------------------------
  // 6 and 2 encoding

  /** The two low bits of `x`, swapped. */
  function Rev2(x: bv8): (r: bv8)
    ensures r < 4 && REVERSE_VALUES[r] == x & 3
  {
    ((x & 0x01) << 1) | ((x & 0x02) >> 1)
  }

  /** Auxiliary byte `j` (j < 86) before masking: the swapped low bit pairs of
      data bytes j + 172, j + 86 and j (each taken modulo 256), from the top. */
  function AuxByte(d: seq<bv8>, j: nat): bv8
    requires |d| >= 256 && j < 0x56
  {
    (Rev2(d[(j + 0xAC) % 0x100]) << 6) | (Rev2(d[(j + 0x56) % 0x100]) << 4) | (Rev2(d[j]) << 2)
  }

  function LowSix(x: bv8): bv8 {
    x & 0x3F
  }

  /** The 344-byte staging array of `build_nibble_sector` before its XOR pass:
      86 auxiliary bytes (the last two with their top pair cleared, since data
      bytes 256 and 257 do not exist), the 256 data bytes, and two zero pad bytes. */
  function Staged(d: seq<bv8>): (n: seq<bv8>)
    requires |d| >= 256
    ensures |n| == 344
  {
    seq(344, j requires 0 <= j < 344 =>
      if j < 0x56 then (if j == 84 || j == 85 then LowSix(AuxByte(d, j)) else AuxByte(d, j))
      else if j < 342 then d[j - 0x56]
      else 0)
  }

  /** Staged byte `k` XOR-ed with its predecessor. */
  function Chained(n: seq<bv8>, k: nat): bv8
    requires k < |n|
  {
    n[k] ^ (if k == 0 then 0 else n[k - 1])
  }

  /** The disk byte for the six high bits of `x`. */
  function WriteNibble(x: bv8): (r: bv8)
    ensures r in WRITE_TABLE
  {
    WRITE_TABLE[x >> 2]
  }

  /** The data field `build_nibble_sector` produces from the first 256 bytes of
      `d`: each chained staged byte through the write table, and as checksum
      the last value the XOR pass saved, which is staged byte 343. */
  function NibbleSector(d: seq<bv8>): (df: DataField)
    requires |d| >= 256
    ensures df.prologue == DATA_PROLOGUE && df.epilogue == EPILOGUE
    ensures forall k :: 0 <= k < 342 ==> df.data[k] in WRITE_TABLE
  {
    var n := Staged(d);
    DataField(DATA_PROLOGUE, seq(342, k requires 0 <= k < 342 => WriteNibble(Chained(n, k))), n[343], EPILOGUE)
  }

  /** `build_nibble_sector` on any slice: copying the first 256 bytes panics
      on a shorter one, so the six-byte blocks its documentation mentions
      never encode. */
  function NibbleSectorOf(d: seq<bv8>): Result<DataField> {
    if |d| < 256 then Err(Panicked) else Ok(NibbleSector(d))
  }

  /** A block shorter than a sector, such as the six-byte block the source's
      documentation offers or a short final block of `nibblize_data`, panics. */
  lemma ShortBlockPanics(d: seq<bv8>)
    requires |d| < 256
    ensures NibbleSectorOf(d) == Err(Panicked)
  {
  }

  /** `build_nibble_sector` (nibble.rs:345-393): a panic below 256 bytes,
      otherwise the data field of the first 256. */
  method BuildNibbleSector(data: seq<bv8>) returns (r: Result<DataField>)
    ensures r == NibbleSectorOf(data)
    ensures r.Err? <==> |data| < 256
  {
    if |data| < 256 {
      return Err(Panicked);
    }
    var nibbleData := StageNibbleData(data);
    var checksum := ChainNibbleData(nibbleData);
    var finalData := seq(342, k requires 0 <= k < 342 reads nibbleData => WriteNibble(nibbleData[k]));
    var df := DataField(DATA_PROLOGUE, finalData, checksum, EPILOGUE);
    assert df == NibbleSector(data);
    r := Ok(df);
  }

  /** The copy and auxiliary-byte loops of `build_nibble_sector` (nibble.rs:347-370). */
  method StageNibbleData(data: seq<bv8>) returns (nibbleData: array<bv8>)
    requires |data| >= 256
    ensures fresh(nibbleData) && nibbleData[..] == Staged(data)
  {
    ghost var n := Staged(data);
    nibbleData := new bv8[344](_ => 0);
    for i := 0 to 256
      invariant forall j :: 0 <= j < 0x56 || 342 <= j < 344 ==> nibbleData[j] == 0
      invariant forall j :: 0x56 <= j < 0x56 + i ==> nibbleData[j] == n[j]
      invariant forall j :: 0x56 + i <= j < 342 ==> nibbleData[j] == 0
    {
      nibbleData[i + 0x56] := data[i];
    }
    for i := 0 to 0x56
      invariant forall j :: 0 <= j < i ==> nibbleData[j] == AuxByte(data, j)
      invariant forall j :: 0x56 <= j < 344 ==> nibbleData[j] == n[j]
    {
      var acIndex := (i + 0xAC) % 0x100;
      var index56 := (i + 0x56) % 0x100;
      var index := i % 0x100;
      var val: bv8 := (((data[acIndex] & 0x1) << 1) | ((data[acIndex] & 0x2) >> 1)) << 6;
      val := val | ((((data[index56] & 0x1) << 1) | ((data[index56] & 0x2) >> 1)) << 4);
      val := val | ((((data[index] & 0x1) << 1) | ((data[index] & 0x2) >> 1)) << 2);
      assert index == i;
      nibbleData[i] := val;
    }
    nibbleData[84] := nibbleData[84] & 0x3F;
    nibbleData[85] := nibbleData[85] & 0x3F;
    StagedFrom(data, nibbleData[..]);
  }

  /** Auxiliary bytes in front, the top pair of the last two cleared, and
      the staged bytes from 86 on: the whole staging array. */
  lemma StagedFrom(d: seq<bv8>, b: seq<bv8>)
    requires |d| >= 256 && |b| == 344
    requires forall j :: 0 <= j < 0x56 && j != 84 && j != 85 ==> b[j] == AuxByte(d, j)
    requires b[84] == AuxByte(d, 84) & 0x3F && b[85] == AuxByte(d, 85) & 0x3F
    requires forall j :: 0x56 <= j < 344 ==> b[j] == Staged(d)[j]
    ensures b == Staged(d)
  {
    var n := Staged(d);
    forall j | 0 <= j < 344
      ensures b[j] == n[j]
    {
      if j < 0x56 {
        assert n[j] == if j == 84 || j == 85 then LowSix(AuxByte(d, j)) else AuxByte(d, j);
      }
    }
  }

  /** The XOR pass of `build_nibble_sector` (nibble.rs:372-378): each byte is
      XOR-ed with the original value of its predecessor, and the last original
      value is returned as the checksum. */
  method ChainNibbleData(nibbleData: array<bv8>) returns (checksum: bv8)
    requires nibbleData.Length == 344
    modifies nibbleData
    ensures forall k :: 0 <= k < 344 ==> nibbleData[k] == Chained(old(nibbleData[..]), k)
    ensures checksum == old(nibbleData[343])
  {
    ghost var n := nibbleData[..];
    checksum := 0;
    for k := 0 to 344
      invariant forall j :: 0 <= j < k ==> nibbleData[j] == Chained(n, j)
      invariant forall j :: k <= j < 344 ==> nibbleData[j] == n[j]
      invariant checksum == if k == 0 then 0 else n[k - 1]
    {
      var savedData := nibbleData[k];
      nibbleData[k] := nibbleData[k] ^ checksum;
      checksum := savedData;
    }
  }

  /** Every sector encodes with checksum byte 0: the XOR pass ends on a pad byte. */
  lemma NibbleSectorChecksumByte(d: seq<bv8>)
    requires |d| >= 256
    ensures NibbleSector(d).checksum == 0
  {
  }

  lemma ShiftXor(x: bv8, y: bv8)
    ensures (y >> 2) ^ ((x ^ y) >> 2) == x >> 2 && (x ^ y) >> 2 < 64
  {
  }

  /** Reading the encoded field back, the running XOR after m disk bytes is the
      six high bits of staged byte m - 1: the chaining telescopes. */
  lemma XorPrefixOfNibbleSector(d: seq<bv8>, m: nat)
    requires |d| >= 256 && 1 <= m <= 342
    ensures XorPrefix(NibbleSector(d).data, m) == Staged(d)[m - 1] >> 2
  {
    var n := Staged(d);
    var data := NibbleSector(d).data;
    assert forall k :: 0 <= k < 342 ==> data[k] == WriteNibble(Chained(n, k));
    XorPrefixOfChained(n, data, m);
  }

  lemma {:induction false} XorPrefixOfChained(n: seq<bv8>, data: seq<bv8>, m: nat)
    requires 1 <= m <= |data| <= |n|
    requires forall k :: 0 <= k < |data| ==> data[k] == WriteNibble(Chained(n, k))
    ensures XorPrefix(data, m) == n[m - 1] >> 2
  {
    var c := Chained(n, m - 1);
    ShiftXor(n[m - 1], if m == 1 then 0 else n[m - 2]);
    ReadWrite(c >> 2);
    assert READ_TABLE[data[m - 1]] == c >> 2;
    if m > 1 {
      XorPrefixOfChained(n, data, m - 1);
    }
  }

  lemma AuxPairs(a: bv8, b: bv8, c: bv8)
    ensures var v := (Rev2(a) << 6) | (Rev2(b) << 4) | (Rev2(c) << 2);
      REVERSE_VALUES[(v >> 2) & 0x03] == c & 3 &&
      REVERSE_VALUES[((v >> 2) >> 2) & 0x03] == b & 3 &&
      REVERSE_VALUES[((v >> 2) >> 4) & 0x03] == a & 3 &&
      REVERSE_VALUES[((v & 0x3F) >> 2) & 0x03] == c & 3 &&
      REVERSE_VALUES[(((v & 0x3F) >> 2) >> 2) & 0x03] == b & 3
  {
    var ra, rb, rc := Rev2(a), Rev2(b), Rev2(c);
    var v := (ra << 6) | (rb << 4) | (rc << 2);
    assert (v >> 2) & 0x03 == rc && ((v >> 2) >> 2) & 0x03 == rb && ((v >> 2) >> 4) & 0x03 == ra;
    assert ((v & 0x3F) >> 2) & 0x03 == rc && (((v & 0x3F) >> 2) >> 2) & 0x03 == rb;
  }

  lemma HighLow(x: bv8, y: bv8)
    requires y == x & 3
    ensures ((x >> 2) << 2) | y == x
  {
  }

  /** The decoder's buffer for an encoded sector holds the six high bits of
      each data byte, then the auxiliary bytes in reverse. */
  lemma DecodedBufferOfNibbleSector(d: seq<bv8>, p: nat)
    requires |d| >= 256 && p < 342
    ensures DecodedBuffer(NibbleSector(d).data)[p] ==
      if p < 256 then d[p] >> 2 else Staged(d)[341 - p] >> 2
  {
    if p < 256 {
      XorPrefixOfNibbleSector(d, p + 87);
    } else {
      XorPrefixOfNibbleSector(d, 342 - p);
    }
  }

  /** The low pair the decoder picks for byte i from auxiliary byte i % 86 is
      the low pair of d[i]. */
  lemma AuxPairOfNibbleSector(d: seq<bv8>, i: nat)
    requires |d| >= 256 && i < 256
    ensures REVERSE_VALUES[((Staged(d)[i % 0x56] >> 2) >> ((i / 0x56) * 2)) & 0x03] == d[i] & 3
  {
    var j := i % 0x56;
    var a, b, c := d[(j + 0xAC) % 0x100], d[(j + 0x56) % 0x100], d[j];
    AuxPairs(a, b, c);
    var aux := Staged(d)[j];
    assert aux == if j == 84 || j == 85 then LowSix(AuxByte(d, j)) else AuxByte(d, j);
    if i < 0x56 {
      assert i / 0x56 * 2 == 0 && j == i;
    } else if i < 0xAC {
      assert i / 0x56 * 2 == 2 && b == d[i];
    } else {
      assert i / 0x56 * 2 == 4 && j < 84 && a == d[i];
    }
  }

  /** Byte i of an encoded sector decodes to d[i]. */
  lemma DenibblizeNibbleSectorByte(d: seq<bv8>, i: nat)
    requires |d| >= 256 && i < 256
    ensures DenibblizedByte(DecodedBuffer(NibbleSector(d).data), i) == d[i]
  {
    var buffer := DecodedBuffer(NibbleSector(d).data);
    var j := i % 0x56;
    DecodedBufferOfNibbleSector(d, i);
    DecodedBufferOfNibbleSector(d, 341 - j);
    AuxPairOfNibbleSector(d, i);
    DenibblizedByteOf(buffer, i, d[i], Staged(d)[j]);
  }

  lemma DenibblizedByteOf(buffer: seq<bv8>, i: nat, x: bv8, aux: bv8)
    requires |buffer| == 342 && i < 256
    requires buffer[i] == x >> 2 && buffer[341 - i % 0x56] == aux >> 2
    requires REVERSE_VALUES[((aux >> 2) >> ((i / 0x56) * 2)) & 0x03] == x & 3
    ensures DenibblizedByte(buffer, i) == x
  {
    HighLow(x, x & 3);
  }

  /** Data recovery, apart from the checksum: decoding the buffer of an encoded
      sector gives back the 256 bytes that were encoded. */
  lemma NibbleSectorRoundTrip(d: seq<bv8>)
    requires |d| >= 256
    ensures Denibblize(DecodedBuffer(NibbleSector(d).data)) == d[..256]
  {
    forall i | 0 <= i < 256
      ensures Denibblize(DecodedBuffer(NibbleSector(d).data))[i] == d[i]
    {
      DenibblizeNibbleSectorByte(d, i);
    }
  }

  /** As written, the checksum of an encoded sector verifies exactly when the
      six high bits of the last data byte are zero: the decoder's running XOR
      ends on them, while the encoder emits checksum byte 0. */
  lemma NibbleSectorChecksum(d: seq<bv8>)
    requires |d| >= 256
    ensures DataChecksum(NibbleSector(d)) == 0 <==> d[255] < 4
  {
    XorPrefixOfNibbleSector(d, 342);
    assert READ_TABLE[0] == 0;
  }

  /** Encoding then decoding: the data comes back when the checksum happens to
      verify or checksums are ignored, and decoding panics otherwise. */
  lemma NibbleSectorTransform(ignoreChecksums: bool, d: seq<bv8>)
    requires |d| >= 256
    ensures TransformedSector(ignoreChecksums, NibbleSector(d))
         == if d[255] < 4 || ignoreChecksums then Ok(Sector(d[..256])) else Err(Panicked)
  {
    NibbleSectorChecksum(d);
    NibbleSectorRoundTrip(d);
  }

  /** The round-trip unit test (nibble.rs:672-687): bytes 0, 1, ..., 254 and
      a final 1 decode back, since the last byte is below 4. */
  lemma NibbleSectorRoundTripExample()
    ensures var d := seq(256, i requires 0 <= i < 256 => if i == 255 then 1 else i as bv8);
      TransformedSector(false, NibbleSector(d)) == Ok(Sector(d))
  {
    var d := seq(256, i requires 0 <= i < 256 => if i == 255 then 1 else i as bv8);
    NibbleSectorTransform(false, d);
    assert d[..256] == d;
  }

  /** A sector of 256 bytes 0xFF encodes to a data field its own decoder
      rejects with a panic. */
  lemma NibbleSectorChecksumCounterexample()
    ensures TransformedSector(false, NibbleSector(seq(256, _ => 0xFF))) == Err(Panicked)
  {
    NibbleSectorTransform(false, seq(256, _ => 0xFF));
  }

  /** The evidently intended encoder: as checksum byte, the last staged value
      through the write table, so that the decoder's running XOR cancels. */
  function CorrectedNibbleSector(d: seq<bv8>): (df: DataField)
    requires |d| >= 256
    ensures df.prologue == DATA_PROLOGUE && df.epilogue == EPILOGUE && df.data == NibbleSector(d).data
    ensures df.checksum in WRITE_TABLE
  {
    NibbleSector(d).(checksum := WriteNibble(Staged(d)[341]))
  }

  /** With the corrected checksum every sector survives a checked round trip. */
  lemma CorrectedNibbleSectorRoundTrip(ignoreChecksums: bool, d: seq<bv8>)
    requires |d| >= 256
    ensures DataChecksum(CorrectedNibbleSector(d)) == 0
    ensures TransformedSector(ignoreChecksums, CorrectedNibbleSector(d)) == Ok(Sector(d[..256]))
  {
    var x := Staged(d)[341];
    XorPrefixOfNibbleSector(d, 342);
    ReadWrite(x >> 2);
    NibbleSectorRoundTrip(d);
  }
}
