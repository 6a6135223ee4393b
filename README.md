# image-rider disk-image parsers in Dafny

This project models the byte-level core of image-rider, a library that reads
retro-computer disk images, and proves properties of that model. The model
covers these parts of the library:

- **Apple II images.**
  - The 4-and-4 and 6-and-2 nibble codecs.
  - The nibble (`.nib`) image parser.
  - The DOS 3.3 catalog: file entries, track/sector lists, catalog sectors, the catalog chain and file assembly.
  - The DOS 3.3 volume parser and the filename and magic-number guesses.
- **Atari ST STX images.**
  - The CRC-16 step and the sector, track and disk headers.
  - The track and disk parsers and the extracted image data.
  - The older single-file parser in `stx.rs`.
- **Commodore 64 D64 images.**
  - The zone tables.
  - The block availability map (BAM) and its bitmap expansion.
  - File status and type decoding, file entries and the directory block.
- **The format-independent layer.**
  - The parser that tries D64 and then STX.
  - The filename guess.
  - The parse and save dispatch.
  - `disk_image_data`.
- **Serialisation.** The little-endian word serialiser and the byte-vector copy.

## Conventions

- **Bytes and integers.**
  - Bytes are `bv8`.
  - Multi-byte numbers are `int` subsets: `u16` and `u32`.
  - Input slices are `seq<bv8>`.
- **Parser results (module `Parsing`).** A nom `IResult` becomes `Outcome<T>`:
  - `Done(rest, value)` is a success;
  - `Fail(Error)` is a recoverable `nom::Err::Error`;
  - `Fail(Incomplete)` is a streaming parser asking for more input;
  - `Fail(Panic)` is a Rust panic;
  - `Fail(Diverges)` means the model's step bound ran out.
- **Crate errors.** A crate `Result` becomes `Result<T>` with an `ErrorKind`: `Unimplemented`, `Invalid`, `Message`, `Panicked` or `OutOfFuel`.
- **Parser combinators.** The nom combinators the source uses are functions in `Parsing`:
  - `take`, `tag`, `le_u8`, `le_u16`, `le_u32` and `be_u16`;
  - `count`, `many0`, `take_until` and `cond`.
  - They keep nom's distinction between complete and streaming parsers.
- **Imperative code.** Source loops that update state become methods with loops. Each is proved equal to a specification function, and the properties are proved about that function.
- **Configuration.** The `ignore-checksums` setting is a `bool` parameter.
- **File sizes.** The file size the file system reports is a `nat` parameter.
- **Output files.** Whether an output file can be created is a `bool` parameter.
- **Chain following.** Catalog and track/sector-list chains on a disk can form cycles, so chain following carries a `fuel` bound. Running out of fuel is reported as `Diverges` / `OutOfFuel`.

## Model

| member | source | states |
|---|---|---|
| Serialize.LittleEndianWordToBytes | src/serialize.rs:20-24 | a word becomes two bytes, low byte first, which `le_u16` reads back as the word |
| Serialize.LeU16OfWordBytes | src/serialize.rs:20-24 | reading the serialised word with `le_u16` yields the word and leaves the rest |
| Serialize.WordBytesOfLeWord | src/serialize.rs:20-24 | serialising the word two bytes encode gives those two bytes back (the other half of the round trip) |
| Serialize.BytesAsVec | src/serialize.rs:13-17 | serialising a byte vector copies it and never fails |
| NibbleTables.ReadTableInvertsWriteTable | src/disk_format/apple/nibble.rs:61-87 | the 6-and-2 read table maps each of the 64 write-table disk bytes back to its 6-bit value |
| NibbleTables.ReadWrite | src/disk_format/apple/nibble.rs:61-87 | the same inversion for any 6-bit value held in a byte |
| Nibble.ParseNibbleByte4And4 | src/disk_format/apple/nibble.rs:92-98 | succeeds exactly on two or more bytes and consumes two; a shorter input asks for more (streaming) |
| Nibble.FourAndFourDiskBytes | src/disk_format/apple/nibble.rs:39-56 | every 4-and-4 encoded byte carries the clock bits 1.1.1.1. |
| Nibble.FourAndFourRoundTrip | src/disk_format/apple/nibble.rs:92-98 | decoding the 4-and-4 encoding of any byte gives that byte and leaves the rest |
| Nibble.FourAndFourExamples | src/disk_format/apple/nibble.rs:549-618 | the decoded values of the unit tests |
| Nibble.FirstPrologue | src/disk_format/apple/nibble.rs:114-137 | the position found is a prologue and no earlier position at or after the start is one; none means there is none |
| Nibble.PrologueMeaning | src/disk_format/apple/nibble.rs:114-137 | succeeds iff a D5 AA 96/B5 prologue occurs; the value starts at the first one and the rest follows it; otherwise the search asks for more input |
| Nibble.ParsePrologue | src/disk_format/apple/nibble.rs:114-137 | the search loop computes exactly `Prologue` |
| Nibble.RecognizePrologue | src/disk_format/apple/nibble.rs:141-148 | some iff a prologue occurs, and then it is the third byte (96 or B5) of the first one |
| Nibble.PrologueExamples | src/disk_format/apple/nibble.rs:713-831 | the prologue unit tests that find one |
| Nibble.MissingPrologueExamples | src/disk_format/apple/nibble.rs:713-831 | the prologue unit tests that find none ask for more input |
| Nibble.FindAndParseAddressField | src/disk_format/apple/nibble.rs:151-206 | a success consumes at least 14 bytes and its checksum is volume ^ track ^ sector unless checksums are ignored; failures are Incomplete or a checksum panic |
| Nibble.AddressFieldAtFirstPrologue | src/disk_format/apple/nibble.rs:151-170 | whatever bytes precede it, the field is read from the first D5 AA 96 on; an input without one is Incomplete |
| Nibble.AddressFieldAfterSync | src/disk_format/apple/nibble.rs:151-206 | an address field after a run of sync bytes (none of them 0xD5) parses as if the run were not there |
| Nibble.AddressFieldParse | src/disk_format/apple/nibble.rs:151-206 | the bytes of any address field parse back to its four values, or panic exactly when the checksum is wrong and not ignored |
| Nibble.AddressFieldRoundTrip | src/disk_format/apple/nibble.rs:151-206 | an encoded address field parses back to its volume, track and sector |
| Nibble.AddressFieldExample | src/disk_format/apple/nibble.rs:621-642 | the address-field unit test: volume 254, track 23, sector 5, checksum 236 |
| Nibble.AddressFieldBadChecksumExample | src/disk_format/apple/nibble.rs:690-709 | a zero checksum panics unless checksums are ignored |
| Nibble.FindAndParseDataField | src/disk_format/apple/nibble.rs:231-257 | succeeds iff a D5 AA AD prologue is followed by 346 more bytes, and then the fields are the bytes at their offsets; ending right after the data is a plain error, any other shortage asks for more |
| Nibble.DataFieldBuildBuffer | src/disk_format/apple/nibble.rs:267-286 | the loop fills the running-XOR buffer (`DecodedBuffer`) and computes the data-field checksum |
| Nibble.TransformDataField | src/disk_format/apple/nibble.rs:289-331 | the method computes `TransformedSector`: denibblised data, or a panic on a bad checksum unless checksums are ignored |
| Nibble.DenibblizeLoop | src/disk_format/apple/nibble.rs:314-325 | the decoding loop over the 256 bytes yields `Denibblize` of the buffer: each byte its six high bits and its swapped low pair |
| Nibble.BuildNibbleSector | src/disk_format/apple/nibble.rs:345-393 | the method panics iff the slice is shorter than 256 bytes, and otherwise computes `NibbleSector` of its first 256 bytes, whose data bytes are all disk bytes of the write table |
| Nibble.ShortBlockPanics | src/disk_format/apple/nibble.rs:339-355 | any block shorter than 256 bytes, the six-byte blocks of the documentation included, panics at the copy |
| Nibble.StageNibbleData | src/disk_format/apple/nibble.rs:347-370 | the copy and auxiliary loops produce the 344-byte staging array |
| Nibble.ChainNibbleData | src/disk_format/apple/nibble.rs:372-378 | each byte is XOR-ed with its predecessor's original value, and the last original value is returned |
| Nibble.NibbleSector | src/disk_format/apple/nibble.rs:345-393 | the encoded field has the data prologue and epilogue, and every data byte is a valid disk byte |
| Nibble.NibbleSectorChecksumByte | src/disk_format/apple/nibble.rs:372-393 | as written, every encoded sector carries checksum byte 0 |
| Nibble.XorPrefixOfNibbleSector | src/disk_format/apple/nibble.rs:267-286 | reading an encoded field, the running XOR telescopes to the staged six high bits |
| Nibble.DecodedBufferOfNibbleSector | src/disk_format/apple/nibble.rs:267-286 | the decoder's buffer for an encoded sector holds the high six bits of each data byte, then the auxiliary bytes reversed |
| Nibble.DenibblizeNibbleSectorByte | src/disk_format/apple/nibble.rs:299-326 | each byte of an encoded sector decodes back to itself |
| Nibble.NibbleSectorRoundTrip | src/disk_format/apple/nibble.rs:289-393 | apart from the checksum, decoding an encoded sector gives back the 256 bytes |
| Nibble.NibbleSectorChecksum | src/disk_format/apple/nibble.rs:267-393 | as written, the checksum of an encoded sector verifies iff the last data byte is below 4 |
| Nibble.NibbleSectorTransform | src/disk_format/apple/nibble.rs:289-393 | encode then decode returns the data iff the last byte is below 4 or checksums are ignored, and panics otherwise |
| Nibble.NibbleSectorRoundTripExample | src/disk_format/apple/nibble.rs:672-687 | the round-trip unit test's data (last byte 1) comes back |
| Nibble.NibbleSectorChecksumCounterexample | src/disk_format/apple/nibble.rs:372-393 | 256 bytes 0xFF encode to a field its own decoder rejects |
| Nibble.CorrectedNibbleSector | src/disk_format/apple/nibble.rs:372-393 | the corrected encoder keeps the data and emits the last staged value through the write table |
| Nibble.CorrectedNibbleSectorRoundTrip | src/disk_format/apple/nibble.rs:289-393 | with the corrected checksum every sector survives a checked round trip |
| NibbleImage.ParseNibSector | src/disk_format/apple/nibble.rs:503-516 | a success consumes input; a panic only happens when checksums are not ignored |
| NibbleImage.LookupPut | src/disk_format/apple/nibble.rs:519-536 | storing a sector in the volume/track/sector map changes the lookup at its address and nowhere else |
| NibbleImage.ParseNibDisk | src/disk_format/apple/nibble.rs:519-536 | the insertion loop computes `NibDisk` (`many0` of sector fields, then `or_insert` assembly) |
| NibbleImage.FirstWith | src/disk_format/apple/nibble.rs:519-536 | the index found is the first field with that address; none means no field has it |
| NibbleImage.InsertLookup | src/disk_format/apple/nibble.rs:525-533 | one insertion decodes a field only at a vacant address, and changes the lookup only there |
| NibbleImage.AssembleSucceeds | src/disk_format/apple/nibble.rs:519-536 | assembly fails iff some first field at a vacant address has a bad checksum that is not ignored |
| NibbleImage.AssembleFirstWins | src/disk_format/apple/nibble.rs:519-536 | after assembly each vacant address holds the first field's decoded data; later duplicates are ignored |
| NibbleImage.AssembledSectorsHaveFields | src/disk_format/apple/nibble.rs:519-536 | an address holds a sector iff some parsed field names it |
| NibbleImage.DataFieldParse | src/disk_format/apple/nibble.rs:231-257 | a data field after sync bytes parses back to itself and consumes exactly its bytes |
| NibbleImage.FieldParse | src/disk_format/apple/nibble.rs:503-516 | the bytes of a well-formed field, with sync bytes before its address field and before its data field, parse back to that field |
| NibbleImage.NibDiskNeedsTruncatedField | src/disk_format/apple/nibble.rs:519-536 | as written, the image parser can only succeed on an image that ends 345 bytes after a data prologue |
| NibbleImage.NibDiskEmpty | src/disk_format/apple/nibble.rs:519-536 | as written, an empty image is reported as incomplete |
| NibbleImage.NibDiskOfFields | src/disk_format/apple/nibble.rs:519-536 | as written, an image of well-formed fields, each preceded by sync bytes, and a tail without prologue is reported as incomplete |
| NibbleImage.ParseNibSectorToEnd | src/disk_format/apple/nibble.rs:503-516 | the corrected field parser: running out of input is a plain error, never a request for more |
| NibbleImage.CorrectedNibDiskComplete | src/disk_format/apple/nibble.rs:519-536 | the corrected image parser never asks for more input; it fails only on a checksum panic |
| NibbleImage.CorrectedNibDiskOfFields | src/disk_format/apple/nibble.rs:519-536 | with the corrected parser an image of well-formed fields, each preceded by sync bytes, reads every field back in order and assembles them |
| NibbleImage.KeysFrom | src/disk_format/apple/nibble.rs:467-490 | the keys of a map from a bound up in strictly ascending order, as a BTreeMap yields them |
| NibbleImage.SectorsBytes | src/disk_format/apple/nibble.rs:467-490 | the saved bytes are the sectors' 256-byte data blocks in key order |
| NibbleImage.NibbleImageBytesSingle | src/disk_format/apple/nibble.rs:467-490 | a disk with one sector saves exactly that sector's data |
| AppleFileEntry.FileTypeCode | src/disk_format/apple/catalog.rs:19-39 | every type's code is a 7-bit value (the enum's decimal discriminants, `Unknown` being 41) |
| AppleFileEntry.FileTypeOf | src/disk_format/apple/catalog.rs:533-572 | the type is `Unknown` iff the code is not a known one, and a known type has that code |
| AppleFileEntry.FileTypeCodeRoundTrip | src/disk_format/apple/catalog.rs:533-572 | every type, `Unknown` included, reads back from its code |
| AppleFileEntry.TypeByte | src/disk_format/apple/catalog.rs:435-478 | the written type byte carries the type code in its low seven bits and the lock in bit 7 |
| AppleFileEntry.ParseFileEntry | src/disk_format/apple/catalog.rs:533-572 | succeeds iff 35 bytes are present, with each field read from its offset; a short input is a plain error |
| AppleFileEntry.HighAscii | src/disk_format/apple/catalog.rs:435-478 | every name byte is written with the high bit set |
| AppleFileEntry.NameField | src/disk_format/apple/catalog.rs:435-478 | the written name field is always 30 bytes |
| AppleFileEntry.FileEntryBytes | src/disk_format/apple/catalog.rs:435-478 | 35 bytes on success; `Invalid` iff the name is empty or longer than 30; a panic iff a name byte overflows `c + 0x80` |
| AppleFileEntry.FileEntryAsVec | src/disk_format/apple/catalog.rs:435-478 | the byte-pushing method computes `FileEntryBytes` |
| AppleFileEntry.FileEntryRoundTrip | src/disk_format/apple/catalog.rs:435-572 | parsing what `as_vec` wrote gives the entry back with its name as the 30-byte field |
| AppleFileEntry.ClearHighBit | src/disk_format/apple/catalog.rs:330-343 | the per-byte map leaves a value of at most 0x80, and 0x80 only from 0x80 |
| AppleFileEntry.TrimEnd | src/disk_format/apple/catalog.rs:330-343 | the result is the longest prefix not ending in a space, followed in the input only by spaces |
| AppleFileEntry.Filename | src/disk_format/apple/catalog.rs:330-343 | fails iff the name holds a 0x80 byte (invalid UTF-8 after the map); otherwise an ASCII name with no trailing space |
| AppleFileEntry.FilenameOfNameField | src/disk_format/apple/catalog.rs:330-478 | `filename()` undoes the name field `as_vec` writes |
| AppleFileEntry.TrimSpaces | src/disk_format/apple/catalog.rs:330-343 | trimming bytes that end in a non-space then spaces leaves the bytes |
| AppleFileEntry.HelloEntryExample | src/disk_format/apple/catalog.rs:900-943 | the serialisation unit tests' "HELLO" entry: exact bytes, and its name reads back |
| AppleFileEntry.NameLengthErrorExamples | src/disk_format/apple/catalog.rs:944-1027 | names of length 0 and 31 are refused with `Invalid` |
| AppleTrackSectorList.ParseTrackSectorPair | src/disk_format/apple/catalog.rs:281-298 | succeeds iff two bytes are present, track first; a short input is a plain error |
| AppleTrackSectorList.PairsBytes | src/disk_format/apple/catalog.rs:257-280 | each pair is written as its two bytes, in order |
| AppleTrackSectorList.Pointer | src/disk_format/apple/catalog.rs:189-230 | a zero next-list byte means no pointer, any other byte is the pointer |
| AppleTrackSectorList.PointerRoundTrip | src/disk_format/apple/catalog.rs:158-230 | a pointer written and read back is unchanged |
| AppleTrackSectorList.TrackSectorListBytes | src/disk_format/apple/catalog.rs:158-180 | the written list is the header fields followed by two bytes per pair |
| AppleTrackSectorList.TrackSectorListAsVec | src/disk_format/apple/catalog.rs:158-180 | the pushing method computes `TrackSectorListBytes` and never fails |
| AppleTrackSectorList.PairsFrom | src/disk_format/apple/catalog.rs:213-222 | the collecting loop only fails with a plain error |
| AppleTrackSectorList.ParsedTrackSectorList | src/disk_format/apple/catalog.rs:189-230 | the list parser only fails with a plain error |
| AppleTrackSectorList.ParseTrackSectorList | src/disk_format/apple/catalog.rs:189-230 | the loop with its mutable position, current pair and counter computes `ParsedTrackSectorList` |
| AppleTrackSectorList.PairsFromLength | src/disk_format/apple/catalog.rs:213-222 | the loop keeps at most as many pairs as the counter allows and consumes two bytes per pair kept |
| AppleTrackSectorList.PairsFromValues | src/disk_format/apple/catalog.rs:213-222 | the loop keeps the current pair, then the pairs read in order, all with nonzero tracks |
| AppleTrackSectorList.PairsFromEnd | src/disk_format/apple/catalog.rs:213-222 | the loop stops on a zero track unless the counter ran out |
| AppleTrackSectorList.ParsedTrackSectorListShape | src/disk_format/apple/catalog.rs:189-230 | an accepted list keeps at most 121 nonzero-track pairs, pair k from offset 12 + 2k, consumes one more pair, and that pair has track 0 unless 121 were kept |
| AppleTrackSectorList.PairsFromBytes | src/disk_format/apple/catalog.rs:213-222 | the loop reads back written pairs followed by an ending pair |
| AppleTrackSectorList.TrackSectorListRoundTrip | src/disk_format/apple/catalog.rs:158-230 | parsing what `as_vec` wrote, followed by an ending pair, gives the list back |
| AppleTrackSectorList.TrackSectorListBytesExamples | src/disk_format/apple/catalog.rs:1070-1183 | the serialisation unit tests with zero and two pairs |
| AppleTrackSectorList.PairsFromTotal | src/disk_format/apple/catalog.rs:213-222 | with two bytes per remaining pass the loop cannot run out of input |
| AppleTrackSectorList.FullListDropsLastPair | src/disk_format/apple/catalog.rs:213-222 | as written, a full 256-byte list sector with 122 used slots is consumed whole but only 121 pairs are kept |
| AppleTrackSectorList.ListedPairs | src/disk_format/apple/catalog.rs:189-230 | the corrected slot reading keeps at most the slots' pairs, all with nonzero tracks |
| AppleTrackSectorList.CorrectedTrackSectorList | src/disk_format/apple/catalog.rs:189-230 | the corrected parser reads a whole 256-byte sector and keeps up to all 122 slots |
| AppleTrackSectorList.CorrectedTrackSectorListRoundTrip | src/disk_format/apple/catalog.rs:158-230 | the corrected parser gives back every list `as_vec` writes, padded to a sector, up to 122 pairs |
| AppleCatalog.ValidEntries | src/disk_format/apple/catalog.rs:652-685 | keeps, in order, exactly the slots whose first-list track is neither 0x00 nor 0xFF |
| AppleCatalog.NameIndexKeys | src/disk_format/apple/catalog.rs:687-691 | the name index holds exactly the entries' names (and what it held before) |
| AppleCatalog.NameIndexLast | src/disk_format/apple/catalog.rs:687-691 | a name maps to the last entry carrying it |
| AppleCatalog.NameIndexUntouched | src/disk_format/apple/catalog.rs:687-691 | a name no entry carries keeps its earlier value |
| AppleCatalog.EntrySlots | src/disk_format/apple/catalog.rs:660-676 | a catalog sector body has seven slots, slot k at offset 35k |
| AppleCatalog.CatalogOfSlots | src/disk_format/apple/catalog.rs:677-700 | after the slots, the only failure is the `filename().unwrap()` panic; kept entries are valid and named |
| AppleCatalog.ParsedCatalog | src/disk_format/apple/catalog.rs:660-700 | a plain error iff fewer than 256 bytes; a success consumes exactly 256 and reads the next pointer from bytes 1 and 2 |
| AppleCatalog.CountEntries | src/disk_format/apple/catalog.rs:660-676 | reading the seven slots succeeds iff 245 bytes are present and reads slot k at 35k |
| AppleCatalog.ParsedCatalogComposes | src/disk_format/apple/catalog.rs:660-700 | the parser is the nom composition of header, `count(parse_file_entry, 7)`, filter and index |
| AppleCatalog.EntriesBytes | src/disk_format/apple/catalog.rs:625-640 | flattening the entries' `as_vec` fails only by a panic |
| AppleCatalog.Written | src/disk_format/apple/catalog.rs:625-640 | the entries written are a subset in number of those given (failing ones are dropped) |
| AppleCatalog.CatalogBytes | src/disk_format/apple/catalog.rs:625-650 | `Catalog::as_vec` fails only by a panic (a name overflow, or more than seven entries) |
| AppleCatalog.EntriesBytesLength | src/disk_format/apple/catalog.rs:625-640 | 35 bytes per entry written |
| AppleCatalog.CatalogBytesLength | src/disk_format/apple/catalog.rs:625-650 | 256 bytes when every entry is written, 35 short per dropped entry |
| AppleCatalog.CatalogBytesWritten | src/disk_format/apple/catalog.rs:625-650 | header, entries, then zero padding up to seven slots |
| AppleCatalog.CatalogRoundTrip | src/disk_format/apple/catalog.rs:625-700 | parsing what `as_vec` wrote gives back the header and the stored entries with their name index |
| AppleCatalog.ValidEntriesSplit | src/disk_format/apple/catalog.rs:677-685 | valid slots followed by invalid ones filter down to the valid prefix |
| AppleFiles.SectorAt | src/disk_format/apple/catalog.rs:747-761 | indexing the sector table succeeds iff in range and panics otherwise |
| AppleFiles.CatalogAt | src/disk_format/apple/catalog.rs:722-767 | a catalog sector read through `?`: the value is what `parse_catalog` reads at that sector |
| AppleFiles.CatalogChain | src/disk_format/apple/catalog.rs:722-767 | the chain read holds at least the first sector and at most the step bound; failures are panics, parse errors or the bound |
| AppleFiles.CatalogsAfter | src/disk_format/apple/catalog.rs:747-761 | the sectors read after one while both next-pointer parts are nonzero: at most the bound, all named, failing only by panic, parse error or the bound |
| AppleFiles.ChainEntries | src/disk_format/apple/catalog.rs:740-761 | the entries of a chain of named catalog sectors are all named |
| AppleFiles.FullCatalogFrom | src/disk_format/apple/catalog.rs:722-767 | for any well-behaved reader the collected names all convert back, and failures are panics, parse errors or the bound |
| AppleFiles.ChainEntriesSnoc | src/disk_format/apple/catalog.rs:740-761 | one more catalog sector appends its entries |
| AppleFiles.FullCatalogOf | src/disk_format/apple/catalog.rs:722-767 | every collected name converts back; failures are panics, parse errors or the step bound |
| AppleFiles.NameIndexSnoc | src/disk_format/apple/catalog.rs:740-761 | inserting one more entry is inserting it last |
| AppleFiles.CollectEntries | src/disk_format/apple/catalog.rs:740-745 | the push-and-insert loop appends the entries and keeps the index equal to the index of all entries |
| AppleFiles.FollowCatalogs | src/disk_format/apple/catalog.rs:722-767 | the chain-following loop computes `FullCatalogFrom` |
| AppleFiles.FollowOne | src/disk_format/apple/catalog.rs:747-761 | one turn of the loop either fails with exactly the error the whole chain ends in, or reads the next catalog sector and collects its entries, keeping the entry list and the name index equal to those of the sectors read so far |
| AppleFiles.ParseCatalogs | src/disk_format/apple/catalog.rs:722-767 | `parse_catalogs` over a disk computes `FullCatalogOf` |
| AppleFiles.CatalogChainLinked | src/disk_format/apple/catalog.rs:747-761 | the chain returned is linked by next pointers while both are nonzero, and every linked chain within the bound is the one returned |
| AppleFiles.CatalogSelfLoop | src/disk_format/apple/catalog.rs:747-761 | a catalog sector pointing at itself makes the loop run for ever: no bound suffices |
| AppleFiles.FullCatalogLookup | src/disk_format/apple/catalog.rs:722-767 | looking a name up finds the last entry of the chain carrying it, and only entries' names are present |
| AppleFiles.ListAt | src/disk_format/apple/catalog.rs:399-433 | a list read with `unwrap()`: the value is what the list parser reads at that sector, and any failure panics |
| AppleFiles.ListsAfter | src/disk_format/apple/catalog.rs:417-429 | the lists read after one while its next track is present: at most the bound, failing only by a panic or the bound |
| AppleFiles.TrackSectorLists | src/disk_format/apple/catalog.rs:399-433 | at least the first list and at most the bound; failures are panics or the bound |
| AppleFiles.BuildFile | src/disk_format/apple/catalog.rs:399-433 | the `while track.is_some()` loop computes `TrackSectorLists` |
| AppleFiles.TrackSectorListsLinked | src/disk_format/apple/catalog.rs:417-429 | the lists returned are linked from the entry's first list, and any linked chain within the bound is the one returned |
| AppleFiles.NextListInSectorZeroPanics | src/disk_format/apple/catalog.rs:417-429 | a next pointer naming sector 0 makes `sector.unwrap()` panic |
| AppleFiles.PairsData | src/disk_format/apple/catalog.rs:345-365 | concatenating the named sectors fails only by an out-of-range panic |
| AppleFiles.PairsDataBlocks | src/disk_format/apple/catalog.rs:345-365 | on 256-byte sectors the data is there iff every pair is in range, and block k is the k-th pair's sector |
| AppleFiles.BinaryPayload | src/disk_format/apple/catalog.rs:366-390 | the declared length after the 4-byte header when that many bytes follow, otherwise everything; a panic iff `len + 4` overflows 16 bits |
| AppleFiles.GetData | src/disk_format/apple/catalog.rs:345-397 | only Binary files succeed; any other type whose sectors read is `Invalid` |
| AppleFiles.FullFileBytes | src/disk_format/apple/catalog.rs:495-516 | a Binary file is its address and length as little-endian words then its data; any other type is `Unimplemented` |
| AppleFiles.BinaryPayloadRoundTrip | src/disk_format/apple/catalog.rs:345-516 | reading back a serialised Binary file, whatever slack follows, gives its data when the length is short of the wrap |
| AppleFiles.BinaryPayloadOverflows | src/disk_format/apple/catalog.rs:366-390 | as written, a Binary file of 0xFFFC bytes panics instead of coming back |
| AppleFiles.CorrectedBinaryPayload | src/disk_format/apple/catalog.rs:366-390 | the corrected payload: exactly `length` bytes when they follow, for every 16-bit length |
| AppleFiles.CorrectedBinaryPayloadRoundTrip | src/disk_format/apple/catalog.rs:345-516 | with the corrected sum every Binary file's data comes back |
| AppleFiles.UnwrapOrDefault | src/disk_format/apple/catalog.rs:780-812 | an error becomes the empty vector; a panic stays one |
| AppleFiles.NameOf | src/disk_format/apple/catalog.rs:780-812 | the name unwraps iff it converts, and a failure panics |
| AppleFiles.BuiltFile | src/disk_format/apple/catalog.rs:780-812 | a built file holds the lists its chain lays out, and a non-Binary file has empty data |
| AppleFiles.BuildFiles | src/disk_format/apple/catalog.rs:780-812 | the loop computes `BuiltFiles` over the catalog's entries |
| AppleFiles.BuiltFilesKeys | src/disk_format/apple/catalog.rs:780-812 | the files map holds exactly the entries' names |
| AppleFiles.BuiltFilesUntouched | src/disk_format/apple/catalog.rs:780-812 | a name no later entry carries keeps its file |
| AppleFiles.BuiltFilesLast | src/disk_format/apple/catalog.rs:780-812 | a name maps to the file built from the last entry carrying it |
| AppleDisks.SignedByte | src/disk_format/apple/disk.rs:162-206 | a byte read as `i8` lies in -128..127 and is negative iff bit 7 is set |
| AppleDisks.I8 | src/disk_format/apple/disk.rs:162-206 | `le_i8` succeeds iff a byte is present and reads it signed |
| AppleDisks.MapCount | src/disk_format/apple/disk.rs:179-183 | the number of free-sector maps read is `min(tracks, 50)` |
| AppleDisks.ParsedVtoc | src/disk_format/apple/disk.rs:162-206 | succeeds iff the 56-byte fixed part and `min(tracks, 50)` 4-byte maps are present, with every field at its offset; failures are plain errors |
| AppleDisks.VtocHeadChain | src/disk_format/apple/disk.rs:162-178 | the source's sixteen reads fail only with a plain error |
| AppleDisks.VtocComposes | src/disk_format/apple/disk.rs:162-206 | the source's sequence of reads is the read by offset |
| AppleDisks.CheckedVtocMapsEveryTrack | src/disk_format/apple/disk.rs:162-230 | a VTOC that passes the sanity check has one map per track, 13 or 16 sectors per track, and was read within the first 216 bytes |
| AppleDisks.Lift | src/disk_format/apple/disk.rs:465-548 | a nom result seen through `?`: success carries the rest and value, a failure its error kind |
| AppleDisks.FormatFromData | src/disk_format/apple/disk.rs:401-430 | an error iff the input is too short for the reads; some guess iff the boot magic and `11 0F 03` at 0x11001 are present, and then a plain DOS 3.3 guess of the data's length |
| AppleDisks.Extension | src/disk_format/apple/disk.rs:343-356 | the text after the last dot, or the whole name when it has none |
| AppleDisks.ExtensionOfDotted | src/disk_format/apple/disk.rs:343-356 | the extension of `stem.ext` is `ext` |
| AppleDisks.LowerChar | src/disk_format/apple/disk.rs:354-356 | capital ASCII letters lower-case to their small letters |
| AppleDisks.FormatFromFilename | src/disk_format/apple/disk.rs:339-383 | a guess iff the extension is do, dsk or nib in any case; nib is the nibbled encoding, and the plain ones are DOS 3.3 of the file's size |
| AppleDisks.NibbleImageFormat | src/disk_format/apple/disk.rs:368-380 | a `.nib` image is DOS 3.3 iff its first prologue ends in 96, and unknown iff it has none |
| AppleDisks.UpperCaseExtensions | src/disk_format/apple/disk.rs:354-382 | upper-case extensions classify like lower-case ones |
| AppleDisks.OtherExtensions | src/disk_format/apple/disk.rs:381 | other extensions give no guess |
| AppleDisks.Apple140KLayout | src/disk_format/apple/disk.rs:433-462 | succeeds iff the track count is 35 or 40 and 143360 bytes are present; track t is the t-th slice; otherwise a plain error |
| AppleDisks.DiskSectors | src/disk_format/apple/disk.rs:504-519 | the split succeeds iff every track has 4096 bytes, and sector s of track t is the s-th 256-byte slice |
| AppleDisks.SplitSectors | src/disk_format/apple/disk.rs:504-519 | the nested push loop computes `DiskSectors` |
| AppleDisks.SplitTrack | src/disk_format/apple/disk.rs:504-519 | cutting a track into sixteen 256-byte sectors succeeds exactly when the track holds 4096 bytes or more, and then gives its chunks in order |
| AppleDisks.TrackSplit | src/disk_format/apple/disk.rs:507-509 | `count(take(256), 16)` succeeds iff the track has 4096 bytes and yields its sixteen slices |
| AppleDisks.PushSectors | src/disk_format/apple/disk.rs:510-516 | the inner loop copies the sectors in order |
| AppleDisks.SectorOffsets | src/disk_format/apple/disk.rs:504-519 | sector s of track t is the 256 bytes at 4096t + 256s |
| AppleDisks.VolumeParser | src/disk_format/apple/disk.rs:465-548 | the step-by-step parser computes `Volume` |
| AppleDisks.CatalogTrackOffset | src/disk_format/apple/disk.rs:465-502 | track 17 is the 4096 bytes at 0x11000 |
| AppleDisks.VolumeShort | src/disk_format/apple/disk.rs:465-548 | an image shorter than 140 KiB is a plain parse error |
| AppleDisks.VolumeChecksVtoc | src/disk_format/apple/disk.rs:492-502 | the VTOC is read at 0x11000, and a VTOC failing the sanity check rejects the disk |
| AppleDisks.BlankDiskRejected | src/disk_format/apple/disk.rs:208-230 | the all-zero image has zero tracks in its VTOC and is rejected |
| AppleDisks.VolumeContents | src/disk_format/apple/disk.rs:465-548 | a parsed volume's VTOC passed the sanity check, its sectors are the image's slices, its catalog is the chain from track 17 and byte 0x11002, and its files are built from that catalog |
| AppleDisks.ImageSectors | src/disk_format/apple/disk.rs:504-519 | a full image splits into 35 tracks of 16 sectors, each the image slice at its offset |
| AppleDisks.AppleDiskDispatch | src/disk_format/apple/disk.rs:559-598 | plain encoding parses only `DOS33(143360)` as a volume, everything else plain is an error; nibbled encoding delegates to `parse_nib_disk` |
| AppleDisks.PlainImagesAreDos33 | src/disk_format/apple/disk.rs:559-598 | an accepted plain image is a 140 KiB DOS 3.3 volume |
| AppleDisks.ParseAppleImage | src/disk_format/apple/disk.rs:602-618 | succeeds iff the disk parser does, with its value; a parse error or incomplete input is `Invalid` |
| AppleDisks.DosSave | src/disk_format/apple/disk.rs:262-288 | an error iff no file is selected or the selected name is missing; when the file can be created, it receives the selected file's data |
| AppleDisks.SaveWritesLastEntry | src/disk_format/apple/disk.rs:262-288 | saving a parsed volume's file writes the data built from the last catalog entry of that name |
| StxCrc.StepsSucc | src/disk_format/stx/mod.rs:54-60 | one more shift-register step at the end is one more step |
| StxCrc.Crc16AddByte | src/disk_format/stx/mod.rs:46-64 | the loop computes `AddByte`: the byte XOR-ed into the high half, then eight shifts with the 0x1021 feedback, all in 16 bits |
| StxCrc.ShiftRegister | src/disk_format/stx/mod.rs:54-60 | one loop pass shifts left in 16 bits and feeds back 0x1021 when the top bit was set |
| StxCrc.CrcOfFour | src/disk_format/stx/mod.rs:46-64 | a CRC over four bytes is four additions in order |
| StxCrc.CrcOfAppend | src/disk_format/stx/mod.rs:46-64 | the CRC of `a + b` continues the CRC of `a` over `b` |
| StxCrc.AddByteExample | src/disk_format/stx/mod.rs:72-87 | the unit test: 0x01 added to 0xFFFF gives 0xF1D1 |
| StxCrc.AddByteExampleTrace | src/disk_format/stx/mod.rs:72-87 | the register trace of that test, step by step |
| StxCrc.SyncMarksCrc | src/disk_format/stx/sector.rs:310-330 | the register after `A1 A1 A1 FE` from 0xFFFF is 0xB230 |
| StxSector.SectorSizeAsBytes | src/disk_format/stx/sector.rs:94-102 | 512 iff the size code is 2, 1024 iff it is 3, and 0 for every other code |
| StxSector.CalculateCrc16OfAddressField | src/disk_format/stx/sector.rs:310-330 | the header CRC is the CRC-16 from 0xFFFF over `A1 A1 A1 FE` then track, head, sector and size, i.e. those four bytes from 0xB230 |
| StxSector.SectorHeaderFields | src/disk_format/stx/sector.rs:190-214 | the ten reads fail only with a plain error |
| StxSector.SectorHeaderLayout | src/disk_format/stx/sector.rs:190-214 | the reads succeed iff sixteen bytes are present, consume sixteen, and yield the little-endian layout with a big-endian ID CRC |
| StxSector.SectorHeaderParserCases | src/disk_format/stx/sector.rs:104-118 | short input is a plain error, a full header with a bad CRC panics, and a good one yields the layout |
| StxSector.SectorHeaderParserDone | src/disk_format/stx/sector.rs:190-220 | an accepted header is its sixteen bytes' layout and passes the sanity check |
| StxSector.AcceptedHeaderCrc | src/disk_format/stx/sector.rs:104-118 | an accepted header's stored CRC is the CRC of its own ID bytes |
| StxSector.DataOf | src/disk_format/stx/sector.rs:127-155 | a sector's data has the length its size code gives |
| StxSector.SectorData | src/disk_format/stx/sector.rs:127-155 | succeeds iff every sector fits, yielding one slice per header measured from the same base and leaving the input unconsumed; otherwise a plain error |
| StxSector.SectorDataParser | src/disk_format/stx/sector.rs:127-155 | the push loop computes `SectorData` |
| StxSector.PlainSectorsLayout | src/disk_format/stx/sector.rs:173-188 | `n` plain sectors consume exactly 512n bytes, cut into sectors, and fewer bytes are a plain error |
| StxSector.WordsOf | src/disk_format/stx/sector.rs:278-290 | 256 words from the first 512 bytes, high byte first |
| StxSector.BootSectorWordsLayout | src/disk_format/stx/sector.rs:278-290 | the word parse succeeds iff 512 bytes are present and yields `WordsOf` |
| StxSector.ParseBootSectorAsWords | src/disk_format/stx/sector.rs:278-290 | the same as a method: 256 big-endian words or a plain error |
| StxSector.WordSum | src/disk_format/stx/sector.rs:292-307 | the running sum reduced modulo 0xFFFF stays below 0xFFFF |
| StxSector.WordSumIsSumModFFFF | src/disk_format/stx/sector.rs:292-307 | reducing at every step is reducing the total once |
| StxSector.CalculateBootSectorSumFromWords | src/disk_format/stx/sector.rs:292-307 | fewer than 512 bytes panic; otherwise true iff the word sum modulo 0xFFFF is 0x1234 |
| StxSector.BootSectorExample | src/disk_format/stx/sector.rs:366-376 | the unit test's sector (0x12 0x34 then zeros) is bootable |
| StxSector.WrappingSumIsSumMod | src/disk_format/stx/sector.rs:292-307 | a wrapping 16-bit accumulator computes the sum modulo 0x10000 |
| StxSector.BootSectorChecksum | src/disk_format/stx/sector.rs:292-307 | the corrected checksum: the same panic, and true iff the 16-bit sum of the words is 0x1234 |
| StxSector.ModFFFFMisjudgesSector | src/disk_format/stx/sector.rs:292-307 | a sector of words 0xFFFF, 0x1235 and zeros has 16-bit sum 0x1234 but is refused modulo 0xFFFF |
| StxTrack.TrackHeaderParser | src/disk_format/stx/track.rs:140-161 | the header reads fail only with a plain error |
| StxTrack.TrackHeaderLayout | src/disk_format/stx/track.rs:140-161 | succeeds iff sixteen bytes are present, consumes sixteen and yields the little-endian layout |
| StxTrack.CheckedTrackHasSectorBlocks | src/disk_format/stx/track.rs:63-78 | every flags value the sanity check accepts has bit 0 set, and a track with sectors has flags 0x61 or 0xC1 |
| StxTrack.TrackHeaderExample | src/disk_format/stx/track.rs:360-410 | the unit tests' header reads back, passes the sanity check with flags 0x61 and fails with 0x62 |
| StxTrack.ImageHeaderSize | src/disk_format/stx/track.rs:316-339 | the track-image header takes 0, 2 or 4 bytes |
| StxTrack.TrackImageHeaderLayout | src/disk_format/stx/track.rs:316-339 | consumes 0, 2 or 4 bytes as bits 6 and 7 say, missing fields are 0, and too few bytes are a plain error |
| StxTrack.SectorBlocksDone | src/disk_format/stx/track.rs:208-267 | a successful sector-block branch holds the counted headers and data sliced after the fuzzy mask |
| StxTrack.TrackParserFailures | src/disk_format/stx/track.rs:187-286 | short input is a plain error; a failing check or a fuzzy mask on a sector-block track panics |
| StxTrack.TrackParserDone | src/disk_format/stx/track.rs:187-286 | an accepted track's header is its first sixteen bytes and passes the sanity check; the parser resumes `block_size` bytes on; headers and data are both present iff the track has sectors, one per sector |
| StxTrack.SectorBlocksOfTrack | src/disk_format/stx/track.rs:208-267 | a track with sectors has no fuzzy mask and its headers and data lie where `SectorsOfTrack` says |
| StxTrack.SectorHeaderParserConsumes | src/disk_format/stx/sector.rs:190-220 | every successful sector header parse has read sixteen bytes |
| StxTrack.SectorHeadersOfTrack | src/disk_format/stx/track.rs:208-230 | the counted sector headers sit back to back after the track header, each passing its CRC check |
| StxTrack.TracksParser | src/disk_format/stx/track.rs:288-292 | `n` tracks on success |
| StxTrack.TracksInOrder | src/disk_format/stx/track.rs:288-292 | the tracks come in input order, each read where the previous record ends, and parsing resumes after the last |
| StxTrack.TrackParserConsumes | src/disk_format/stx/track.rs:187-286 | every accepted track record is `block_size` bytes long |
| StxTrack.TrackParserResumes | src/disk_format/stx/track.rs:187-286 | an accepted track resumes `block_size` bytes on |
| StxDisk.DiskHeaderParser | src/disk_format/stx/disk.rs:145-176 | the header parser fails only with a plain error |
| StxDisk.DiskHeaderLayout | src/disk_format/stx/disk.rs:145-176 | succeeds iff sixteen bytes starting with `RSY\0` are present, consuming sixteen and yielding the layout |
| StxDisk.DiskHeaderExamples | src/disk_format/stx/disk.rs:182-228 | the unit tests: the stock header reads as version 3, tool 1, 82 tracks; a third magic byte of 0x60 is refused |
| StxDisk.DiskParserFailures | src/disk_format/stx/disk.rs:94-141 | no magic is a plain error, and more than 164 tracks panics |
| StxDisk.DiskParserDone | src/disk_format/stx/disk.rs:123-141 | an accepted disk's header is its first sixteen bytes and passes the sanity check, and it holds exactly the counted tracks, parsed from the end of the header |
| StxDisk.DiskTracksInOrder | src/disk_format/stx/disk.rs:123-141 | the tracks of an accepted disk lie back to back from byte 16, each at the offset the earlier records' block sizes give, and the parse resumes right after the last |
| StxDisk.ConcatAppend | src/disk_format/stx/disk.rs:49-56 | concatenation distributes over appending |
| StxDisk.ImageDataAppend | src/disk_format/stx/disk.rs:49-56 | the extracted image of two track runs is the two images in order |
| StxDisk.SectorInImage | src/disk_format/stx/disk.rs:49-56 | sector j of track k sits in the image right after the data of the tracks before k and the sectors before j |
| StxDisk.ImageDataSplit | src/disk_format/stx/disk.rs:49-56 | the image is the tracks before k, track k's data, then the tracks after |
| StxDisk.ConcatSplit | src/disk_format/stx/disk.rs:49-56 | a track's data is the sectors before j, sector j, then the sectors after |
| StxDisk.ImageDataWithoutSectors | src/disk_format/stx/disk.rs:49-56 | tracks without sector data add nothing to the image |
| StxLegacy.ByteSumBound | src/disk_format/stx.rs:522-533 | the byte sum of `n` bytes is at most 255n |
| StxLegacy.BootPrefix | src/disk_format/stx.rs:522-533 | the bytes summed are the first 256, or all of a shorter input |
| StxLegacy.CalculateBootSectorSum | src/disk_format/stx.rs:522-533 | true iff the sum of at most the first 256 bytes is 0x1234; the 16-bit accumulator cannot overflow |
| StxLegacy.ByteSumOfHeadAndZeros | src/disk_format/stx.rs:522-533 | a sector 0x12 0x34 then zeros has byte sum 0x46 |
| StxLegacy.ByteAndWordSumsDisagree | src/disk_format/stx.rs:522-533 | the sector the word-wise sum accepts is refused by the byte-wise sum |
| StxLegacy.TrackParserRefinesLegacy | src/disk_format/stx.rs:581-673 | every track the current parser accepts, the legacy one accepts with the same header, sector headers and resume point |
| StxLegacy.LegacyTracksParser | src/disk_format/stx.rs:677-681 | `n` tracks on success |
| StxLegacy.TracksParserRefinesLegacy | src/disk_format/stx.rs:677-681 | the legacy track sequence agrees with the current one wherever the current one succeeds |
| StxLegacy.DiskParserRefinesLegacy | src/disk_format/stx.rs:441-459 | every disk the current parser accepts, the legacy one accepts with the same header and tracks |
| D64.TrackToBlockLength | src/disk_format/commodore/d64.rs:96-104 | as written: a length iff the track is 1 to 34 (the ranges exclude their upper ends), 21 iff the track is at most 16, 17 iff it is 30 or more; otherwise `Invalid` |
| D64.BlockLengthNeverIncreases | src/disk_format/commodore/d64.rs:96-104 | outer tracks hold at least as many blocks as inner ones |
| D64.AsWrittenZonesMisplaceBam | src/disk_format/commodore/d64.rs:96-104 | as written, tracks 1 to 17 hold 355 blocks, so track 18 would not start at the BAM offset 0x16500, the 35 tracks hold 662 blocks instead of 683, and track 35 is an error |
| D64.AsWrittenBlocksBeforeClosed | src/disk_format/commodore/d64.rs:96-104 | the blocks before each track under the table as written, in closed form |
| D64.CorrectedTrackToBlockLength | src/disk_format/commodore/d64.rs:75-104 | the 1541 zone table: tracks 1 to 35, 21 blocks up to track 17, 17 from track 31 |
| D64.BlocksBeforeClosed | src/disk_format/commodore/d64.rs:75-104 | the blocks before each track under the corrected table, in closed form |
| D64.CorrectedZonesPlaceBam | src/disk_format/commodore/d64.rs:75-104 | the corrected table fills 683 blocks and puts track 18 at the BAM offset |
| D64.BlockToTrack | src/disk_format/commodore/d64.rs:114-122 | as written: a track iff the block is below 682, otherwise `Invalid` |
| D64.BlockToTrackJumps | src/disk_format/commodore/d64.rs:114-122 | as written, block 355 is on track 16, block 356 on track 35 and block 681 on track 70 |
| D64.CorrectedBlockToTrack | src/disk_format/commodore/d64.rs:114-122 | the corrected mapping: a track below 35 iff the block is below 683 |
| D64.CorrectedBlockToTrackIsZoneIndex | src/disk_format/commodore/d64.rs:96-122 | the corrected mapping inverts the corrected zone table: block b is on track t iff it lies between the first blocks of t and t + 1 |
| D64.Bits | src/disk_format/commodore/d64.rs:179-203 | the low `n` bits, least significant first |
| D64.BitsRoundTrip | src/disk_format/commodore/d64.rs:179-203 | reading the bits back as a number gives the number |
| D64.BitsPrefix | src/disk_format/commodore/d64.rs:179-203 | fewer bits are a prefix of more |
| D64.BamEntryToBooleanVector | src/disk_format/commodore/d64.rs:179-203 | the three shift-and-test loops compute `SectorUse`: eight bits of byte 0, eight of byte 1, five of byte 2 |
| D64.PushBit | src/disk_format/commodore/d64.rs:179-203 | one loop step moves one flag from the bits still to read to those pushed |
| D64.SectorUseDecodes | src/disk_format/commodore/d64.rs:179-203 | the 21 flags encode the bitmap: the first eight spell byte 0, the next eight byte 1, the last five the low bits of byte 2 |
| D64.BitmapToChars | src/disk_format/commodore/d64.rs:205-212 | one character per flag, the used character exactly where the flag is set |
| D64.BitmapCharsRoundTrip | src/disk_format/commodore/d64.rs:205-212 | with two different characters the rendering reads back to the flags |
| D64.SectorUseExample | src/disk_format/commodore/d64.rs:711-747 | the unit test's bitmap D7 5F 1F expands to its expected flags |
| D64.BitmapToCharsExample | src/disk_format/commodore/d64.rs:752-769 | the unit test's renderings with X/- and 1/0 |
| D64.FileStatusDecodes | src/disk_format/commodore/d64.rs:361-374 | a byte decodes to a valid status iff its high nibble is that status's code |
| D64.FileTypeDecodes | src/disk_format/commodore/d64.rs:376-390 | a byte decodes to a valid type iff its low nibble is that type's code |
| D64.ExtendedFileTypeRoundTrip | src/disk_format/commodore/d64.rs:361-390 | every valid status and type pair has a byte that decodes back to it |
| D64.BamEntryLayout | src/disk_format/commodore/d64.rs:445-458 | a BAM entry is the next four bytes; a shorter input is a plain error |
| D64.FileEntryLayout | src/disk_format/commodore/d64.rs:553-604 | a file entry is the next thirty bytes, with a little-endian block count; a shorter input is a plain error |
| D64.FileEntryExample | src/disk_format/commodore/d64.rs:771-796 | the unit test's entry: a closed program of 0xD0 blocks from track 17, sector 0 |
| D64.ByteIs | src/disk_format/commodore/d64.rs:501-550 | `verify(le_u8, ...)` succeeds iff the next byte is the expected one |
| D64.BamTailLayout | src/disk_format/commodore/d64.rs:520-528 | the tail after the entries succeeds iff 112 bytes are present with "2A" at its DOS-type offset |
| D64.BamEntriesAt | src/disk_format/commodore/d64.rs:501-550 | one entry per track from the BAM sector |
| D64.BamEntriesCount | src/disk_format/commodore/d64.rs:519 | counting entries reads them four bytes apart |
| D64.BamHeadLayout | src/disk_format/commodore/d64.rs:509-518 | the head succeeds iff it starts 0x12, 0x01, 0x41 |
| D64.BamBodyAccepts | src/disk_format/commodore/d64.rs:519-528 | a sector with "2A" at 0xA5 reads as the BAM at its offsets |
| D64.BamEntriesInSector | src/disk_format/commodore/d64.rs:519 | the 35 entries fill bytes 4 to 143 |
| D64.BamTailInSector | src/disk_format/commodore/d64.rs:520-528 | the tail fills bytes 144 to 255 |
| D64.BamBodyRefuses | src/disk_format/commodore/d64.rs:519-528 | a short sector or one without "2A" is a plain error |
| D64.BamRecordLayout | src/disk_format/commodore/d64.rs:501-550 | the BAM sector reads iff it is acceptable, as its layout |
| D64.BamParserLayout | src/disk_format/commodore/d64.rs:501-550 | accepts exactly images with an acceptable BAM sector at 0x16500, consuming exactly that sector; failures are plain errors |
| D64.ParsedBamPassesCheck | src/disk_format/commodore/d64.rs:485-550 | a parsed BAM always passes the sanity check, and entry k is the four bytes at 4 + 4k of the BAM sector |
| D64.FileEntriesCount | src/disk_format/commodore/d64.rs:607-626 | counting file entries reads them thirty bytes apart |
| D64.DirectoryLayout | src/disk_format/commodore/d64.rs:607-626 | the directory block is the next 242 bytes at fixed offsets, with both pointers always present |
| D64.D64DiskLayout | src/disk_format/commodore/d64.rs:628-638 | accepts exactly images with an acceptable BAM followed by a whole directory block; every failure is a plain error |
| D64.DirectoryIsWhereBamPoints | src/disk_format/commodore/d64.rs:628-638 | the block read as the directory is track 18, sector 1 under the corrected table, which the BAM's first two bytes name |
| Image.DiskImageParserPriority | src/disk_format/image.rs:478-491 | an image with an acceptable D64 BAM and directory is a D64 disk whatever its first bytes; every other image is what the STX parser makes of it, since D64 fails only recoverably |
| Image.ShortImagesAreStx | src/disk_format/image.rs:478-491 | a file too short for D64 is parsed as STX: no magic is a plain error, more than 164 tracks panics |
| Image.GuessPriority | src/disk_format/image.rs:531-557 | a guess iff the extension is d64, do, dsk or nib in any case; d64 gives the Commodore guess first, the others the Apple guess; never an STX guess |
| Image.DskFilesAreApple | src/disk_format/image.rs:596-640 | the unit test: a `.dsk` file is a plain DOS 3.3 guess of its size |
| Image.UpperCaseD64 | src/disk_format/commodore/disk.rs:61-84 | upper-case D64 names are Commodore guesses too |
| Image.FileParserOutcomes | src/disk_format/image.rs:435-473 | no guess reaches `todo!()`; a D64 name succeeds iff the data holds an acceptable BAM and directory, otherwise `Invalid`; an Apple name gives what the Apple parser gives |
| Image.FileParserAndParseGuess | src/disk_format/image.rs:338-473 | on Apple guesses the two entry points agree; on a D64 guess `parse_disk_image` is `Unimplemented` while `file_parser` parses it |
| Image.SaveOutcomes | src/disk_format/image.rs:363-405 | saving is `Unimplemented` exactly for D64 and ProDOS images; the only other failures are a DOS 3.3 save without a selected name or with a missing one |
| Image.ImageDataIsSavedData | src/disk_format/image.rs:562-582 | `disk_image_data` is present exactly for STX images and is what saving one writes |
| Image.StxSectorInData | src/disk_format/image.rs:562-582 | for an STX image, sector j of track k sits in the extracted data right after the tracks and sectors before it |

## Left out

- Display and Debug: the `fmt` implementations and the PETSCII and text renderings of names are not modelled. They only format output.
- Catalog listing: `DiskImageOps::catalog` (image.rs:407-432) and `D64Disk::catalog` (d64.rs:667-684) only build display strings from the parsed structures, which the model does exhaustively describe.
- File and configuration I/O: reading files, `File::create`, `write_all`, `fs::metadata` and config loading are outside the model. The `ignore-checksums` setting, the file size and whether the output file can be created are parameters instead; the panic of `fs::metadata` on a missing file is not modelled.
- Log messages and error strings: `error!` and `info!` calls and the text inside error values are dropped; only the error's kind is kept.
- Legacy sector data: `stx_sector_data_parser` of stx.rs:536-576 is not modelled. The legacy track parser no longer calls it (its call at stx.rs:648-649 is commented out), and it dumps sector data to a file.
- `stx_sync_markers_parser` (stx/sector.rs:266-274, stx.rs:777-786) is not modelled: no parser calls it, and it is a plain `take(4)`.
- Legacy duplicates: the copies in stx.rs of the header parsers, `sector_size_as_bytes`, `calculate_crc16` and `crc16_add_byte` are identical to the stx/ modules and are modelled once there (`StxLegacy` imports them).
- `parse_6_and_2_nibblized_data` (nibble.rs:221-229) and `nibblize_data` (nibble.rs:396-431) are not modelled: nothing in the library calls them. The sector encoder the second one loops over, `build_nibble_sector`, is modelled as `Nibble.BuildNibbleSector`, including the panic on a final block shorter than 256 bytes.
- `valid_file_entry` (catalog.rs:574-604) is not modelled: its only use is commented out, and `valid_file` (modelled in `AppleCatalog.ValidEntries`) does the same job.
- `Catalog::get_file` (catalog.rs:771-777) is not modelled: it always returns an empty vector.
- `D64Disk`'s own `parse_disk_image` and `save_disk_image` (d64.rs:655-698) are not modelled directly. The format-independent parser and `file_parser` parse D64 data, and saving a D64 image reaches the dispatch's `Unimplemented` arm (`Image.SaveOutcomes`).
- error.rs, lib.rs, the `mod.rs` wiring and the command-line example program are not part of this model; only their error kinds appear.
- Apple guesser: apple/disk.rs has no `DiskImageGuesser` implementation for `AppleDiskGuess`. Its parse is `AppleDisks.ParseAppleImage` (apple/disk.rs:602-618), and the guess is `AppleDisks.FormatFromFilename`.
- STX guesser: there is no STX guess type in these files, so an STX guess carries the image data only.
- STX save: `STXDisk::save_disk_image` (stx/disk.rs:47) returns no result, so the dispatch treats it as success. `Image.SaveDiskImage` returns the bytes written.
- Cargo features: the model assumes the `commodore` feature is enabled. Without it the D64 arms of the guesser, `DiskImageParser`, `file_parser` and `save_disk_image` are compiled out (image.rs:23, 49, 64, 277, 328, 348, 394), so a `.d64` file is neither guessed nor parsed.
- Nibble.CorrectedNibbleSector: keeps the source's 256-byte minimum as a precondition; `Nibble.BuildNibbleSector` models the panic below it. The internal steps `Nibble.StageNibbleData` and `Nibble.NibbleSector` are only reached past that length test.
- Commodore dispatch: the documentation says a Commodore guess is not parsed by `parse_disk_image`. The code agrees (image.rs:338-361 returns `Unimplemented`), while `file_parser` does parse D64 data; `Image.FileParserAndParseGuess` states both.
- Integer widths: Rust `u16` and `u32` arithmetic is modelled explicitly where the source can overflow. Debug-build overflow panics are modelled as panics, as in `AppleFiles.BinaryPayload` and `AppleFileEntry.FileEntryBytes`.
- AppleFiles.CatalogChain: carries a step bound (`fuel`). A chain of catalog sectors that loops makes `parse_catalogs` run for ever (`AppleFiles.CatalogSelfLoop`); the model reports `OutOfFuel` instead.
- AppleFiles.FollowCatalogs: the same step bound as `CatalogChain`, for the loop of `parse_catalogs`.
- AppleFiles.TrackSectorLists: carries a step bound, because a looping chain of track/sector lists makes `build_file` run for ever.
- AppleFiles.BuildFile: the same step bound as `TrackSectorLists`, for the loop of `build_file`.
- AppleDisks.VolumeParser: passes the step bound on to the catalog and file chains, and reports running out as `Diverges`.

## Findings

| source | as written | input that shows it | evidently intended | confidence | as-written member | corrected member |
|---|---|---|---|---|---|---|
| src/disk_format/apple/nibble.rs:345-393 | `build_nibble_sector` writes a checksum byte that cancels only some running XORs, so its own decoder refuses most of the sectors it encodes | a sector of 256 bytes 0xFF: its data field decodes to a checksum panic | the checksum byte is the last staged value through the write table, so every encoded sector decodes back | medium, not executed | Nibble.NibbleSectorChecksumCounterexample | Nibble.CorrectedNibbleSectorRoundTrip |
| src/disk_format/apple/nibble.rs:519-536 | `parse_nib_disk` runs `many0` over a streaming `take_until`, so reaching the end of the image while looking for the next field reports `Incomplete` for the whole image | the empty image, or any sequence of whole fields | running out of input ends the list of fields, and the image is assembled from them | medium, not executed | NibbleImage.NibDiskEmpty | NibbleImage.CorrectedNibDiskOfFields |
| src/disk_format/apple/catalog.rs:189-222 | `parse_track_sector_list` keeps at most 121 pairs, but a list sector has room for 122 | a 256-byte list whose 122 slots all name a nonzero track: the last pair is dropped | all 122 pairs of a full list are kept | medium, not executed | AppleTrackSectorList.FullListDropsLastPair | AppleTrackSectorList.CorrectedTrackSectorListRoundTrip |
| src/disk_format/apple/catalog.rs:366-390 | `get_data` computes `len + 4` in `u16`, which overflows for lengths of 0xFFFC and more | a Binary file of 0xFFFC bytes: reading it back panics | the sum is computed in a wider type, so every length comes back | medium, not executed | AppleFiles.BinaryPayloadOverflows | AppleFiles.CorrectedBinaryPayloadRoundTrip |
| src/disk_format/stx/sector.rs:292-307 | the boot-sector word sum is reduced modulo 0xFFFF instead of taken in wrapping 16-bit arithmetic | words 0xFFFF and 0x1235 followed by zeros: an executable boot sector that is refused | the sum wraps at 0x10000, as the Atari ST's checksum does | medium, not executed | StxSector.ModFFFFMisjudgesSector | StxSector.BootSectorChecksum |
| src/disk_format/commodore/d64.rs:96-104 | the exclusive ranges of `track_to_block_length` give 19 blocks to track 17, 18 to track 24 and 17 to track 30, and reject track 35 | track 35 is rejected, and tracks 1 to 17 add up to 355 blocks rather than the 357 that put the BAM at 0x16500 | tracks 1-17 have 21 blocks, 18-24 have 19, 25-30 have 18 and 31-35 have 17 | medium, not executed | D64.AsWrittenZonesMisplaceBam | D64.CorrectedZonesPlaceBam |
| src/disk_format/commodore/d64.rs:114-122 | `block_to_track` divides by the wrong zone bases, so track numbers jump | block 356 maps to track 35, and block 681 to track 70 of a 35-track disk | the track holding the block, counted through the zones in order | medium, not executed | D64.BlockToTrackJumps | D64.CorrectedBlockToTrackIsZoneIndex |
