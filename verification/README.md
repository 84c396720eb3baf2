# A model of the RPM header editor, parser, printer and signer

The modelled system is a signer for RPM files that works without the payload: it reads the two
headers of a file, signs the main header, stores the signature in the signature header, and
writes the file again. A client can leave the signing to a server, to which it sends only the
bytes in front of the payload. This project models that system in Dafny, from single bitmap words
up to the bytes that client and server exchange, and proves what it is meant to guarantee, for
all inputs and over whole runs.

`dafny verify dfyconfig.toml` checks the project.

## How it is built

Code that works in place is a class or a method with the source's loops: the bitmap and the
sparse array in front of `Write`, the header editor `RpmHeader` (its index entries, their
offsets, the counters and the trailer bytes are fields that the methods update; a Go pointer into
the slice of entries is an index together with the number of the backing array it was taken
from), the readers, the parser, the writer, and both ends of remote signing. Every such method is
proved equal to a function of its old state, and what the system promises is proved about those
functions.

| files | contents |
|---|---|
| `Bits`, `Utils`, `Words` | machine words bit by bit, alignment, big-endian words |
| `WireFormat` | the file format in its own numbers, independent of the code |
| `Bitmaps`, `DynamicArrays` | a set of positions in 64-bit words; a byte array that refuses overlapping writes |
| `Headers`, `Layouts` | header values; where the data of the entries is put |
| `Editing`, `HeaderStores` | the edits as functions, and the class whose methods compute them |
| `HeaderMaps`, `Multimaps` | edits as updates of a map from tags to contents, and of the list of contents each tag has when tags repeat |
| `EditorRuns`, `MapRuns`, `Allocator`, `Spaces`, `StoreGrowth` | runs of edits, reserved space, allocation, and how much space all of it takes |
| `Formats`, `RpmFiles` | which bytes are a header or a file, what they mean, and what is written |
| `HeaderLaws`, `FileLaws`, `SigningLaws` | that parser, writer, editor and signer agree with the format, number by number |
| `Streams`, `Parsing`, `Writing` | readers that cut up their bytes, the parser and the writer as methods |
| `Signing`, `SigningRuns`, `Progress` | signing a header, again and again, without a panic |
| `SignedShapes`, `SignedFiles`, `FileRuns` | when a signed header can be read back, what a signed file parses as, and whole runs of signing, writing and reading |
| `RemoteSigning` | signing in one place, and split between client and server |
| `Examples`, `StrayWrites` | accepted files that show what the laws leave open, and what a stale pointer can hit |

The functions that the methods compute name tags, types and sizes by the code's constants and use
the code's arithmetic. `WireFormat` states the same format a second time, in plain numbers: which
bytes are a header with which payloads, where data of a type may be, what spells a digest. The laws
in `HeaderLaws`, `FileLaws`, `SigningLaws` and at the end of `Layouts` connect the two, in both
directions.

Signing is a function of a key and the digested bytes, of which nothing else is known; so are the
hashes, and a digest in progress is the bytes it has absorbed. The growth policy of `append` is
the function `Growth`; how a source cuts up its reads, and whether it reports its end together
with its last bytes, are functions given to the reader. `slices.SortFunc` is modelled by a method
of which callers know no more than that it returns the indices ordered by offset, ties in any
order. An error return of the parser and a panic of the parser are both "not accepted". In the
editor a panic is a precondition, and `Progress` says when it holds: for a run for which there is
room, exactly if its operations fit the header at the outset.

## What came out

- `SetOrAddIndexEntry` keeps a pointer to an entry across an allocation (lines 862 to 891 of
  `common/rpmparser.go`). When there is no reserved space yet, the allocation inserts an entry,
  and if the slice has to move or the entry is shifted, the new payload is written to the wrong
  place. `HeaderMaps.SetOrAddIsMapUpdate` gives the exact condition; for a signature,
  `Signing.LostIffStale` gives it in terms of the header before signing, whatever the order of its
  tags, and `Signing.LostWhenSorted` in short for sorted tags.
  `Examples.AcceptedFileLosesSignature` is an accepted file with sorted tags on which `SignRpm`
  reports success and the signature is lost. One reserved entry rules it out for good
  (`MapRuns.ReservationPreventsStale`, `SigningRuns.LastSignatureIsStored`).
- The parser does not check that the tags of the signature header ascend or differ. Without that, a
  lost signature can overwrite the entry in front of it. `StrayWrites.AcceptedFileIsRuined` is an
  accepted file whose region trailer is hit: `SignRpm` reports success, and what is written is not
  accepted. `SignedFiles.SigningPreservesAcceptance` says for every accepted file exactly when the
  signed file is read back: the main header's store is tight, reserved space that is used keeps the
  shape of its format, an entry that is hit can hold the packet, and the region of the first trailer
  is up to date. Sorted tags and BINARY reserved space are enough (`SignedFiles.SortedSurvives`).
- `SignRpm` deletes one entry of each other signature tag. So V3 is still reported afterwards exactly
  if a V3 tag occurred more than once (`Signing.SignedVersions`), and after n signatures exactly if it
  occurred more than n times (`SigningRuns.OneSignatureRemains`).
- A stale pointer of a tag above 1008 can hit the reservation that was just made. If the count that is
  set goes beyond the payload, the next allocation takes it at its word, and the header outgrows the
  32-bit store (`StrayWrites.RunIsNotConsistent`).
- The signature is computed over the bytes that were read, but the verifier checks the main
  header written anew. The two agree exactly when the store holds payloads and zeros only and ends
  with the last payload (`SignedFiles.VerifierChecksDigestedBytes`); the parser does not ask for
  that (`Examples.AcceptedStoreIsNotTight`).
- The comment above `syncDataStoreLayout` calls it a no-op on a header that was parsed and not
  modified. It is one exactly when every entry follows the one before it as closely as its
  alignment lets it, and the store ends with the data (`Layouts.PackedIffTight`). The parser does
  not ask for that either (`Examples.AcceptedFileIsNotPacked`).
- A file that was read and is written again comes back, up to its payload, exactly when its main
  header's store is tight and everything between the index of the signature header and the main header
  is data or zero, with less than 8 bytes behind the data (`FileLaws.ParseThenPrintFile`): zeros at the
  end of the signature header's store that no entry claims count as padding then.
- `readAhead` of more than 100 KiB fails on a source that returns less than it was asked for,
  although the bytes are there. `Streams.Input.ReadAhead` gives the exact condition, and
  `Streams.ReadAheadByBytes` a source for every such length.
- `parseHeader` formats every entry for a debug message, enabled or not, and the formatting
  panics on a STRING whose count is not 1 and on counts whose byte size overflows 32 bits. So the
  parser accepts no header with such an entry (`Formats.ReadPayloadsPrettyPrint`;
  `Formats.ReadDoesNotPrint` is one).
- A refused `Bitmap.Set` leaves the part of its range in front of the word with the first conflict
  marked, so a `DynamicArray` that has refused a write refuses later ones that overlap no data.
  `DynamicArrays.DynamicArray.Write` says exactly which, and `DynamicArrays.RefuseTwice` shows
  one. The data is not affected.

## Model

| member | source | states |
|---|---|---|
| Bits.BitOfMask | common/bitmap.go:66-76 | the shifted mask `((1<<n)-1)<<s` has exactly the bits s to s+n-1, also for n = 64 where the shift overflows to zero |
| Utils.CalcAlignmentByteCount | common/utils.go:81-92 | for every alignment the source accepts, the masked subtraction yields a padding below it that makes the address a multiple of it |
| Utils.AlignmentsArePowersOfTwo | common/utils.go:21-23 | of the alignments that fit into a byte, the test lets exactly 1, 2, 4, 8, 16, 32, 64 and 128 pass |
| Utils.PaddingIsLeast | common/utils.go:78-92 | any other padding that aligns the address is at least as large |
| Utils.GrowSliceIfNecessary | common/utils.go:94-116 | afterwards the slice can be indexed there (save for the last 32-bit index), old elements are kept and new ones are zero; an index in range changes nothing |
| Bitmaps.Bitmap.SimpleWrite | common/bitmap.go:58-83 | true iff no position of the range was marked, and then exactly the range is added; false changes no mark |
| Bitmaps.Bitmap.Set | common/bitmap.go:85-132 | true iff the whole range was unmarked, and then exactly the range is added, over any number of words; false adds exactly its part in front of the word with the first conflict, nothing if it starts in that word |
| DynamicArrays.DynamicArray.Write | common/dynamicarray.go:31-49 | refuses exactly what overlaps an accepted write or the leftover of a refused one; an accepted write is remembered, a refused one leaves the data alone and a leftover that is given exactly |
| DynamicArrays.LeftoverRefuses | common/bitmap.go:102-131 | a write that overlaps no data and is refused for the leftover of another |
| DynamicArrays.RefuseTwice | common/dynamicarray.go:31-55 | one byte at 64 is accepted, 65 bytes at 0 are refused, and then one byte at 0 is refused, with nothing but the first byte stored |
| DynamicArrays.DynamicArray.GetData | common/dynamicarray.go:51-55 | the image of the accepted writes |
| DynamicArrays.ImageHoldsPieces | common/dynamicarray.go:9-23 | the image of disjoint pieces holds each at its offset, zeros in the gaps, and ends with the piece that ends last |
| DynamicArrays.ImageIsUnique | common/dynamicarray.go:9-23 | these properties determine the image |
| DynamicArrays.ImageIgnoresOrder | common/dynamicarray.go:31-55 | the same pieces written in any order give the same image |
| Words.WordRoundTrip | common/serializer.go:339-352 | reading a written 32-bit word gives it back |
| Words.WordIsInjective | common/serializer.go:370-391 | writing a word that was read gives its four bytes back |
| Words.RegionRoundTrip | common/rpmparser.go:805-832 | for every count below 2^28 the negated region size that is stored is decoded to the count |
| Layouts.LaidOutIsLayout | common/rpmparser.go:778-799 | the computed offsets are aligned, keep index order without overlap, put the trailer behind everything, and the store ends where they end |
| Layouts.LaidOutIsLeast | common/rpmparser.go:766-799 | no layout puts any entry at a smaller offset or needs a smaller store |
| Layouts.BoundaryIs | common/rpmparser.go:99-122 | the alignment of a type is 2, 4 and 8 for types 3, 4 and 5, and 1 for all others, as places for data: even offsets, multiples of 4 and of 8, any offset |
| Layouts.PaddingLeadsThere | common/utils.go:78-92 | the padding of the source leads from any offset to the first place for the type that is not in front of it |
| Layouts.PlacedInNumbers | common/rpmparser.go:778-799 | each entry is put at the least place for its type, in numbers, that is behind the data of all entries before it; the trailer, the first entry with tag 62, or 63 in a main header, is put behind all others |
| Layouts.StoreInNumbers | common/rpmparser.go:795-799 | the store size is where the last data ends |
| Layouts.SyncIsIdempotent | common/rpmparser.go:775-799 | laying out twice is laying out once |
| Layouts.SyncIgnoresOffset | common/rpmparser.go:778-799 | where an entry was before has no influence on the layout |
| Layouts.PackedIffTight | common/rpmparser.go:775-777 | laying out changes nothing iff every entry is at the first aligned place behind the one before it, the trailer comes last, and the store ends with the data |
| Layouts.PackedIffLeast | common/rpmparser.go:766-799 | laying out changes nothing iff the offsets are a layout that no layout beats anywhere, and the store ends with the data |
| HeaderStores.RpmHeader.FindIndexEntry | common/rpmparser.go:1018-1028 | the first entry with the tag, or none |
| HeaderStores.RpmHeader.SyncDataStoreLayout | common/rpmparser.go:778-799 | the loop computes the layout function, whose offsets are given by `Layouts.PlacedInNumbers` |
| HeaderStores.RpmHeader.UpdateSignedRegionTrailer | common/rpmparser.go:805-832 | rewrites bytes 8 to 11 of the trailer and the signed count for the present number of entries, and nothing else |
| HeaderStores.RpmHeader.IsAtEndOfDataStore | common/rpmparser.go:834-858 | whether the entry is the one that ends last, the trailer not counted |
| HeaderStores.RpmHeader.FindNextSuitableOffset | common/rpmparser.go:585-609 | the aligned offset behind the entry with the largest offset, the trailer not counted |
| SigningLaws.AtEndMeans | common/rpmparser.go:834-858 | an entry is at the end iff its tag is that of the first of the entries that end last, the entry with tag 62, or 63 in a main header, not counted |
| SigningLaws.NextOffsetMeans | common/rpmparser.go:585-609 | that offset is the first place for the type behind the first of the entries with the largest offset |
| HeaderStores.RpmHeader.InsertIndexEntry | common/rpmparser.go:730-752 | the new header is the old one with the entry before the first larger tag, counted, trailer rewritten, laid out |
| HeaderStores.RpmHeader.AllocateSpaceInDatastore | common/rpmparser.go:616-712 | the recursive allocator ends, and computes the address and the header of the allocation function |
| HeaderStores.RpmHeader.SetOrAddIndexEntry | common/rpmparser.go:860-905 | the new header is that of the set-or-add function, including the write through a pointer that went stale |
| HeaderStores.RpmHeader.DeleteIndexEntryIfExists | common/rpmparser.go:562-580 | the new header is the old one without the first entry of the tag, trailer rewritten, laid out; unchanged if there is none |
| Editing.RoomyIsReady | common/rpmparser.go:616-712 | with room, no activation of the allocator panics, whatever path it takes |
| Editing.GrowingSuffices | common/rpmparser.go:647-711 | after the reservation was enlarged the next activation serves the request |
| Editing.ReservingSuffices | common/rpmparser.go:617-626 | a fresh reservation serves the request it was made for |
| HeaderMaps.SetOrAddIsMapUpdate | common/rpmparser.go:860-905 | set-or-add is a map update that touches no other tag but the reservation, iff no stale pointer is written through; if one is, the entry keeps its old contents |
| Multimaps.DeleteIsMapRemoval | common/rpmparser.go:562-580 | deletion removes the tag and touches no other, iff the tag occurs at most once; deleting what is not there changes nothing |
| Multimaps.DeleteItemsWith | common/rpmparser.go:562-580 | deletion takes the first item of the tag away and leaves the items of every other tag, for any order of tags |
| Multimaps.SetOrAddItemsWith | common/rpmparser.go:860-905 | set-or-add replaces the first item of its tag or adds one, and loses no entry whatever a stale pointer hits; only items of the tag that is hit can change besides |
| EditorRuns.RunIsSound | common/rpmparser.go:562-905 | over every run from a sorted header the tags ascend, the counts agree, the trailer's words are valid and its region covers all entries; the header is packed from the first edit on that finds something to do, and unchanged if none does |
| EditorRuns.RunIsFramed | common/rpmparser.go:562-905 | over every run from any header, wherever pointers hit, entry count, formats, payloads and slice agree, the header is packed from the first edit on that finds something to do, and unchanged if none does |
| SigningLaws.IntactInNumbers | common/rpmparser.go:805-832 | what every run from a sorted header keeps, in numbers: types 1 to 9, payloads, counts, and a first entry with tag 62 of 16 bytes that says tag 62, type 7, count 16 and the number of entries |
| SigningLaws.TagsOfEditor | common/signatureheadertags.go:22-45 | the tags of the editor's own are 62 and 1008; the trailer of a main header has tag 63 |
| SigningLaws.ReservationInNumbers | common/rpmparser.go:689-697 | reserved space as the editor leaves it is a first entry with tag 1008, type 7, and its length as its count |
| Spaces.RunIsConsistent | common/rpmparser_test.go:57-121 | every run from a sound header below the end of the 32-bit store ends in a header that passes the tests' consistency check: counts, sorted tags, aligned disjoint data in index order, trailer last, store size equal to what is written; given reserved space that counts no more than it has, or none and no operation that could make it so |
| Spaces.RunSpace | common/rpmparser.go:562-905 | under the same condition on the reserved space, no run of edits takes any header, sorted or not, past the end of the 32-bit store |
| StrayWrites.RunIsNotConsistent | common/rpmparser.go:862-891 | a sound packed header and a run of two edits without that condition, after which it fails the check |
| EditorRuns.SettledIsConsistent | common/rpmparser.go:766-799 | a sound packed header passes that check |
| EditorRuns.RegionOfUpdate | common/rpmparser.go:805-832 | an updated trailer is still valid and reads back as the number of entries |
| MapRuns.RunUpdates | common/rpmparser.go:562-905 | a run of edits makes of a sorted header what it makes of the map it represents, if no pointer goes stale |
| MapRuns.RunEdits | common/rpmparser.go:562-905 | for any order of tags, a run of edits without a stale write sets and removes the first item of each tag in turn |
| MapRuns.ReservationPreventsStale | common/rpmparser.go:862-891 | with reserved space in the header, sorted or not, no pointer goes stale in any run, and the reserved space stays |
| MapRuns.RunFromReservation | common/rpmparser.go:562-905 | from a sorted header with reserved space every run is a run of map updates |
| MapRuns.OneAllocationLaw | common/rpmparser.go:628-711 | one activation takes request and padding off a larger reservation, starts an exactly used up one over with 4096 bytes, and enlarges one that is too small; the address is behind the padding, the reservation behind the request, and all zero |
| MapRuns.PaddingInNumbers | common/rpmparser.go:637-640 | the padding leads to the first place for the type, and is 0 for types other than 3, 4 and 5 |
| MapRuns.AllocationLaw | common/rpmparser.go:616-712 | with reserved space r, a request n with padding a leaves r-n-a zero bytes if that is positive, 4096 if it is 0, and else 4096+a less the padding at the enlarged reservation's offset, which is 4089 to 4103, and exactly 4096 for types other than 3, 4 and 5 |
| MapRuns.FirstAllocationLaw | common/rpmparser.go:616-697 | the first allocation leaves 4096 zero bytes, plus the padding at the next suitable offset before, less the padding at the offset the reservation was laid out at: 4089 to 4103, and exactly 4096 for types other than 3, 4 and 5 |
| MapRuns.RunReservationLaw | common/rpmparser.go:628-711 | over every run, reserved space that counts no more than it has stays so, is not empty, and is at most the larger of its first size and 4103; a count equal to the length stays equal |
| Allocator.AllocatedIsFree | common/rpmparser.go:585-712 | from any disjoint layout with at most one reservation, which counts no more than it has, and with at most one call to itself, the allocator returns a place for the type, in numbers, whose bytes overlap no entry but the trailer, also not the reservation it shrank, moved or made |
| Allocator.SyncedIsDisjoint | common/rpmparser.go:766-799 | a header that was laid out has disjoint data |
| StoreGrowth.AddingCostsPaddingOnly | common/rpmparser.go:611-646 | a byte-aligned entry added at the expense of the last entry's reserved space changes the store size by at most 7 bytes, and not at all for a multiple of 8 bytes |
| Formats.ReadPayloadsPrettyPrint | common/rpmparser.go:221-291 | of the payloads that can be read, pretty-printing succeeds iff a STRING has count 1 and a number's size does not overflow |
| Formats.ReadDoesNotPrint | common/rpmparser.go:221-291 | a STRING of count 2 that is read and cannot be pretty-printed |
| Formats.PayloadSizeIsLocal | common/rpmparser.go:317-375 | how much a payload takes depends on no byte behind it |
| HeaderLaws.ShapeIsPayload | common/rpmparser.go:317-375 | of the payloads that fit a store, the parser takes exactly those with 1 byte for type 1, count bytes for types 2 and 7, 2, 4 and 8 times count for types 3, 4 and 5, up to the first zero for type 6 with count 1, and count strings for types 8 and 9 |
| HeaderLaws.AcceptedIffHeader | common/rpmparser.go:1165-1307 | the parser accepts exactly the bytes that are a header: magic number, counts, an index of four numbers for each entry, disjoint payloads of these sizes in the store, trailers with tag 62 and their words, and in front of a main header the next multiple of 8 |
| HeaderLaws.ParsedIsSaid | common/rpmparser.go:1140-1307 | what it makes of a header: version, reserved bytes, counts, and of each entry tag, type, offset, count and payload as the bytes say, most significant byte first |
| HeaderLaws.SignedIsSaid | common/rpmparser.go:1266-1293 | the number of signed entries is that in the trailer whose payload comes last |
| HeaderLaws.TrailerIs | common/rpmparser.go:1268-1293 | the four words of a trailer, byte by byte, and its negative offset divided by 16 |
| Formats.AcceptedHeader | common/rpmparser.go:1228-1264 | accepted payloads are disjoint, not empty, inside the store, equal to the store at their offsets, and of the shape their type needs |
| Formats.PrintThenParse | common/rpmparser.go:907-990 | a well-formed header that was written is read back: order, tags, types, offsets, counts, payloads, sizes |
| Formats.ParseThenPrint | common/rpmparser.go:1165-1307 | writing what was parsed gives the same bytes iff the store holds payloads and zeros only and ends with the last payload |
| Formats.AcceptedIsWellFormed | common/rpmparser.go:1165-1307 | an accepted header with such a store is well-formed, so it survives being written |
| Formats.ParsingIsLocal | common/rpmparser.go:1165-1307 | what is parsed depends only on the bytes of the header and its padding |
| RpmFiles.LeadRoundTrip | common/rpmparser.go:1340-1420 | a lead takes 96 bytes and is read back as it was written |
| RpmFiles.LeadBytesRoundTrip | common/rpmparser.go:1340-1420 | writing a lead that was read gives its 96 bytes back |
| FileLaws.LeadSays | common/rpmparser.go:1373-1420 | which bytes of the lead are which field |
| RpmFiles.PrintThenParseFile | common/rpmparser.go:1494-1561 | lead, both headers and the digested bytes of a written file are read back; the payload starts at 96 plus the signature header rounded up to 8 plus the main header |
| FileLaws.PaddingIsZero | common/serializer.go:192-206 | in a written file less than 8 zero bytes lead from the signature header to the main header, which is at a multiple of 8 |
| FileLaws.ParseThenPrintFile | common/rpmparser.go:1494-1561 | writing what was read gives the bytes in front of the payload back, iff the main header's store is tight, the data of the signature header ends less than 8 bytes in front of the main header, and all between its index and the main header that is not data is zero |
| FileLaws.ReadIffFile | common/rpmparser.go:1521-1561 | the headers of a file are read iff the bytes are a lead with its magic number, a signature header, and a main header at the next multiple of 8 |
| FileLaws.ParsedFileIsSaid | common/rpmparser.go:1521-1561 | both headers are read as what they say, what is digested is the main header from its first byte to its last, and the payload is behind it |
| FileLaws.DecodedIsSpelled | common/rpmparser.go:1077-1089 | hexadecimal decoding yields the digest that the string spells, in letters of either case |
| FileLaws.AcceptedIffPasses | common/rpmparser.go:1044-1110 | a file whose headers are read is accepted iff its type is 0 or 1, its version (tag 5114, or else the lead) is at most 4, the region covers all entries, a size with tag 257 or else 1000 is a number, entries with tags 269 and 273 spell the SHA1 and the SHA256 digest of the main header, and there is one of these or of tags 1004 and 261 |
| Examples.AcceptedFileHasDigests | common/rpmparser.go:1077-1106 | for any hash functions with digests below 100 bytes, an accepted file that carries both digests |
| RpmFiles.FileParsingIsLocal | common/rpmparser.go:1521-1561 | a file is parsed from its bytes in front of the payload alone |
| Streams.Input.FillBuffer | common/utils.go:258-278 | however reads are cut short, all bytes asked for are returned in order iff they are there |
| Streams.Input.ReadAhead | common/serializer.go:293-326 | success means exactly n bytes were consumed; up to 100 KiB it succeeds iff they are there, beyond iff every read returns all it asked for |
| Streams.Input.WholeReadsAreFull | common/serializer.go:454-473 | a reader over an array serves every readAhead it has the bytes for |
| Streams.ReadAheadByBytes | common/serializer.go:293-326 | for every n above 100 KiB a source that has n bytes and hands them out one at a time fails readAhead(n) |
| Streams.Input.AdvanceToNext8ByteBoundary | common/serializer.go:208-214 | consumes the least padding that aligns the offset |
| Streams.Input.ReadWord | common/serializer.go:370-391 | the next four bytes, most significant first |
| Streams.Input.ReadNullTerminatedString | common/serializer.go:216-229 | the bytes up to and including the next zero, iff there is one |
| Parsing.PopulatePayload | common/rpmparser.go:317-375 | takes as many bytes as the size function says, which is given in numbers by `HeaderLaws.ShapeIsPayload`, numbers with a 32-bit product |
| Parsing.CheckTrailer | common/rpmparser.go:1266-1293 | passes iff the four words are valid, and yields the region's number of entries |
| Parsing.ScanStore | common/rpmparser.go:1228-1299 | for any order of equal offsets, the scan succeeds iff every payload is readable and all are disjoint, and fills the entries from the store |
| Parsing.ParseHeader | common/rpmparser.go:1165-1307 | independent of how reads are cut: accepts exactly the acceptable bytes, consumes the header and its padding, and the three digests absorb exactly the main header's bytes, once and in order |
| Parsing.ParseLead | common/rpmparser.go:1373-1420 | reads 96 bytes, iff they are there and start with the magic number |
| Parsing.ParseRpm | common/rpmparser.go:1521-1580 | independent of how reads are cut: accepts exactly the acceptable files, which are given in numbers by `FileLaws.ReadIffFile` and `FileLaws.AcceptedIffPasses`, stops at the first byte of the payload, and every observer has seen the bytes in front of it exactly once |
| Writing.Output.CopyFrom | common/rpmparser.go:1506-1512 | appends all that is left in a reader |
| Writing.WriteEntries | common/rpmparser.go:947-990 | goes through iff all offsets are places for their types and data is pairwise disjoint, and then emits the index and the image of the payloads; else tells how the first entry fails that does not go through |
| Writing.WriteHeader | common/rpmparser.go:907-990 | succeeds iff every offset is a place for its type, in numbers, and data is disjoint; else the first entry that does not go through decides: a wrong offset is an error, an overlap a panic; emits the printed header, the main header behind zeros up to a multiple of 8 |
| Writing.GetData | common/rpmparser.go:1000-1008 | the printed header |
| Writing.WriteRpm | common/rpmparser.go:1494-1513 | emits the printed file with the rest of the payload reader, iff both headers are aligned |
| Writing.AcceptedCanBeWritten | common/rpmparser.go:970-983 | writing an accepted header does not panic |
| Signing.LostIffStale | common/rpmparser.go:862-891 | for any order of tags, SignRpm stores its packet through a stale pointer iff, in the header before, the packet outgrows an old signature with data behind it, nothing is reserved, and without the deleted entries the slice is full or an entry above 1008 is in front of the signature; and which entry it hits |
| Signing.LostWhenSorted | common/rpmparser.go:862-891 | in a sorted header that is: no signature of another kind is there to be deleted, nothing is reserved, the slice is full, and the packet outgrows an old signature with data behind it; and no other entry is hit |
| Signing.SignedItems | common/signing.go:403-441 | for any order of tags: the first item of each deleted tag is gone, the first item of the key's tag is the new signature unless that is lost, and the items of all other tags are as they were, save the reservation and the tag of an entry that is hit |
| Signing.SignedSignature | common/signing.go:403-441 | the signature that is found is the new one iff it is not lost, and else the old one |
| Signing.SignedVersions | common/rpmparser.go:1456-1475 | V4 is reported, V6 as before; V3 iff a V3 tag occurred more than once, and the other V4 tag is there iff it was more than once |
| SigningLaws.SignRpmLaw | common/signing.go:403-441 | SignRpm fails iff the key is neither RSA nor DSA or makes no signature; with an RSA key the first item with tag 268 is then the packet, of type 7 and with its length as its count, unless it is lost, and the first items with tags 267, 1002, 1005 and 1006 are gone; with a DSA key 267 and 268 change places; all else stays, save tag 1008 and that of an entry that is hit |
| SigningLaws.LostInNumbers | common/rpmparser.go:862-891 | for sorted tags, a signature is lost iff tags 1002, 1005, 1006, 1008 and that of the other type are missing, the slice is full, and the packet is longer than the old one, which does not end last |
| SigningLaws.VersionsInNumbers | common/rpmparser.go:1456-1475 | V3 is reported for tags 1002 and 1005, V4 for 267 and 268, V6 for 278 |
| SigningRuns.OneSignatureRemains | common/signing.go:403-441 | after any sequence of signings of any header there is a V4 signature of the last key's type; it is the only one iff its tag occurred at most once more than keys of the other type sign, and the other tag at most as often as keys of its type sign; V3 is reported iff a V3 tag occurred more often than that |
| SigningRuns.LastSignatureIsStored | common/signing.go:437-440 | with reserved space at the outset, or a first signature that is new, the last packet is what is found, for any order of tags |
| SigningRuns.SigningWithReservation | common/rpmparser.go:860-895 | with reserved space or without an old signature, a signature is not lost, and there is reserved space afterwards |
| SigningRuns.ResigningMovesNothing | common/rpmparser.go:868-891 | signing again with the same type and length changes count and payload of that entry only: no offset, no size |
| Examples.AcceptedFileLosesSignature | common/rpmparser.go:862-891 | an accepted file, with any payload, on which signing succeeds and whose output is accepted with the signature it had before, given that append doubles short slices |
| StrayWrites.AcceptedFileIsRuined | common/rpmparser.go:862-891 | an accepted file with unsorted tags, with any payload, on which signing succeeds and whose output is not accepted, given that append leaves room in the slice |
| Examples.AcceptedFileIsNotPacked | common/rpmparser.go:775-777 | an accepted file whose signature header laying out changes |
| Examples.AcceptedStoreIsNotTight | common/signing.go:33-43 | an accepted file whose main header is not written as it was read |
| Progress.SettingNeverPanics | common/rpmparser.go:860-905 | with room, set-or-add fails only for a format that is unknown or differs from the entry's |
| Progress.RunIffFits | common/rpmparser.go:562-905 | with room at the outset, a run from a sorted header goes through without a panic iff its operations set known formats that agree with the map; runs that touch tags 62 or 1008 or set an empty payload are counted as going wrong on both sides, although the source panics on neither tag 1008 nor an empty payload |
| Progress.SigningAllNeverPanics | common/signing.go:403-441 | with room for all of them at the outset, any sequence of signatures can be stored without a panic, if old signatures are BINARY, and space is reserved or no entry above 1008 is in front of a signature |
| Progress.SigningNeverPanics | common/signing.go:403-441 | with room and a BINARY signature, or none, SignRpm does not panic and nothing overflows, for any order of tags |
| SignedFiles.AcceptedIsFramed | common/rpmparser.go:1044-1110 | the signature header of every accepted file meets what runs of edits need of any header, has a trailer, and only entries that read back |
| SignedFiles.AcceptedIsIntact | common/rpmparser.go:1044-1110 | with one trailer its region covers all entries; if that takes 16 bytes the header meets what every run of edits keeps, and with sorted tags what every run from a sorted header needs |
| SignedShapes.SignedIsOk | common/signing.go:403-441 | after signing, every entry is one the parser accepts, iff reserved space that is used keeps the shape of its format and an entry that is hit can hold the packet |
| SignedShapes.SignedRegion | common/rpmparser.go:805-832 | after signing, the region of the first trailer covers all entries, iff something was deleted or inserted or it did before, or else the packet that hit it says so |
| SignedFiles.SigningPreservesAcceptance | common/signing.go:392-441 | for every accepted file whose signing does not panic or overflow: the output is accepted and read back, with the signed header and the same lead, main header, digested bytes and payload, iff the main header's store is tight and the signature header can hold the signature |
| SignedFiles.SortedSurvives | common/signing.go:392-441 | the signature header of an accepted file with sorted tags and BINARY reserved space, or none, can hold any signature |
| SignedFiles.VerifierChecksDigestedBytes | common/signing.go:33-43 | the bytes a signature is checked against are the bytes that were digested iff the main header's store is tight |
| SignedFiles.SignedOutputVerifies | common/signing.go:149-190 | in a signed file that is read back, the V4 signature found first is the signature of the very bytes the verifier checks, iff it was not lost; it is the only one iff there was at most one of each type |
| FileRuns.SignedIsSettled | common/signing.go:392-441 | the signed output of a file that is ready is accepted and keeps lead, main header and payload; its signature header is the one that was signed, with the tags counted and the signature found as the laws of signing say |
| FileRuns.SigningOverAndOver | common/signing.go:392-441 | over any number of rounds of reading, signing and writing for which the header has room, the file is accepted and keeps lead, main header and payload; which V3 and V4 signatures are left follows from how often their tags occurred at the outset, as for a header signed as often |
| FileRuns.RoomFromTheOutset | common/signing.go:392-441 | room for all signatures in the file at the outset is room in every round, if signatures and reserved space are BINARY, the first trailer's region covers all entries, and space is reserved or no entry above 1008 is in front of a signature |
| Examples.SmallFileIsReady | common/rpmparser.go:1515-1580 | a concrete file, with any payload, meets all that these laws ask for |
| RemoteSigning.RunCanBeWritten | common/rpmparser.go:907-990 | after every run of edits the header can be written: no alignment error, no overlap, and as many bytes as the store size says |
| RemoteSigning.SignRpm | common/signing.go:403-441 | the header becomes the signed header, which is given in numbers by `SigningLaws.SignRpmLaw`, or stays as it is for an unsupported key or a failed signature |
| RemoteSigning.SignRpmAndWrite | common/signing.go:392-401 | writes the signed file with the rest of the payload reader, or fails |
| RemoteSigning.SignRpmData | server/server.go:280-296 | for any chunking of the input, writes what local signing of the same bytes gives, or fails where it fails |
| RemoteSigning.RoomIsSafe | common/signing.go:392-441 | if the signature header can be edited and there is room, neither signing nor writing panics, and the signed header is aligned |
| RemoteSigning.ReadyIsSigned | common/signing.go:392-401 | a file that is ready to be signed gives the signed file, unless its main header is misaligned, which is an error |
| RemoteSigning.CutParses | client/client.go:254-258 | the file cut off at its payload parses to the same lead, headers and digested bytes |
| RemoteSigning.RemoteEqualsLocal | client/remotesign.go:111-118 | for every input on which signing does not panic, accepted or not, the server's answer to the bytes in front of the payload followed by the payload is what local signing writes, with failures in the same cases |
| RemoteSigning.SignRpmRemotely | client/remotesign.go:76-119 | for any chunking of request and answer, writes the signed form of what was sent and then the rest of the payload reader; if it fails it has written nothing |
| RemoteSigning.SignAsClient | client/client.go:231-258 | for any chunking of file, request and answer, the client captures exactly the bytes in front of the payload and ends with the output of local signing; if it fails it has written nothing |

## Left out

- OpenPGP: keys, packets and signature mathematics are the function `Signer`; SHA1 and SHA256 are
  functions of the digested bytes. That a signature depends on the time is not modelled: the
  function stands for one call.
- Verification beyond the bytes that are checked: the bodies of the V3 and V6 verifiers.
- The payload check of `ParseRPM` (its second argument set), the reported compressed payload
  size, and the V3 digest over header and payload.
- `SignedRegion.Length` and `IndexEntriesStartOffset`, which edits do not keep up to date and
  `Write` does not use; of the signed region only its number of entries is kept.
- HTTP, authentication, configuration, command lines, logging (except that formatting an entry
  for the log can panic), table dumps, labels of tags, and file creation, renaming and download.
- Errors of the underlying writer and of the network; reading errors other than the end of input.
- What an array or slice beyond its length holds, and hidden sharing of the payload slices.
- Bitmaps.Bitmap.Set: ranges that reach beyond 2^32 are not covered.
- DynamicArrays.DynamicArray.Write: a write that ends at the last 32-bit address, on which the
  source fails, is excluded.
- Spaces.RunIsConsistent: reserved space at the outset may not count more than it has; where there is
  none, an operation on a tag above its own may set a count beyond the payload only if the tag is new.
- EditorRuns.RunIsSound: edits of the trailer (tag 62) and of the reserved space (tag 1008) by a
  caller are excluded, and so are edits of main headers and entries set to an empty payload.
- Progress.RunIffFits: says nothing of runs on headers whose tags do not ascend, where a stale pointer
  can change the size of the trailer, which the next edit panics on.
- SignedFiles.SigningPreservesAcceptance: says nothing of signed headers that outgrow the 32-bit store.
