# ipmap: a verified model of the artifact pipeline

ipmap stores values against IP addresses in one memory-mapped file. This project models the path a value
takes — `Builder.Add`, `Build`, `WriteTo`, `openBytes` with `validate`, `Lookup` — together with the two
hand-written address parsers and the `pkg/bits` field packer, and proves what that path promises.

The central results:

- **End to end.** For every sequence of `Add` calls, refused ones included, in either family and either value
  mode, the bytes that `WriteTo` emits for the built Map open again, and the reopened Map answers every address
  as the last accepted Add for it says (`EndToEnd.AnyCallsEndToEnd`). `Pipeline.Run` composes the stages
  themselves: Builder, Build, WriteTo, openBytes and Lookup.
- **Accepted implies canonical.** For every byte string and every checksum function, what `openBytes` accepts is
  exactly what `WriteTo` emits for the Map it returns (`ArtifactLaws.AcceptedIsCanonical`), and the accepted
  strings are exactly the artifacts of well-shaped Maps whose lookups are sound (`ArtifactLaws.AcceptedExactly`).
- **Build is last-wins.** Sorting, in-place run deduplication, the dense /24 index, the prefix table and packed
  ids together refine a plain finite map (`BuildSpec.BuildRefinesLastWins`); every Add is accounted for
  (`EndToEnd.CountsAreDistinctAddresses`); no 32-bit quantity wraps.
- **How many files one content has.** An accepted file is the only one for its content exactly when it stores no
  entry under ::ffff:0:0/96 and its table has at most one row (`OneFile.OnlyFileExactly`): in direct mode, exactly
  when it stores no such entry. Two accepted files that no caller can tell apart are the same file exactly when they
  agree on those keys and, in interned mode, on the table and the ids (`Uniqueness.SameAcceptedFileExactly`). Two
  builds write the same file exactly when the same Adds win, as many were made and as many lost and, in interned mode,
  the tables are equal (`Determinism.SameFileExactly`). Interning changes no answer
  (`Determinism.InterningIsInvisible`).
- **What a build can emit.** The direct-mode files that some build emits are exactly the accepted ones that store no
  entry under ::ffff:0:0/96 and whose counts some run of Adds can have (`OneFile.EmittedExactly`).
- **Parsers.** The two parsers accept exactly the `IPv4address` and `IPv6address` languages of section 3.2.2 of
  RFC 3986, and they invert writing: a text parses as a 32-bit number exactly when it is that number's dotted quad
  (`Parse4.QuadIsDotted`), and as eight groups exactly when it writes them, in either case, with or without leading
  zeros, with any run of zero groups elided and the last two groups as a dotted quad or not
  (`Written6.ParseIsWritten`). `Text` defines how addresses are written and refers to nothing of the parsers.
- **The format, byte by byte.** What `WriteTo` emits, and every file that opens, has each header field, table row,
  section and checksum at its documented offset (`FileBytes.WrittenBytes`, `FileBytes.AcceptedBytes`).
- **Bit fields.** Over any layout whose 64-bit sums did not wrap and any run of `Put`s, each `Get` returns the last
  value put modulo two to the width (`Bits.FieldsDoNotInterfere`). Over any layout at all, a field keeps to itself
  exactly when no other field up to a word wide shares a bit with it (`Bits.KeepsToItselfExactly`). Each field starts
  where the bits declared before it end, and no `Put` changes a reserved bit (`Bits.GrantedAt`,
  `Bits.ReservedBitsStay`).

## How it is laid out

Each method follows the source's own loops and updates; it is proved against a specification function, and the
promises are proved of that function. `crc32.ChecksumIEEE` is an arbitrary function parameter, `epoch` is an
input, a nil slice is the empty sequence, and machine widths (`byte`, `u16`, `u32`, `u64`) are ranges that every
assignment is checked against, with wrapping written out where the source can wrap.

| files | part |
|---|---|
| `Words`, `LittleEndian` | machine words; little-endian words and fixed-width rows |
| `Text` | how addresses are written |
| `Addr`, `Parse4`, `Parse6`, `ParseAddr6`, `Rfc3986`, `Written6` | addresses, the parsers, the RFC 3986 grammar, and parsing as the inverse of writing |
| `Values`, `Groups`, `Store` | packed ids, the group layout and its check, lookups |
| `History`, `Sorting`, `Survivors`, `Accounting`, `Dedupe` | the log of Adds, last-wins, runs, counts |
| `Layout`, `BuildSpec` | the built Map as a function of the log |
| `Compaction`, `DenseIndex`, `Fill`, `Compile`, `Builder` | the build itself: loops, arrays, the Builder class |
| `Format`, `Framing`, `RoundTrip`, `Canonical` | the file format, and both directions of its round trip |
| `Artifact`, `Reader` | `WriteTo`; `openBytes` and `validate` |
| `FileBytes` | the bytes of an artifact at their offsets |
| `ArtifactLaws`, `EndToEnd`, `Determinism`, `Entries` | the main theorems about files, builds and entries |
| `Uniqueness`, `Renumber`, `Hidden`, `OneFile` | when a file is the only one for its content, and which files builds emit |
| `Pipeline` | the stages composed |
| `Bits` | `pkg/bits` |

## Where the code and its documentation differ

- `format.go:339-341` says no checksummed file can make the check read out of bounds. `checkGroups` compares only
  the first and last offsets before it reads `suffix`, so an interior offset beyond the entries makes it index
  out of range (a Go panic) instead of returning an error. `Open` therefore has a third outcome, `Panicked`;
  `ArtifactLaws.StrayOffsetPanics` gives the input and `ArtifactLaws.OpenPanicsExactly` the exact condition.
  No file that `WriteTo` emits for a built Map is of this kind.
- `format_test.go:420-422` says that there is exactly one file for any given content, of whatever `Open` accepts.
  That holds of a file exactly when it stores no entry under ::ffff:0:0/96 and its table has at most one row
  (`OneFile.OnlyFileExactly`). It fails in direct mode because the reader accepts entries under that block, which no
  lookup reaches since a 4-in-6 address is unmapped first: such an entry can be moved within the block
  (`Hidden.HiddenEntryTwoFiles`; `Uniqueness.OneContentTwoFiles` is a concrete pair). It fails in interned mode because
  rows can be exchanged and the ids renumbered, also when the rows are equal or unused (`Renumber.TwoRowsTwoFiles`),
  and already two builds from reordered Adds can differ (`Determinism.InternedFilesDepend`). A direct-mode file that a
  build wrote is always the only one, since a build stores no such entry (`Entries.BuiltEntriesAnswer`).
- `pkg/bits/bits.go:21-23` says a total past 64 bits panics. The sum is unsigned machine addition, so a width near
  2^64 wraps and is granted (`Bits.HugeWidthIsGranted`, `Bits.OverflowCaughtExactly`). After a wrapped sum two
  fields can share bits (`Bits.WrappedFieldsOverlap`), against `pkg/bits/bits.go:5-10`.

## Model

| member | source | states |
|---|---|---|
| `Addr.LessIsNumeric` | addr.go:18-23 | ordering by (hi, lo) is the numeric order of the 128-bit address, and the number determines it |
| `Addr.Next` | addr.go:25-33 | the successor modulo 2^128, and a result comparing less than the input marks the top of the space |
| `Addr.Addr6Of` | addr.go:47-55 | the byte loop reads the sixteen bytes as two big-endian words |
| `Addr.AddrBytes` | addr.go:36-43 | the byte loop writes each word's bytes, most significant first |
| `Addr.AddrRoundTrip` | addr.go:36-55 | an address converted to bytes and back is the same address |
| `Addr.BytesRoundTrip` | addr.go:36-55 | sixteen bytes converted to an address and back are the same bytes |
| `Addr.SpellingsAgree` | store.go:52-65 | a 32-bit host and its 4-in-6 spelling are stored under one key |
| `Addr.MappedIs4In6` | store.go:58-62 | an address is 4-in-6 exactly when its number lies in ::ffff:0:0/96 |
| `Addr.KeyIsStorable` | builder.go:103-109 | no Add records a 128-bit key in that block |
| `Addr.AddressHasKey` | builder.go:103-109 | every other key is the key of the address it spells; a 4-in-6 spelling has its 32-bit host's key |
| `Addr.KeysAreUnmappedAddresses` | builder.go:103-109 | two accepted addresses share a key exactly when they are equal once unmapped |
| `Addr.KeyFromBytes` | store.go:52-65 | the key of every address from its bytes: none if invalid or zoned, the 32-bit host if 4-in-6, else both words |
| `Parse4.ParseAddr4` | addr.go:60-90 | accepts exactly the dotted quads of 32-bit numbers, each as its number, and returns zero with every refusal |
| `Parse4.QuadIsIpv4Address` | addr.go:57-60 | reading a quad succeeds with `ip` exactly when the IPv4address grammar derives the text with that value |
| `Parse4.QuadIsDotted` | addr.go:60-90 | a text has the number `ip` exactly when it is the dotted quad of `ip` without leading zeros |
| `ParseAddr6.ScanHex` | addr.go:129-138 | the hex loop stops after the h16 at the front of the piece, returns its value, or fails when there is none |
| `ParseAddr6.Slide` | addr.go:165-179 | in place: eight groups stand as they are, otherwise left groups, zeros for at least one, right groups; eight with a gap is refused |
| `ParseAddr6.ParseAddr6` | addr.go:96-187 | every text that writes eight groups gives the address of their sixteen bytes; any other is refused with the zero address |
| `Parse6.ParseIsDenotes` | addr.go:92-96 | the left-to-right reading yields groups exactly when the text denotes them: all eight, or compressed at some "::" with an optional last quad |
| `Rfc3986.ParseIsIpv6Address` | addr.go:92-96 | a text is accepted exactly when one of the nine alternatives of IPv6address derives it |
| `Written6.SpellsIsH16` | addr.go:129-138 | a group is read from exactly the spellings of its value: one to four hex digits of either case, leading zeros or not |
| `Written6.ParseIsWritten` | addr.go:96-187 | a text is read as eight groups exactly when it writes them, elided or not, with a final dotted quad or not |
| `Written6.GroupsAreBytes` | addr.go:181-186 | the two words are those of the groups' bytes, high byte first |
| `Values.IdWidth` | values.go:48-61 | the width holds every id below the distinct count, and no smaller width does |
| `Values.Id` | values.go:36-46 | the decoding loop returns the little-endian id at the entry |
| `Values.PutId` | values.go:63-74 | exactly the entry's bytes change, to the id's little-endian bytes |
| `Values.WithIdReads` | values.go:36-74 | a written id is read back and every other entry is unchanged |
| `Values.AfterPutsReads` | values.go:40-74 | after any run of writes each entry holds the last id put there, or its first bytes |
| `Values.ShapedIsReadable` | values.go:28-34 | array sizes and the id bound are all a value fetch needs to stay in bounds |
| `Groups.CheckGroups` | format.go:389-411 | decides in order, panics or fails exactly as the verdict says, and its 32-bit `lo+1` never wraps |
| `Groups.StopsAt` | format.go:399-409 | the first group out of order decides: a panic if it overruns the suffixes, otherwise an error |
| `Groups.OffsetsWithinNeverPanic` | format.go:399-409 | with every offset within the suffixes the check never reads past them |
| `Groups.InteriorOffsetPanics` | format.go:396-405 | a concrete interior offset for which the check reads past the suffixes |
| `Groups.GroupSize` | store.go:85-106 | a group of ascending suffixes has at most as many entries as a suffix has values: 256 in the 32-bit family, bounding its scan |
| `Groups.WalkAscends` | format.go:399-409 | walking groups in order lists full addresses strictly ascending |
| `Store.StoredAscend` | store.go:85-133 | in every Map fit for lookup both families list strictly ascending addresses, as many as the counts say |
| `Store.ScanRun` | store.go:95-104 | the early-exit scan finds the suffix in its run exactly when it is there |
| `Store.Search` | store.go:122-127 | the binary search returns the first position at or above the target |
| `Store.Lookup4` | store.go:91-106 | equals the linear scan over all 32-bit entries |
| `Store.Lookup6` | store.go:121-133 | the two nested searches equal the linear scan over all 128-bit entries |
| `Store.LookupAddr` | store.go:52-65 | a lookup is the linear scan for the address's key; an invalid or zoned address misses |
| `Store.LookupInto` | store.go:71-80 | copies the value and nothing else, and reports false with the buffer untouched when it misses or does not fit |
| `History.SwapKeepsHistory` | builder.go:65-67 | swapping two neighbouring Adds to different addresses keeps the Adds of each address and their order |
| `History.SameHistorySameContent` | builder.go:65-67 | logs that agree on the Adds of each key hold the same records and the same winners |
| `Survivors.SortedWordsAscend` | builder.go:178 | sorted entry words are strictly ascending: no two share a sequence number |
| `Survivors.KeptAre` | builder.go:185-198 | an entry survives exactly when no later entry has its address |
| `Survivors.KeptAscends` | builder.go:184-199 | the survivors' addresses are strictly ascending |
| `Survivors.KeptWins` | builder.go:180-198 | a survivor is a recorded Add of its address and holds the winning value |
| `Survivors.WinnerKept` | builder.go:180-198 | every address that was added has a survivor |
| `Accounting.AddsAreConserved` | builder.go:180-199 | survivors and drops of both families add up to the Adds, and the conflicts of both to the lost ones |
| `Accounting.LostAddsCounts` | builder.go:190-195 | lost Adds are exactly those whose value differs from their key's survivor |
| `Accounting.ConflictsWithinDrops` | format.go:246 | conflicts never exceed drops, as the reader demands |
| `Compaction.Sort6Words` | builder.go:227-239 | sorting entries by the comparison is sorting their words by number |
| `Compaction.SameVal` | builder.go:273-282 | holds exactly when the two Adds carried equal values, in either mode; `vi+1` and `vj+1` never wrap |
| `Compaction.CountRun4` | builder.go:190-195 | counts a run's drops and those whose value differs from the survivor |
| `Compaction.Dedupe4` | builder.go:184-200 | compacting into the front of its own array leaves exactly the survivors, with exact counts; no unread entry is overwritten |
| `Compaction.Dedupe6` | builder.go:242-258 | the same over 128-bit entries |
| `DenseIndex.CountGroups` | builder.go:205-210 | one past each group stands how many kept entries it has; no count wraps |
| `DenseIndex.SumGroups` | builder.go:211-213 | the prefix sums leave at `g` how many kept entries have a group below `g` |
| `Layout.OwnGroup4` | builder.go:214-217 | entry `i` of the sorted survivors lies in [idx[g], idx[g+1]) for its own group, so no cursor is needed |
| `Layout.Layout4Ok` | builder.go:201-220 | the 32-bit layout is in order and lists exactly the kept addresses |
| `Layout.Layout6Ok` | builder.go:259-270 | the 128-bit layout is in order, its prefixes ascend, and it lists exactly the kept addresses |
| `Layout.LaidDirect` | builder.go:153-172 | the direct layout gives back each survivor's value |
| `Layout.LaidInterned` | builder.go:153-172 | the interned layout gives back each survivor's value through an id inside the table |
| `Fill.SetVal` | builder.go:165-172 | exactly one slot changes, to the value's bytes or the id's; putID never panics and `seq+1` never wraps |
| `Fill.Freeze` | builder.go:153-172 | the filled slots and the shared table are the values the layout says |
| `Compile.Fill4` | builder.go:217-220 | slot after slot, low bytes and values of the kept entries |
| `Compile.GrowTable` | builder.go:262-266 | an entry with a new high word starts a run; otherwise the table stands |
| `Compile.Fill6` | builder.go:262-270 | prefix table, starts, low words and values of the kept entries |
| `Compile.Build4` | builder.go:177-221 | the 32-bit store and its counts are those of the log |
| `Compile.Build6` | builder.go:226-271 | the 128-bit store and its counts are those of the log |
| `Builder.InternNew` | builder.go:111-117 | a new value becomes the next row, and `byVal` stays a one-to-one map onto the rows |
| `Builder.InternKnown` | builder.go:111-118 | a known value adds only its id |
| `Builder.Builder.Add` | builder.go:78-124 | accepts exactly unzoned 32-bit, 4-in-6 and 128-bit addresses with values of the right width below 2^32 - 1 entries, appends that record, and otherwise changes nothing |
| `Builder.Builder.Build` | builder.go:128-147 | returns the Map of the log and releases the accumulated fields |
| `BuildSpec.BuildIsValid` | builder.go:177-271 | every built Map meets all that a lookup relies on |
| `BuildSpec.BuildAnswers` | builder.go:65-67 | a built Map answers each key as the last-wins map does |
| `BuildSpec.BuildRefinesLastWins` | builder.go:65-67 | a lookup on the built Map answers as the last Add of the address, or misses if there was none |
| `Artifact.EncodeWraps` | format.go:84-91 | a wrapped 64-bit offset is written as the exact sum would be |
| `Artifact.PutTable` | format.go:84-91 | the section table holds each section's exact offset, length and checksum |
| `Artifact.WriteTo` | format.go:62-116 | emits exactly the format's bytes for the Map and counts them |
| `Reader.CheckFixed` | format.go:205-230 | holds exactly for the right magic, checksum, version, flags and zero reserved words |
| `Reader.CheckCounts` | format.go:241-255 | accepts exactly the header counts within the format's limits, each given as a number |
| `Reader.CheckPlace` | format.go:281-289 | with 64-bit sums, accepts exactly a section at the running offset, of the demanded length, padded end within the file |
| `Reader.CheckSections` | format.go:278-303 | accepts exactly sections in order, gap-free, checksummed, zero-padded and ending at the end of the file |
| `Reader.CheckPrefixes` | format.go:353-357 | comparing neighbours decides that the whole table strictly ascends |
| `Reader.CheckIds` | format.go:364-374 | holds exactly when every id is inside the table |
| `Reader.Validate` | format.go:342-387 | returns the verdict: groups of both families, prefix order, then ids |
| `Reader.OpenBytes` | format.go:203-337 | accepts, rejects or panics exactly as the format says, and returns the Map over the sections |
| `Framing.CountsAgree` | format.go:241-277 | a well-shaped Map's counts pass the reader's checks and its sections have the lengths they demand |
| `Framing.ViewBack` | format.go:306-331 | viewing a well-shaped Map's sections gives the Map back, an empty family reset |
| `RoundTrip.LengthsFit` | format.go:263-277 | under the header-count checks no expected length overflows 64 bits |
| `RoundTrip.WriteIsFramed` | format.go:62-137 | what is written passes every header, geometry, checksum and padding check, and holds the Map that was written |
| `Canonical.FramedIsCanonical` | format.go:203-331 | bytes that pass the framing checks are exactly those written for the Map they hold |
| `ArtifactLaws.OpenWrite` | format.go:62-387 | opening what was written is decided by the Map's verdict, and what is accepted is that Map |
| `FileBytes.WrittenBytes` | format.go:21-31 | every artifact has the magic, version, flags, widths, epoch, counts, table rows, sections by slot, padding and header checksum at their offsets |
| `FileBytes.AcceptedBytes` | format.go:203-331 | so has every file that opens, for the Map it opens as |
| `ArtifactLaws.WriteIsInjective` | format.go:62-137 | two well-shaped Maps have the same file exactly when they agree up to an empty family's arrays |
| `ArtifactLaws.WrittenFits` | format.go:62-116 | no artifact is longer than a slice can be |
| `ArtifactLaws.ValidateIsExact` | format.go:339-387 | for a well-shaped Map, validate succeeds exactly when everything a lookup relies on holds |
| `ArtifactLaws.AcceptedIsCanonical` | format.go:33-35 | an accepted file re-serialises byte for byte and its Map is fit for lookup |
| `ArtifactLaws.AcceptedEntriesResolve` | format.go:339-387 | every entry of an accepted file resolves within its arrays to a value of the file's width |
| `ArtifactLaws.AcceptedExactly` | format.go:33-35 | the accepted byte strings are exactly the artifacts of well-shaped, lookup-sound Maps |
| `ArtifactLaws.ReopenedSections` | format.go:118-137 | a Map and its reopened copy have equal sections |
| `ArtifactLaws.RoundTripKeepsAnswers` | format.go:62-387 | a sound Map written and opened has the same answers, counts, width and epoch |
| `ArtifactLaws.OpenPanicsExactly` | format.go:394-411 | opening panics exactly when the framing holds and the first bad group of a family runs past its entries |
| `ArtifactLaws.BoundedOffsetsAreAnswered` | format.go:394-411 | a framed file whose offsets all lie within the entries is always accepted or rejected |
| `ArtifactLaws.StrayOffsetPanics` | format.go:396-405 | for every checksum there is a file with a stray interior offset that passes framing and panics |
| `EndToEnd.BuildIsShaped` | builder.go:128-147 | every built Map is well-shaped: no count, length or offset of its file overflows |
| `EndToEnd.BuildWriteOpenLookup` | format.go:33-35 | every built Map's file opens, with the same counts, width and epoch, and answers as the log says |
| `EndToEnd.AnyCallsEndToEnd` | builder.go:78-124 | the same over every sequence of Add calls, refused ones included |
| `EndToEnd.LogIsAccepted` | builder.go:78-124 | every log that Add can have accepted is what it accepts of some calls |
| `EndToEnd.AcceptsExactly` | builder.go:78-124 | one more call is recorded exactly when its address is valid and unzoned, its value has the width and there is room |
| `EndToEnd.AddedIsFound` | builder.go:65-71 | after any calls, the address added last is found with its value in the written and reopened file, in either spelling of a 32-bit host |
| `Pipeline.AddAll` | builder.go:78-124 | a Builder given the calls in turn holds exactly the accepted ones |
| `Pipeline.Run` | format_test.go:38-82 | every stage's demands follow from the stage before: the emitted bytes open, re-serialise to themselves and answer as the last accepted Add says |
| `EndToEnd.BuildCounts` | store.go:29-39 | addresses and duplicates add up to the accepted Adds, and conflicts are the lost Adds, at most the duplicates |
| `EndToEnd.CountsAreDistinctAddresses` | store.go:29-39 | address counts are distinct addresses per family, Dups is every Add beyond one per address, DupConflicts the superseded Adds whose value differs from the survivor |
| `EndToEnd.DistinctCountsValues` | store.go:34-38 | Distinct counts every distinct value ever added, superseded ones included, and is zero in direct mode |
| `Determinism.SameMap` | builder.go:128-271 | the Map depends on the winning Adds, the counts and, in interned mode, the table only |
| `Determinism.SameFileExactly` | builder.go:111-121 | two builds write the same file exactly when the same Adds win, as many were made and as many lost and, in interned mode, distinct values first came in the same order |
| `Determinism.FilesAreOrderIndependent` | builder.go:177-271 | reordering Adds to different addresses gives a byte-identical file, counts included, in direct mode always and in interned mode if values first come in the same order |
| `Determinism.InternedFilesDepend` | format_test.go:420-422 | two Adds of different values to different addresses give another file when swapped in interned mode |
| `Determinism.InterningIsInvisible` | builder.go:111-121 | direct and interned builds of one log agree on every answer, every stored address and every count but Distinct |
| `Entries.Entry4Answers` | store.go:91-106 | every 32-bit entry is the answer at its own address |
| `Entries.Entry6Answers` | store.go:52-65 | a 128-bit entry is the answer at its own address exactly when that is not 4-in-6; a 4-in-6 one is answered by its 32-bit host |
| `Entries.BuiltEntriesAnswer` | builder.go:103-109 | a built Map stores no 4-in-6 key, so each of its 128-bit entries is an answer |
| `Entries.AcceptedEntriesAnswer` | format.go:339-387 | in an accepted file every entry but those under 4-in-6 keys is the answer at its own address |
| `Uniqueness.SameGroups` | format.go:389-411 | equal addresses over the same group keys force equal suffixes and offsets |
| `Uniqueness.SamePrefix` | format.go:359-361 | equal stored addresses force equal prefix tables, since a listed prefix owns an entry |
| `Uniqueness.SameAcceptedFileExactly` | format_test.go:420-422 | two accepted files that no caller can tell apart are one file exactly when they agree on stored 4-in-6 keys and, in interned mode, on the table and each entry's id |
| `Uniqueness.OneFileWithoutHidden` | format_test.go:420-422 | a file without 4-in-6 entries and with at most one table row is the only accepted one for its content, whatever a rival holds |
| `Uniqueness.NoHiddenInBoth` | format.go:339-387 | a Map that answers as one without 4-in-6 entries has none either |
| `Uniqueness.OneContentTwoFiles` | format_test.go:420-422 | for every checksum two different direct-mode files are accepted that no caller can tell apart |
| `Renumber.RenumberedReads` | values.go:26-34 | exchanging two rows and renumbering the ids changes no entry's value |
| `Renumber.TwoRowsTwoFiles` | format_test.go:420-422 | every accepted file with two table rows or more, equal or unused ones included, has a rival with the same content |
| `Hidden.RoomToMove` | format.go:241-255 | as a family has fewer entries than the 4-in-6 block has addresses, some entry of the block can move by one and stay in order |
| `Hidden.MovedGroups` | format.go:389-411 | a suffix that keeps its place in the order keeps every group in order and changes that one address |
| `Hidden.HiddenEntryTwoFiles` | format_test.go:420-422 | every accepted file with a 4-in-6 entry, in either mode, has a rival with the same content |
| `OneFile.OnlyFileExactly` | format_test.go:420-422 | an accepted file is the only one for its content exactly when it has no 4-in-6 entry and at most one table row |
| `OneFile.WinnersAreAnswers` | builder.go:65-67 | the log made of a Map's entries, after Adds that lose to the first, has the Map's answers as winners |
| `OneFile.EmittedExactly` | builder.go:128-147 | a direct-mode accepted file is emitted by some build exactly when it has no 4-in-6 entry, its addresses and duplicates fit the cap and there are duplicates only with addresses |
| `Bits.Field.GetBits` | pkg/bits/bits.go:84-88 | Get shows the field's own bits and nothing above them |
| `Bits.Field.PutBits` | pkg/bits/bits.go:90-96 | Put replaces exactly the field's own bits |
| `Bits.Field.GetOtherPut` | pkg/bits/bits.go:84-96 | a field apart from the one written reads as before |
| `Bits.Field.GetIsDivMod` | pkg/bits/bits.go:84-88 | as numbers, Get is division by two to the shift modulo two to the width |
| `Bits.Field.PutIsMod` | pkg/bits/bits.go:90-96 | as numbers, what is put is read back modulo two to the width |
| `Bits.Field.MaxIsLargest` | pkg/bits/bits.go:90-99 | a value is read back unchanged exactly when it is at most Max |
| `Bits.Layout.Field` | pkg/bits/bits.go:45-55 | grants the `width` bits from `used` on, or panics for a zero width or a 64-bit sum past 64, and a refusal changes nothing |
| `Bits.Layout.Reserve` | pkg/bits/bits.go:60-66 | the same for reserved bits |
| `Bits.LayoutIsStacked` | pkg/bits/bits.go:42-66 | however declared, unless a 64-bit sum wraps, fields are disjoint and within 64 bits, and `used` counts every bit |
| `Bits.GrantedAt` | pkg/bits/bits.go:45-55 | unless a sum wraps, each field starts where the bits declared before it end and has the width asked for |
| `Bits.ReservedIsUnowned` | pkg/bits/bits.go:57-66 | unless a sum wraps, no field owns a reserved bit |
| `Bits.ReservedBitsStay` | pkg/bits/bits.go:57-66 | so no run of Puts changes one |
| `Bits.TestLayout` | pkg/bits/bits_test.go:11-24 | the fields of a layout with a reservation, bit by bit |
| `Bits.PanicsExactly` | pkg/bits/bits.go:21-23 | unless a sum wraps, a layout panics exactly on a zero-width field or a total past 64 |
| `Bits.PanicsForTotals` | pkg/bits/bits.go:21-23 | so it does for all widths whose total is below 2^64, and then `used` is the total |
| `Bits.WordWidthsDoNotWrap` | pkg/bits/bits.go:45-66 | widths up to a word never wrap a sum, however many are declared |
| `Bits.UsedIsTotalExactly` | pkg/bits/bits.go:68-70 | `used` is the total declared exactly when no sum wrapped |
| `Bits.OverflowCaughtExactly` | pkg/bits/bits.go:45-66 | a declaration that does not fit is refused exactly when the sum does not wrap |
| `Bits.GrantedInWordExactly` | pkg/bits/bits.go:45-55 | a granted field lies within the word exactly when its width is at most 64 |
| `Bits.HugeWidthIsGranted` | pkg/bits/bits.go:49 | a concrete width that wraps and is granted outside the word |
| `Bits.Field.TooWideIsInert` | pkg/bits/bits.go:84-96 | a field wider than a word, as a wrapped sum grants, reads zero and writes nothing |
| `Bits.KeepsToItselfExactly` | pkg/bits/bits.go:5-10 | however declared, a field always shows the last value put exactly when no other field up to a word wide shares a bit with it |
| `Bits.WrappedFieldsOverlap` | pkg/bits/bits.go:45-66 | a concrete layout with a wrapped reservation grants the same bits twice |
| `Bits.GetAfterPuts` | pkg/bits/bits.go:84-96 | after any run of Puts each Get returns the last value put cut to the width, or the first bits |
| `Bits.UnownedBitsStay` | pkg/bits/bits.go:57-66 | reserved and unallocated bits never change |
| `Bits.FieldsDoNotInterfere` | pkg/bits/bits.go:5-10 | over any layout whose sums did not wrap, any starting word and any run of Puts, each Get is the last value put modulo two to its width |

## Left out

- mmap, `Open`, `Close`, file handles and `sync.Once` (`file_unix.go`, `file_other.go`): `openBytes` is modelled on a byte sequence.
- Errors from the `io.Writer`, error wording, and which of ErrFormat, ErrVersion and ErrCorrupt is returned: a rejection is one outcome.
- The `unsafe` views and host byte order (`format.go:421-480`): the views are the little-endian words themselves.
- The strength of CRC-32: the checksum is an arbitrary function.
- `time.Now`: the epoch is an input.
- Aliasing and capacity of returned slices, allocation counts and timing.
- `app/` and `example/`, and agreement of the parsers with `net/netip` itself: the RFC 3986 grammar is the specification instead.
- Concurrent readers: a Map is immutable.
- The algorithm inside `slices.Sort`, `slices.SortFunc` and Go's `append`: Compile.SortWords sorts by a verified sorting function into a fresh array rather than in place, and the Builder's growing slices are sequences.
- The panics of `NewBuilder`, `Add` and `Build` on misuse (bad options, use after Build) are preconditions.
- Which interned files a build can emit: there the table's row order also ties the file to the order of superseded Adds.
- The source keeps each nested loop in one function; here the bodies of long loops are methods of their own with the same steps.
- A nil slice and an empty one are the same value here; the code tells them apart only where an empty family or mode makes both read the same.
