# Verification of the EWF read path

The repository reads Expert Witness Format images: an acquired disk is stored as a set of segment files, each a
chain of sections, with chunk tables that say where the compressed or trailer-carrying chunks lie. This project
models that read path in Dafny, from the bytes of the segment files to the bytes of the decoded device, and proves
what it promises.

A segment file is an immutable sequence of bytes. Integers that are 64 or 32 bits wide in the source wrap here as
they do there. Adler-32 (section 2.2 of RFC 1950), zlib, bzip2, MD5 and SHA-1 are arbitrary functions handed to the
model, about which nothing is assumed; the round trip only asks that a compressed chunk is *some* stream that
inflates to its payload. Handed to it as well is the longest slice the run time makes before it panics, of which
nothing is assumed but that it is no less than the reader's own limit on one read. Run-time panics are error values.

| file | what it holds |
|---|---|
| `Bytes.dfy` | little-endian integers, int64 wrap-around, bounded reads of a source |
| `Devices.dfy` | the decoded device as a flat partial array of bytes, and what a read of it must return |
| `Chunks.dfy` | decoding one stored chunk; pattern fill by doubling in place |
| `Lru.dfy`, `ChunkCaches.dfy` | recency lists, and the cache class (map into list) that implements them |
| `ImageReaders.dfy` | geometry, and the reader class: `chunkData` and `ReadAt` |
| `ConcurrentReads.dfy` | any number of readers interleaving lookup, decode and store, as a state machine |
| `Sections.dfy`, `SectionsV2.dfy` | the forward and the backward section walk |
| `ChunkTables.dfy`, `TableGroups.dfy`, `TableProperties.dfy` | table entries, pairing with backups, checksum recovery |
| `Sorting.dfy`, `Openings.dfy` | the unstable sort, set validation, merging, checksum policies |
| `Segments.dfy` | parsing one segment file, and opening a list of sources |
| `Verification.dfy` | hashing the device with zero fill, and the account of what is unreadable |
| `SegNames.dfy`, `SegSets.dfy` | segment file names, and discovery of a set from a directory listing |
| `LayoutV1.dfy`, `LayoutV2.dfy`, `WrittenTables.dfy` | what a writer lays out: chains, tables, chunk groups |
| `CutDevices.dfy`, `Batches.dfy` | a device cut into chunks; what reading gives back when chunks are refused, or lost with their table |
| `SuppliedSets.dfy` | sources in any order, and the reader over what they open as |
| `SegmentRoundTrip.dfy`, `RoundTrip.dfy` | writing a device as a set of v1 segments and reading it back |
| `SegmentRoundTripV2.dfy`, `RoundTripV2.dfy` | the same for v2 segments, with pattern-fill chunks among the others |
| `VerifiedImages.dfy` | verifying a written image against the digests it stores |
| `Witnesses.dfy`, `WitnessesV2.dfy` | images written in full that show what the reader's limits mean |

The end-to-end result is `RoundTrip.ImageRoundTrip`. It speaks of any device, cut into chunks of any size, each chunk
stored compressed or plain with its checksum behind it, in any grouping into sectors, table and table2 and any grouping
of those into segments, on either side of the 2 GiB overflow switch, with other sections in front of the groups and
between them, with any of the tables and of their backups since damaged in a way that their checksums detect, supplied
in any order. What it assumes of the set is what the format can express (`WrittenTables.GroupFits`,
`SegmentRoundTrip.Expressible`): 31-bit chunk sizes, 32-bit relative offsets and entry counts, no compressed chunk
behind the switch, segment numbers of 16 bits, volume sections of the 1052 bytes that the format gives them (or more,
up to the limit on payloads). Of such a set, with no more than 65536 sections to a segment, it proves:

- it opens under the default and the lenient policy whatever the damage, and under the strict one if and only if every
  group keeps an undamaged copy of a table of at most 2^24 entries; every group is counted as recovered or as invalid
  where it is;
- whatever the damage, and with unverified tables in use or not, the groups up to the first that keeps no such copy read
  back exactly, within the limits below (`RoundTrip.FrontReadsBack`);
- if no unverified table gets used, that is, if every group without such a copy has no readable copy at all, it reads
  back byte for byte *if and only if* every group keeps an undamaged copy and the set is within the limits of the reader
  (`RoundTrip.WithinLimits`): at most 2^24 entries to a table, and at most 2^30 and `chunkSize*2 + 4096` stored bytes to
  a chunk. Reading the whole device meets no error exactly then, and no trailer byte ever surfaces
  (`CutDevices.ReadsBackIff`, `Batches.ShowsAllIff`).

A set with a longer chain is refused (`RoundTrip.LongSetRefused`). Those three are limits of this reader and
not of the format: `Witnesses.LongChunkReadIff` writes images of one plain chunk of up to 2^31 - 5 bytes, which are
read back up to 2^30 - 4 bytes only, and `Witnesses.LongTableReadIff` images whose one table lists more than 2^24
chunks, which open and read nothing. `RoundTrip.OpenImage`, `RoundTrip.ReadImage` and `VerifiedImages.VerifyImage` run
the reader class and `Verify` on such sets, at any cache depth. `RoundTripV2.SetRoundTripV2` is the counterpart for v2.

Things the proofs brought to light, each stated as a lemma:

- Decoding panics in two places, and in no other (`PanicsIff`): the v1 trailer strip slices below zero for a plain
  chunk stored in fewer than four bytes but more than the chunk size, and a pattern chunk is expanded into a buffer of
  the chunk size, however large that is. So no descriptor makes it panic if and only if the chunk size is at least
  three and can be allocated, or is so large that every chunk is refused (`NoPanicIff`). For chunk sizes of one and two
  there is a written image that opens and on which a read panics (`SmallChunksCanPanic`).
- Where a group has no readable copy of its table, the default policy opens the set nevertheless, and everything behind
  that group moves up: reads there return, without any error, what was written further on by the size of the group
  (`LostGroupShifts`, `Batches.LostBatchShifts`). Only the read that reaches the end of the device fails. The strict
  policy refuses such a set. A v2 table is dropped just so when it has too many entries or lies beyond the section cap,
  and there the strict policy does not refuse either (`OpensAsPlaced`).
- `Verify` allocates one chunk before it starts, so a geometry that opening accepts can make it panic: there is a
  written v1 image that opens under every policy and on which the pass panics (`HugeChunksPanic`), and a written v2
  image of one pattern chunk on which the first read does (`PatternPanics`, `HugePatternPanics`). Unless it is
  cancelled `Verify` succeeds if and only if that does not happen and no chunk makes decoding panic
  (`Verification.Verify`, `NoPassPanics`).
- The limit on a stored size, `chunkSize*2 + 4096`, is an int64 and wraps for chunk sizes from 2^62 - 2048 on
  (`LimitWrapsIff`). Up to 2^63 - 2048 every chunk is then refused, and for no other chunk size, although such a
  geometry is accepted (`AllRefusedIff`). `WithinLimits` takes the limit as computed.
- The v2 walk treats its iteration cap as an end, not as an error: of a chain of more than 65536 sections the last
  65536 are returned without complaint (`LayoutV2.ChainRoundTrip`, `LayoutV2.WholeChainIff`). The v1 walk reports
  the same situation.
- A v2 descriptor whose previous offset is its own position is accepted, and then repeated until the cap; everything
  in front of it is lost (`SelfPointerRepeats`, `SelfPointerHidesTheRest`). `SelfPointerHidesAll` builds such files:
  whatever stands in front of the last descriptor, the walk succeeds with 65536 copies of that one. Following the
  previous offsets from the end of a file, section offsets strictly increase if and only if no such descriptor is met
  before the last step the cap allows (`SectionsV2.StrictOrderIff`).
- A group whose last chunk is empty is not recovered: the last chunk then starts where the table does, and gets the
  table's own size (`TableInverts`).
- A compressed flag cannot be expressed after the overflow switch (`FlagsSurviveIff`).
- Primary and backup agree on the last chunk's size at every position, also beyond the primary's start, if and only if
  the backup adjoins the primary (`LastSizesAgreeIff`). Pairing allows other sections in between; then a group read
  from its backup has a last chunk that is longer by just that gap (`GapLengthensLast`).
- `Missing` does not return for a set whose last number is 2^32 - 1; no discovered set has such a number
  (`SegSets.Missing`, `SegSets.MissingIsComplement`).

## Model

| member | source | states |
|---|---|---|
| Devices.PrefixIsLongestRun | reader/open.go:285-289 | a result is the correct one if and only if it is made of device bytes, fits, and cannot be extended |
| Devices.ErrorMeans | reader/open.go:291-348 | what each error of a read means: its arguments, the failed chunk of the first byte not read, or an end |
| Devices.ReadGranularity | reader/open.go:307-349 | however a span is cut into consecutive reads, the pieces up to the first short one make up the single read of the span |
| Devices.ChunkBytesMatch | reader/open.go:316-341 | a window of a decoded chunk is the device's bytes at that offset |
| ImageReaders.GeometryIsExact | reader/open.go:246-270 | geometry is accepted exactly when the two true products fit an int64, and is those products |
| ImageReaders.GeometryIff | reader/open.go:246-270 | a geometry is accepted exactly if it is the one stated; without a volume it is none, and that is no error |
| ImageReaders.GeometryErrors | reader/open.go:250-267 | the error names the zero, or the first product that does not fit |
| ImageReaders.ImageReader.constructor | reader/open.go:193-203 | a fresh reader is valid, with an empty cache of the asked depth, over the device of its table |
| ImageReaders.ImageReader.ChunkData | reader/open.go:356-371 | whatever the cache holds, the result is what decoding gives, and the cache becomes what one LRU access makes of it |
| ImageReaders.ImageReader.NextPiece | reader/open.go:315-340 | each round copies device bytes of the right offset, or stops exactly where the device is unreadable, with that chunk's error |
| ImageReaders.ImageReader.CopyNext | reader/open.go:315-343 | a round copies a non-empty piece of the right bytes, or copies nothing and says why; the rest of the buffer keeps its bytes |
| ImageReaders.ImageReader.CopyChunks | reader/open.go:314-343 | the loop fills the wanted span or stops at the first unreadable byte, and leaves the rest of the buffer alone |
| ImageReaders.ImageReader.ReadAt | reader/open.go:290-349 | for every offset, buffer and cache state: the longest readable prefix clamped to the size, the rest of the buffer untouched, the error a cache-free read gives, none if and only if the buffer was filled |
| ImageReaders.CopyInto | reader/open.go:341-341 | the copy writes exactly its window |
| Chunks.LimitWrapsIff | reader/open.go:387-393 | the limit on a stored size is the intended one if and only if the chunk size is below 2^62 - 2048 |
| Chunks.AllRefusedIff | reader/open.go:387-393 | every chunk is refused for chunk sizes from 2^62 - 2048 to 2^63 - 2048, and for no others |
| Chunks.DecodesIff | reader/open.go:374-450 | decoding gives data exactly if the descriptor passes the checks, its bytes lie in its source, and they mean the data: repeated as a pattern, as a stream of the codec, or as themselves without the four bytes of a flagged or implied trailer |
| Chunks.RefusedBecause | reader/open.go:380-421 | which error stands for which fault, the first one found |
| Chunks.PanicsIff | reader/open.go:395-442 | decoding panics exactly for a readable plain v1 chunk with chunkSize < stored size < 4, or a readable pattern chunk over a chunk size that cannot be allocated |
| Chunks.NoPanicIff | reader/open.go:374-450 | no descriptor makes decoding panic if and only if the chunk size is at least three and can be allocated, or every chunk is refused |
| Witnesses.WrittenFragmentPanics | reader/open.go:424-430 | in any written set, reading a plain chunk with chunkSize < stored size < 4 panics |
| Witnesses.SmallChunksCanPanic | reader/open.go:424-430 | for chunk sizes one and two there is a written image that opens and on which the first read panics |
| Chunks.RepeatedDoubles | reader/open.go:445-448 | copying the filled region behind itself keeps plain repetition of the unit |
| Chunks.ExpandPattern | reader/open.go:434-450 | the doubling loop yields out[i] = unit[i mod length], in the least number of doublings that reaches the chunk size; a chunk too large to make panics |
| ChunkCaches.NewChunkCache | reader/cache.go:42-51 | a cache of no depth is no cache; any other is empty and valid |
| ChunkCaches.ChunkCache.Get | reader/cache.go:57-70 | returns the entry if there is one and moves it to the front; map and list stay in bijection |
| ChunkCaches.ChunkCache.Put | reader/cache.go:73-96 | refreshes or pushes the entry and drops the oldest beyond the depth; map and list stay in bijection |
| ChunkCaches.ChunkCache.EvictOldest | reader/cache.go:88-95 | the eviction loop keeps exactly the most recent entries up to the depth |
| ChunkCaches.ChunkCache.MoveToFront | reader/cache.go:68-68 | the named cell goes first and the others keep their order |
| ChunkCaches.EffectiveCacheChunks | reader/cache.go:114-130 | zero exactly when disabled, within 64 MiB beyond one chunk, and never less than asked, 16 by default, unless one more would exceed that |
| Lru.AccessIsDecode | reader/open.go:356-371 | one access returns what decoding returns and keeps the cache sound |
| Lru.TakeUsed | reader/cache.go:88-95 | dropping what lies beyond the depth before a use loses nothing the use would have kept |
| Lru.RecencyOrdersByLastUse | reader/cache.go:57-96 | the recency list holds each used key once, ordered by last use |
| Lru.RunIsRecency | reader/cache.go:57-96 | after any run from an empty cache the keys are the first max of the recency list of successful decodes |
| Lru.CacheHoldsMostRecent | reader/cache.go:57-96 | the contents are exactly the max most recently used distinct chunks that decoded, in order of last use |
| Lru.DeeperCacheIncludes | reader/cache.go:57-96 | on the same run a deeper cache starts with exactly the contents of a shallower one |
| ConcurrentReads.NextKeepsInv | reader/open.go:351-371 | every step of every reader keeps the cache sound and every reader correct |
| ConcurrentReads.RunsAreSafe | reader/open.go:351-371 | so it is in every state of every run |
| ConcurrentReads.CompletedReadsAreSequential | reader/open.go:290-371 | however readers interleave, a completed read returned the bytes and the error of a cache-free sequential one, every cached entry and buffer in flight is its chunk's decoding, and the depth bound holds |
| ConcurrentReads.UndisturbedIsAccess | reader/open.go:356-371 | a reader left alone from its lookup to its store does to the cache what one access does |
| ConcurrentReads.OnlyAccessesCount | reader/open.go:356-371 | no other step of a reader touches the cache |
| ConcurrentReads.CopyTakesAll | reader/open.go:328-342 | one copy takes all that a chunk has for the read |
| ConcurrentReads.InterleavedPiecesMakeTheSpan | reader/open.go:307-371 | pieces of a span read by any readers, with any reads and evictions in between, make up the single read of it |
| ConcurrentReads.ReadersMakeProgress | reader/open.go:361-364 | every step a reader takes brings it closer to returning, even when its chunk is evicted under it |
| Sections.WalkForward | reader/sections.go:44-77 | the loop computes the forward walk |
| Sections.ParseSectionsV1 | reader/sections.go:44-77 | the sections of a v1 segment are those of the forward walk from the file header |
| Sections.WalkFindsChain | reader/sections.go:44-77 | the walk succeeds exactly on chains that end in next or done within the cap, and returns the chain |
| Sections.RevisitsAgree | reader/sections.go:44-77 | two visits to one offset go on alike |
| Sections.NoRevisitOnSuccess | reader/sections.go:44-77 | whenever the walk succeeds, all offsets are distinct, each is its predecessor's plus its size, and exactly the last section is next or done |
| Sections.FailureMeansNoChain | reader/sections.go:49-75 | the walk fails only when there is no such chain within the cap |
| Sections.WalkStopsShort | reader/sections.go:49-75 | a chain longer than the cap is refused for lack of a next or done section |
| Sections.WalkUnreadableIff | reader/sections.go:50-56 | the walk fails as unreadable exactly if within the cap it leads to a place without a descriptor |
| Sections.DescriptorV1Type | reader/sections.go:115-151 | any v1 descriptor is typed by the name in its first 16 bytes, and its data starts behind its 76 |
| Sections.DescriptorV1Size | reader/sections.go:128-137 | by its bytes its size is the one stated, else all up to a next section that lies ahead; its data is what that leaves |
| Sections.NamesOfKinds | reader/sections.go:207-236 | which v1 names stand for which section types, and no others |
| SectionsV2.ReverseSections | reader/sections.go:279-283 | the swaps reverse the array |
| SectionsV2.WalkBackward | reader/sections.go:88-106 | the loop computes the backward walk |
| SectionsV2.ParseSectionsV2 | reader/sections.go:79-113 | walk, check for next or done, reversal: the sections of a v2 segment |
| SectionsV2.FileOrder | reader/sections.go:79-113 | for any input: each section is the descriptor at its offset, found by following previous offsets from the end of the file, as far as they lead or the cap allows; offsets never decrease |
| SectionsV2.StrictOrderIff | reader/sections.go:79-113 | offsets strictly increase if and only if no descriptor met before the cap's last step points to itself |
| SectionsV2.IncreasingWithoutSelfPointers | reader/sections.go:92-106 | a file in which no descriptor points to itself yields strictly increasing offsets |
| SectionsV2.SelfPointerRepeats | reader/sections.go:92-106 | from a descriptor that points to itself the walk repeats it until the cap |
| SectionsV2.SelfPointerHidesTheRest | reader/sections.go:92-112 | a self-pointing descriptor met on the way fills the front of the list, and everything before it is lost |
| LayoutV2.SelfPointerHidesAll | reader/sections.go:79-113 | a file that ends in a self-pointing next or done descriptor is accepted as 65536 copies of it, whatever stands in front |
| SectionsV2.NeverUnreadable | reader/sections.go:92-97 | started inside the file, the walk fails only for a previous offset that points forward |
| SectionsV2.WalkV2SucceedsIff | reader/sections.go:79-113 | sections are found exactly if the file ends in a next or done descriptor behind its first 64 bytes and no descriptor met within the cap points forward; otherwise the error says which |
| SectionsV2.WalkV2FindsLinked | reader/sections.go:79-113 | and they are exactly the sections that the links of the file lead to |
| LayoutV1.NameRoundTrip | reader/sections.go:199-205 | a plain type name survives padding and trimming |
| LayoutV1.SpaceRuneIff | reader/sections.go:204-204 | what is trimmed are exactly the UTF-8 encodings of the characters with the property White_Space |
| LayoutV1.BlanksIgnored | reader/sections.go:199-205 | white space around a type name and anything behind its first NUL make no difference |
| LayoutV1.ReadWrittenDescriptor | reader/sections.go:115-151 | a written v1 descriptor is read back field by field, with a stated size of zero meaning all up to the next section |
| LayoutV1.ChainRoundTrip | reader/open_test.go:93-185 | a written v1 chain within the cap is walked back to exactly its sections, each with its payload in its data window; a longer one is refused |
| LayoutV2.ReadWrittenDescriptor | reader/sections.go:153-197 | a written v2 descriptor is read back field by field, the first section of a file included |
| LayoutV2.ChainRoundTrip | reader/ewf2_test.go:35-64 | a written v2 chain is read back in file order: type, flags, padding and payload of every section up to the cap, and of a longer chain the last 65536 |
| LayoutV2.WholeChainIff | reader/sections.go:92-112 | the whole chain comes back if and only if it fits the cap |
| ChunkTables.EntrySizeInverts | reader/chunk_table.go:228-241 | the entry after a chunk gives its size before, after and across the overflow switch |
| ChunkTables.DecodeInverts | reader/chunk_table.go:206-253 | decoding recovers every offset, size and flag the format can carry |
| ChunkTables.TableInverts | reader/chunk_table.go:206-291 | a table that starts where its data ends gives back every chunk, if and only if the last one is not empty |
| ChunkTables.AllDecoded | reader/chunk_table.go:206-253 | however the last size is derived, every decoded offset, flag and other size is the chunk's own |
| ChunkTables.SlotsTile | reader/chunk_table.go:206-291 | the decoded chunks tile the data from the base on, and end where it ends if and only if the last chunk is not empty |
| ChunkTables.FlagsSurviveIff | reader/chunk_table.go:213-218 | all compressed flags are decoded if and only if no chunk behind the switch is compressed |
| ChunkTables.LastSizesAgreeIff | reader/chunk_table.go:258-291 | a table and a table2 derive the same last size at every position if and only if the table2 adjoins the table |
| ChunkTables.GapLengthensLast | reader/chunk_table.go:258-291 | with a gap between table and table2, the last chunk read from the backup is longer by that gap |
| ChunkTables.LastSizeReaches | reader/chunk_table.go:258-291 | the last chunk reaches up to the table, or the end of the table section for data inside it, as far as 32 bits allow; behind both nothing is left of it |
| TableGroups.DecodeEntry | reader/chunk_table.go:209-250 | one round of the entry loop gives the entry's slot and the mode for the next |
| TableGroups.FillChunks | reader/chunk_table.go:206-252 | the entry loop with its sticky overflow flag computes the decoding |
| TableGroups.ParseTableSectionV1 | reader/chunk_table.go:154-253 | by the bytes of the section: as many chunks as it holds entries, none unless 1 to 2^24 of them lie within it and the source; verified exactly if the Adler-32 of the first 20 bytes is the one stored behind them and, where nothing but a checksum follows the entries, so is theirs |
| ChunkTables.ParsedByItsBytes | reader/chunk_table.go:165-199 | a v1 table section gives chunks exactly if it holds entries, and they are verified exactly if all checksums that the section stores match |
| ChunkTables.EntriesMean | reader/chunk_table.go:206-253 | whatever the entries, sound or not: one states 31 bits of offset under a flag, or 32 and no flag once a chunk before it has ended beyond 2 GiB, and the size up to the offset of the next |
| ChunkTables.ChunkPlacedByEntry | reader/chunk_table.go:166-253 | so by the bytes of the section each chunk lies at the base in the header plus its own entry |
| TableGroups.ParsedByItsBytesV2 | reader/chunk_table.go:295-335 | a v2 table section gives one chunk for each 16-byte entry, none unless 1 to 2^24 of them lie within it and the source |
| TableGroups.DescribeV2 | reader/chunk_table.go:319-332 | of the flags in the last four bytes, bit 4 means pattern, bit 1 compressed unless it is a pattern, bit 2 that a checksum follows |
| TableGroups.PairingConserves | reader/chunk_table.go:77-100 | every table section is consumed exactly once and in order, as a primary or as the backup right after it |
| TableGroups.PairingIsUnique | reader/chunk_table.go:77-100 | pairing is the one way to take all tables in order such that exactly v2 tables stand alone, a backup is a table2 right behind its table, and no such table2 is left over |
| TableGroups.NextGroup | reader/chunk_table.go:86-100 | one round of the loop takes the next group off the list |
| TableGroups.BuildAll | reader/chunk_table.go:86-112 | the loop with its skipping index adds up the contributions of the groups |
| TableGroups.BuildChunkTable | reader/chunk_table.go:71-113 | the table and the counters are those of the paired groups; nothing comes of a segment only if none of its table sections holds entries |
| TableGroups.GroupUses | reader/chunk_table.go:125-146 | a group is built from a copy whose stored checksums match, the primary before the backup; if none does it counts as invalid and is built from a copy that holds entries all the same, again the primary first |
| TableGroups.TableEmptyIff | reader/chunk_table.go:71-146 | no table that holds entries is dropped, verified or not |
| TableProperties.BodyDeterminesTable | reader/chunk_table.go:154-204 | two sections with the same body hold the same table |
| TableProperties.BackupParsesAlike | reader/chunk_table.go:125-291 | a table and the identical table2 directly after it parse to the same descriptors and verdict |
| TableProperties.VerdictOfBody | reader/chunk_table.go:155-199 | whether a table is read, and whether it validates, depends on the bytes of its body alone, in the way they say |
| TableProperties.GroupSurvivesDamage | reader/chunk_table.go:125-146 | damage to a primary that its checksum detects changes no descriptor of its group, and the backup is used exactly then |
| TableProperties.SameTablesBuildAlike | reader/chunk_table.go:125-146 | a group with or without a backup whose tables have stayed the same is built alike |
| TableProperties.TableSurvivesDamage | reader/chunk_table.go:71-146 | with the other groups built alike, the whole table stays the same, no further group is invalid, and exactly the damaged primaries count as recovered |
| TableProperties.BackupsAddNothing | reader/chunk_table.go:61-70 | with valid primaries, deleting all backups gives the very same table: no chunk is counted twice |
| TableProperties.OtherSectionsIgnored | reader/chunk_table.go:77-84 | sections of other types in between change nothing |
| TableProperties.VerifiedIffValidCopy | reader/chunk_table.go:125-199 | a group counts as not invalid if and only if its descriptors came from a copy that holds entries and whose checksums, by its bytes, all match |
| TableProperties.NoneInvalidIffAllVerified | reader/chunk_table.go:102-111 | the invalid counter is zero if and only if that holds of every group |
| Sorting.Sort | reader/open.go:155-157 | some ordering by key; elements with equal keys in any order |
| Sorting.SortIsUnique | reader/open.go:155-157 | with distinct keys there is only one |
| Openings.ValidateSegmentSet | reader/open.go:454-500 | the loop with its set of seen numbers finds the first complaint |
| Openings.StrictlyValidIff | reader/open.go:454-500 | in strict mode a sorted set is valid if and only if it is one family numbered exactly 1..n whose last segment is done |
| Openings.LenientlyValidIff | reader/open.go:454-500 | an incomplete set that is allowed is valid if and only if it is one family with distinct numbers, and corrupt otherwise |
| Openings.ComplaintMeans | reader/open.go:474-498 | of one family with distinct numbers, a segment is missing if a number below the last one is absent; else the set is incomplete, for starting at zero or for want of a done section, or complete |
| Openings.LongSetComplains | reader/open.go:477-477 | a set longer than the 32-bit numbers allow is never valid |
| Openings.MergeTables | reader/open.go:163-166 | the merged chunk table is the concatenation in segment order |
| Openings.MergeMetadata | reader/open.go:502-557 | the loop merges all segments, one after the other |
| Openings.MergedIsSummary | reader/open.go:513-548 | a set is encrypted or done if any segment says so, and its geometry is that of the first segment which has one |
| Openings.MergedDigestsAreFirst | reader/open.go:529-536 | the digests of a set are the first ones its segments store |
| Openings.MergedCounts | reader/open.go:510-550 | the counters of recovered and invalid tables are the sums of those of the segments |
| Openings.MergedInvalidZero | reader/open.go:510-550 | no table of the set counts as invalid if and only if none of any segment does |
| Openings.OrderOfSupplyIsIrrelevant | reader/open.go:155-204 | opening succeeds for one order of supply if and only if for every other, with the same table and everything else alike |
| Openings.OpenInOrder | reader/open.go:159-203 | validation, merging, the encryption check, the policy and the geometry, in that order; what opens is a valid set without encryption, and a valid set is refused as encrypted exactly if any segment is |
| Openings.OpensIff | reader/open.go:159-203 | opening succeeds if and only if the set is valid, unencrypted, under strict without invalid tables, and its geometry usable; and then with the concatenated tables, the first volume's geometry, the counters the policy reports, and the effective cache depth |
| Openings.RefusedFor | reader/open.go:172-191 | a valid set is refused as encrypted if any of it is, else for its checksums, else for its geometry |
| Openings.OpenSegments | reader/open.go:155-203 | the outcome is that of every possible sort |
| Openings.OpenSetOpens | reader/open.go:155-203 | a complete set without encryption is refused only for invalid tables and only by the strict policy; opened, it is the concatenated tables |
| Openings.StrictPolicyIsEndToEnd | reader/open.go:177-186 | the strict policy opens exactly what the default one opens with every v1 group of every segment decoded from a valid copy |
| Openings.MakeReader | reader/open.go:193-203 | the reader is over the device of the merged table, with the merged geometry and digests and an empty cache of the asked depth |
| Segments.ParsedTableIsBuilt | reader/open.go:229-229 | a parsed segment's table is the one built from its own sections |
| Segments.ParsesIff | reader/open.go:206-240 | a source parses exactly if it starts with one of the four signatures, its header fields are in order, and its sections form a chain; and to what these say |
| Segments.UnparsedBecause | reader/open.go:626-693 | which of signature, header and version is why a source does not parse |
| Segments.ParsedMeta | reader/metadata.go:39-55 | a segment is encrypted, or done, exactly if a section of it says so, and its v1 geometry is that of its last volume section, full or short |
| Segments.MediaIsLastVolume | reader/payload_parsing.go:43-158 | later volume sections replace earlier ones, and one that is too short, too long or unreadable changes nothing |
| Segments.ParsedTableEmptyIff | reader/open.go:229-229 | the chunk table of a segment is empty only if no table section of it holds entries |
| Segments.EncryptionRefused | reader/open.go:169-175 | however the sources are sorted, nothing that opens is encrypted, and of a complete set exactly an encrypted one is refused as such |
| Segments.ParseAll | reader/open.go:146-153 | all sources parsed in order, or the first that fails |
| Segments.StrictSources | reader/open.go:141-186 | of sources that parse, however sorted, the strict policy opens exactly what the default one opens with every group verified |
| Segments.OpenSources | reader/open.go:141-204 | from the bytes of the sources: no sources are refused, the first source that does not parse is reported, else the same outcome whichever way the sort falls; no section of what opens is of type 0x0b or carries the encrypted flag, and a complete set with such a section gives exactly that error under every policy; every v1 group of what strict opens has a copy whose checksums match in the bytes |
| SegmentRoundTrip.PairedGroup | reader/chunk_table.go:86-100 | sectors, table, table2 in front of a chain make one group |
| SegmentRoundTrip.GroupsBuild | reader/chunk_table.go:71-113 | the table built from written groups locates the chunks of those that keep a readable copy, in order; each group counts as recovered or invalid according to its damage |
| SegmentRoundTrip.FileHeaderReadsBack | reader/open_test.go:144-147 | a written file header is read back |
| SegmentRoundTrip.VolumeGeometry | reader/payload_parsing.go:132-146 | a volume section gives its geometry |
| SegmentRoundTrip.ExtrasSkipped | reader/open_test.go:160-163 | other sections change neither tables nor geometry |
| SegmentRoundTrip.SegmentParses | reader/open_test.go:93-185 | every written segment within the section cap parses, to its number, its geometry and a table that locates the chunks of every group that keeps a copy |
| SegmentRoundTrip.LongSegmentRefused | reader/sections.go:49-75 | one beyond the cap is refused |
| SegmentRoundTrip.ImageIsWritten | reader/open_test.go:93-192 | every segment the format can express, within one file, can be written, byte for byte as long as its parts |
| WrittenTables.RawOffsetsRoundTrip | reader/open_test.go:202-209 | written entries are read back |
| WrittenTables.TableReadsBack | reader/open_test.go:194-214 | a written table of at most 2^24 entries is read back with both checksums valid |
| WrittenTables.LongTableUnread | reader/chunk_table.go:168-170 | a longer one is not read at all, however intact |
| WrittenTables.GroupParses | reader/open_test.go:165-181 | the primary of a written group, undamaged and not too long, parses to validated descriptors that locate exactly the stored chunks; else it does not validate, and unreadable it yields nothing |
| WrittenTables.BackupParses | reader/chunk_table.go:258-291 | so does the backup behind it, whatever has become of the primary's body |
| CutDevices.EveryDeviceCanBeCut | reader/open.go:94-98 | every device can be cut into chunks of every size |
| RoundTrip.PlainIsStored | reader/open_test.go:72-87 | a payload with its checksum behind it is a stored chunk, which the reader fetches if and only if the two fit one read |
| SegmentRoundTripV2.EntryReadsBack | reader/ewf2_test.go:80-95 | a written v2 entry is read back field by field, with the bits 1, 2 and 4 of its flags for compressed, checksum and pattern |
| SegmentRoundTripV2.TableV2ReadsBack | reader/chunk_table.go:295-335 | a v2 table of at most 2^24 entries is read back entry by entry, whatever follows the entries; a longer one yields nothing |
| SegmentRoundTripV2.DescribedYields | reader/open.go:374-450 | a plain, checksummed, compressed or pattern chunk, as the bits of its flags say, decodes to its payload, is refused, or panics, exactly as its size and the limits say |
| SegmentRoundTripV2.TablesBuild | reader/chunk_table.go:86-94 | each v2 table stands alone, together they describe all chunks of those not too long, and none counts as invalid |
| SegmentRoundTripV2.SegmentV2Parses | reader/ewf2_test.go:35-64 | every written v2 segment parses, to its number and a table of all that lies within the section cap |
| RoundTripV2.LimitsInBatchesV2 | reader/chunk_table.go:306-308 | no table of a set is lost and no chunk refused exactly within the limits on sections, entries, stored bytes and allocations |
| RoundTripV2.SetRoundTripV2 | reader/ewf2_test.go:113-156 | a device written as any set of v2 segments, supplied in any order, opens under every policy, and is read back, without an error, if and only if it is within those limits |
| WitnessesV2.PatternPanics | reader/open.go:442-442 | a written v2 image of one pattern chunk opens under every policy and its first read panics, whatever too large chunk size its text sections give |
| WitnessesV2.HugePatternPanics | reader/open.go:246-270 | an accepted geometry of 2^61 bytes to a chunk is such a one |
| RoundTrip.LocatedDecodesIff | internal/binaryutil/read.go:24-31 | a located v1 chunk decodes to its payload if and only if its stored size is within both limits; else it is refused, without a panic |
| CutDevices.FlattenedAt | reader/open.go:316-318 | quotient and remainder by the chunk size find the chunk and the position of every device byte |
| CutDevices.CarriedRead | reader/open.go:307-349 | every read inside the device returns exactly its bytes, and no trailer byte |
| CutDevices.ReadsBackIff | reader/open.go:307-349 | a device reads as what was written if and only if no chunk is missing or refused, and exactly then its whole span reads without an error |
| Batches.ShowsAllIff | reader/chunk_table.go:86-112 | so it does if and only if every table is seen and every chunk readable |
| Batches.UnseenBatchesShift | reader/chunk_table.go:86-112 | of tables that are not seen, the others move up and read without an error |
| Batches.LostBatchShifts | reader/chunk_table.go:86-112 | with one table lost, every read behind it returns what was written that table's chunks further on |
| Batches.FatalIff | reader/open.go:395-442 | reading the first byte of a chunk panics exactly if the chunk is a fatal one |
| RoundTrip.SetOpens | reader/open.go:141-204 | a set read back opens unless the strict policy finds a group without a readable intact copy, counts the damage, and reads back if and only if limits and damage allow it |
| RoundTrip.ReadBackCounts | reader/open.go:510-550 | every group of a set is counted once, recovered if only its backup is left, invalid if neither copy is |
| RoundTrip.FrontReadsBack | reader/chunk_table.go:125-146 | whatever has become of the other tables, a set opens under the default policy and the groups up to the first that keeps no readable intact copy read back exactly |
| RoundTrip.LostGroupShifts | reader/chunk_table.go:125-146 | where a group is lost and the set opens, reads behind it return, without any error, what was written further on by its size |
| SuppliedSets.OneSort | reader/open.go:155-157 | in whatever order sources are supplied, segments with distinct numbers have one sort |
| SuppliedSets.TablesShow | reader/open.go:163-166 | what the merged table shows is what the tables of the segments show, in order |
| SuppliedSets.OpenOrdered | reader/open.go:141-204 | opening supplied sources gives a reader over the device that their one sort opens with, or a refusal if it opens with none or a source does not parse |
| RoundTrip.ImageRoundTrip | reader/open.go:138-204 | a device written as any set of segments, any tables and backups damaged detectably, supplied in any order: strict refuses it exactly if a group keeps no readable intact copy, and with no unverified table used it reads back exactly if and only if every group keeps a copy and the set is within the reader's limits |
| RoundTrip.UndamagedRoundTripIff | reader/open.go:138-204 | undamaged, such a set opens under the default policy and reads back if and only if it is within the reader's limits |
| RoundTrip.LongSetRefused | reader/open.go:146-153 | a set with a chain beyond the section cap does not parse, in whatever order it is supplied |
| Witnesses.LongChunkReadIff | internal/binaryutil/read.go:15-31 | a device of one full plain chunk is written as an image that opens under every policy and is read back if and only if chunk and checksum fit 2^30 bytes |
| Witnesses.LongTableReadIff | reader/chunk_table.go:168-170 | a device in one-byte chunks listed by one table is written as an image that is read back if and only if the table has at most 2^24 entries, and that strict opens exactly then |
| RoundTrip.OpenImage | reader/open.go:141-204 | opening the supplied sources succeeds exactly if chains fit the cap and, under strict, every group keeps a readable intact copy; the reader is over the written device as far as limits and damage allow, with the merged digests |
| RoundTrip.ReadImage | reader/open.go:290-349 | reading the whole span meets no error if and only if limits and damage allow it, and then fills the buffer with the device, byte for byte |
| Verification.WriteZeros | verify.go:169-182 | exactly n zero bytes, a block at a time |
| Verification.Record | verify.go:131-156 | one round accounts for its whole step |
| Verification.ShortStep | verify.go:139-156 | a short read's gap is zero-filled and reported as exactly the unreadable rest of its step |
| Verification.StepPanicsIff | verify.go:131-131 | a step panics exactly if its one chunk does |
| Verification.Round | verify.go:121-159 | each round stays in one chunk and keeps the account complete, or panics exactly if that chunk does |
| Verification.Sweep | verify.go:121-159 | the loop accounts for the whole device, unless the context is cancelled before a round that it gets to, or the chunk of one panics; exactly one of the three |
| Verification.Verify | verify.go:89-167 | on success the digests cover exactly Size bytes, device bytes where readable and zeros elsewhere, and bad ranges are ascending, disjoint, and cover exactly the unreadable offsets; it is cancelled, or panics, exactly if the first round at which either happens says so |
| Witnesses.HugeChunksPanic | reader/open.go:246-270 | there is a written image with an accepted geometry of 2^61 bytes to a chunk that opens under every policy and on which the pass panics at once |
| Verification.NoPassPanics | verify.go:113-131 | with chunks of at least three bytes that can be allocated no pass panics, whatever the image |
| Verification.OKMeansTrueDevice | verify.go:55-72 | OK holds exactly when every byte was read and every stored digest, of which there is one, is the device's |
| VerifiedImages.WrittenPassPanicsIff | verify.go:113-131 | a pass over a written image panics if and only if its chunk size cannot be allocated |
| VerifiedImages.VerdictOnWritten | verify.go:55-72 | the verdict on a written image is OK if and only if limits and damage let all of it be read and its stored digests, of which there is one, are those of the written device |
| VerifiedImages.VerifyImage | verify.go:89-167 | so it is for the sources of the image supplied in any order, opened and verified; a pass that is not cancelled, not empty and can allocate its chunk comes to a result |
| SegNames.ExtSucceedsIff | internal/segname/segname.go:125-148 | a family of the letters E, L and S, in either case, names exactly the numbers from 1 to the end of its letter range; any other letter names none |
| SegNames.NumberInvertsExt | internal/segname/segname.go:108-167 | a generated name denotes the number it was generated for |
| SegNames.ExtInvertsNumber | internal/segname/segname.go:108-167 | the name generated for a denoted number is the given one but for case |
| SegNames.SameNumberIffSameUpToCase | internal/segname/segname.go:108-121 | two extensions share a number if and only if they differ only in case |
| SegNames.NumberIff | internal/segname/segname.go:108-167 | an extension denotes exactly the number whose generated name it is but for case |
| SegNames.ParseFamilyIff | internal/segname/segname.go:82-101 | by itself an extension names a segment exactly if its letter is E, L or S in either case and it is the name of one of the first 775 segments |
| SegNames.ExtKeepsCase | internal/segname/segname.go:150-166 | a generated name is in the case of the family throughout |
| SegNames.OrderFaithful | internal/segname/segname.go:125-167 | segment order is the case-blind order of the names |
| SegSets.Scan | internal/segname/segname.go:314-338 | fails exactly when two entries name one segment, else finds exactly the numbered entries |
| SegSets.AllNumericPresent | internal/segname/segname.go:416-423 | true exactly when 1..99 are all present |
| SegSets.ListInOrder | internal/segname/segname.go:356-368 | every member once, in ascending order |
| SegSets.Discover | internal/segname/segname.go:297-370 | failure exactly on a clash; else the set has exactly the named file's number and every number that a regular entry with the stem denotes, those from 100 on only if 1 to 99 are all denoted; once each, ascending, each under the name of its entry, the named file under its own |
| SegSets.DiscoveryIgnoresListingOrder | internal/segname/segname.go:314-370 | any two orders of one listing fail alike or give the same set |
| SegSets.DiscoveredSet | internal/segname/segname.go:340-369 | the named file is included, and another member numbered 100 or more means that 1..99 are all there |
| SegSets.CutAtLastDot | internal/segname/segname.go:299-322 | a name is cut into stem and extension at its last dot; without a dot it is all stem |
| SegSets.Missing | internal/segname/segname.go:381-398 | the absent numbers, ascending; it does not return exactly when the last number is 2^32 - 1 |
| SegSets.MissingIsComplement | internal/segname/segname.go:372-398 | found and missing numbers partition 1..last |
| SegSets.Names | internal/segname/segname.go:403-413 | the names the family can express, in order |
| SegSets.ReportedNameIsFound | internal/segname/segname.go:400-413 | a reported name is one that discovery would take for the segment it reports missing |
| SegSets.EveryMissingIsNamed | internal/segname/segname.go:400-413 | every missing number is reported under such a name |

## Left out

- The loop of `ReadAt` stands in four methods: what one round copies, the copy, the round, and the loop.
- Errors are kinds, not messages: the wrapped error texts and the segment numbers in them are not modelled.
- Running out of memory is not modelled: an allocation within the run time's limit succeeds.
- `Verify` gives each read a fresh buffer where the source reuses one; a context is a predicate on the number of the read; writing to a hash never fails; the loop stands in a method of its own.
- Compression, Adler-32, MD5 and SHA-1: library algorithms, arbitrary functions here.
- Digest sections of v1 and the zlib-compressed UTF-16 text sections of v2 (`reader/payload_parsing.go`, `reader/ewf2meta.go`): handed in as functions, so v2 geometry is what that function gives; header, xhash, session and acquisition-error sections only fill metadata fields.
- Display names of v2 section types: no v2 decision looks at them.
- The v1 round trip writes a table2 behind every table; that leaving them out changes nothing is `TableProperties.BackupsAddNothing`.
- What is read from the first group on of which an unverified table is used, which happens only under the default and the
  lenient policy, and only if one of its damaged copies is still readable. `TableGroups.GroupUses` says which copy is
  used; its chunks lie wherever the damaged entries say.
- A table2 that other sections separate from its table: the v1 writer puts it directly behind, and
  `ChunkTables.GapLengthensLast` says what the gap does.
- The mutex of the cache: a lookup and a store are atomic steps of the state machine, and plain methods of the class.
- `os.Stat`, `os.ReadDir`, symbolic links and path joining in `Discover`: an entry comes with a flag that it is regular; `strings.EqualFold` is an arbitrary relation.
- `sourceSize`: the length of a source is the length of its bytes, and a source that fills the buffer reports no error, as files and section readers do.
- Section counts, sessions and other metadata that merging only accumulates, `openpath.go`, the command-line tools and the accessors: no property that a reader of one body would not see.
