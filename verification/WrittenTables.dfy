/** Writing chunk groups: sectors, table and table2; and the chunk table that is built from them. */
module WrittenTables {
  import opened Bytes
  import opened Chunks
  import opened ChunkTables
  import opened LayoutV1
  import opened Sections
  import opened TableGroups
  import opened TableProperties

  /** A chunk with the bytes the writer stores for it. */
  datatype StoredChunk = StoredChunk(payload: seq<byte>, stored: seq<byte>, compressed: bool)

  /**
   * A group of chunks, what has become of the bodies of its table and table2 where they were damaged, and the other
   * sections that stand between it and the next group.
   */
  datatype WrittenGroup = WrittenGroup(
    chunks: seq<StoredChunk>, damagedTable: Option<Source>, damagedTable2: Option<Source>, others: seq<Block>)

  /** Stored in at least one byte. */
  predicate Storable(c: StoredChunk) {
    0 < |c.stored|
  }

  /** Stored as some stream that inflates to the payload, or as the payload with its Adler-32 behind it. */
  ghost predicate WellStored(lib: Library, c: StoredChunk) {
    && Storable(c)
    && if c.compressed then lib.zlib(c.stored) == Some(c.payload)
       else c.stored == c.payload + Put32(lib.adler32(c.payload))
  }

  ghost function Sizes(group: seq<StoredChunk>): (r: seq<Extent>)
    ensures |r| == |group|
  {
    seq(|group|, i requires 0 <= i < |group| => Extent(|group[i].stored|, group[i].compressed))
  }

  ghost function Sectors(group: seq<StoredChunk>, n: nat): seq<byte>
    requires n <= |group|
  {
    if n == 0 then [] else Sectors(group, n - 1) + group[n - 1].stored
  }

  lemma {:induction false} SectorsLength(group: seq<StoredChunk>, n: nat)
    requires n <= |group|
    ensures |Sectors(group, n)| == Rel(Sizes(group), n)
  {
    if n > 0 {
      SectorsLength(group, n - 1);
    }
  }

  /** The stored bytes of chunk i lie at its relative offset. */
  lemma {:induction false} ChunkPlaced(src: Source, at: nat, group: seq<StoredChunk>, n: nat, i: nat)
    requires i < n <= |group| && Placed(src, at, Sectors(group, n))
    ensures Placed(src, at + Rel(Sizes(group), i), group[i].stored)
    decreases n
  {
    PlacedParts(src, at, Sectors(group, n - 1), group[n - 1].stored);
    if i < n - 1 {
      ChunkPlaced(src, at, group, n - 1, i);
    } else {
      SectorsLength(group, n - 1);
    }
  }

  // ----- table bytes

  function OffsetBytes(raw: seq<u32>): (s: seq<byte>)
    ensures |s| == 4 * |raw|
  {
    if raw == [] then [] else OffsetBytes(raw[..|raw| - 1]) + Put32(raw[|raw| - 1])
  }

  lemma {:induction false} OffsetReadsBack(raw: seq<u32>, i: nat)
    requires i < |raw|
    ensures OffsetBytes(raw)[i * 4..i * 4 + 4] == Put32(raw[i])
  {
    var init := raw[..|raw| - 1];
    var bytes := OffsetBytes(raw);
    if i < |raw| - 1 {
      OffsetReadsBack(init, i);
      assert bytes[i * 4..i * 4 + 4] == OffsetBytes(init)[i * 4..i * 4 + 4];
    } else {
      assert bytes[i * 4..i * 4 + 4] == Put32(raw[i]);
    }
  }

  lemma {:induction false} RawOffsetsRoundTrip(raw: seq<u32>)
    ensures RawOffsets(OffsetBytes(raw)) == raw
  {
    var back := RawOffsets(OffsetBytes(raw));
    forall i | 0 <= i < |raw|
      ensures back[i] == raw[i]
    {
      OffsetReadsBack(raw, i);
      Put32RoundTrip(raw[i]);
    }
  }

  function HeaderFields(n: u32, base: u64): (s: seq<byte>)
    ensures |s| == 20
  {
    Put32(n) + Zeros(4) + Put64(base) + Zeros(4)
  }

  /** The body of a table section: header, checksum, entries, checksum. */
  function TableBytes(lib: Library, raw: seq<u32>, base: u64): (s: seq<byte>)
    requires |raw| < TWO_32
    ensures |s| == TABLE_HEADER_V1_SIZE + 4 * |raw| + TABLE_CHECKSUM_SIZE
  {
    var fields, entries := HeaderFields(|raw|, base), OffsetBytes(raw);
    (fields + Put32(lib.adler32(fields))) + (entries + Put32(lib.adler32(entries)))
  }

  lemma {:induction false} TableWindows(lib: Library, raw: seq<u32>, base: u64)
    requires |raw| < TWO_32
    ensures var s, fields, entries := TableBytes(lib, raw, base), HeaderFields(|raw|, base), OffsetBytes(raw);
            && s[0..24] == fields + Put32(lib.adler32(fields))
            && s[24..24 + 4 * |raw|] == entries
            && s[24 + 4 * |raw|..28 + 4 * |raw|] == Put32(lib.adler32(entries))
  {
  }

  lemma TableHeaderReadsBack(sum: u32, n: u32, base: u64)
    ensures var h := HeaderFields(n, base) + Put32(sum);
            && U32(h[0..4]) == n && U64(h[8..16]) == base && h[0..20] == HeaderFields(n, base) && U32(h[20..24]) == sum
  {
    var h := HeaderFields(n, base) + Put32(sum);
    assert h[0..4] == Put32(n) && h[8..16] == Put64(base) && h[20..24] == Put32(sum);
    Put32RoundTrip(n);
    Put64RoundTrip(base);
    Put32RoundTrip(sum);
  }

  /** A written table within the reader's limit is read back: entries, base, and both checksums valid. */
  lemma TableReadsBack(lib: Library, src: Source, section: SectionInfo, raw: seq<u32>, base: u64)
    requires 0 < |raw| <= MAX_TABLE_ENTRIES && HasBody(src, section, TableBytes(lib, raw, base))
    ensures ReadTable(lib, src, section) == Some(TableBody(raw, base, true))
  {
    var n := |raw|;
    var s, fields, entries := TableBytes(lib, raw, base), HeaderFields(n, base), OffsetBytes(raw);
    TableWindows(lib, raw, base);
    PlacedRead(src, section.dataOffset, s, 0, 24);
    PlacedRead(src, section.dataOffset, s, 24, 4 * n);
    TableHeaderReadsBack(lib.adler32(fields), n, base);
    RawOffsetsRoundTrip(raw);
    EntriesChecksumValid(lib, src, section, raw, base);
  }

  /** A longer one is not read at all, however intact. */
  lemma LongTableUnread(lib: Library, src: Source, section: SectionInfo, raw: seq<u32>, base: u64)
    requires MAX_TABLE_ENTRIES < |raw| < TWO_32 && HasBody(src, section, TableBytes(lib, raw, base))
    ensures ReadTable(lib, src, section) == None
  {
    var fields := HeaderFields(|raw|, base);
    TableWindows(lib, raw, base);
    PlacedRead(src, section.dataOffset, TableBytes(lib, raw, base), 0, 24);
    TableHeaderReadsBack(lib.adler32(fields), |raw|, base);
  }

  lemma {:induction false} EntriesChecksumValid(
    lib: Library, src: Source, section: SectionInfo, raw: seq<u32>, base: u64)
    requires 0 < |raw| <= MAX_TABLE_ENTRIES && HasBody(src, section, TableBytes(lib, raw, base))
    ensures EntriesValid(lib, src, section, OffsetBytes(raw))
  {
    TableWindows(lib, raw, base);
    PlacedRead(src, section.dataOffset, TableBytes(lib, raw, base), 24 + 4 * |raw|, 4);
    Put32RoundTrip(lib.adler32(OffsetBytes(raw)));
  }

  // ----- a written group

  /** The descriptor finds exactly the chunk's stored bytes and knows how they are stored. */
  ghost predicate Locates(src: Source, d: ChunkDescriptor, c: StoredChunk) {
    && d.dataSource == Some(src) && !d.pattern && !d.hasChecksum && d.majorVersion == 1
    && d.compressed == c.compressed && d.dataSize == |c.stored| && Placed(src, d.dataOffset, c.stored)
  }

  ghost predicate LocatesAll(src: Source, table: seq<ChunkDescriptor>, chunks: seq<StoredChunk>) {
    |table| == |chunks| && forall i :: 0 <= i < |chunks| ==> Locates(src, table[i], chunks[i])
  }

  /** A group the table format can express from base on, every flag included. */
  ghost predicate GroupFits(group: seq<StoredChunk>, base: int) {
    && 0 < |group| < TWO_32
    && (forall i :: 0 <= i < |group| ==> Storable(group[i]))
    && Encodable(Sizes(group), base)
    && (forall i :: 0 <= i < |group| && Plain(Sizes(group), base, i) ==> !group[i].compressed)
  }

  ghost function GroupTable(lib: Library, group: seq<StoredChunk>, base: int): (body: seq<byte>)
    requires GroupFits(group, base)
    ensures |body| == TABLE_HEADER_V1_SIZE + 4 * |group| + TABLE_CHECKSUM_SIZE
  {
    BaseFits(group, base);
    TableBytes(lib, Encode(Sizes(group), base), base)
  }

  lemma BaseFits(group: seq<StoredChunk>, base: int)
    requires GroupFits(group, base)
    ensures 0 <= base < TWO_64
  {
  }

  /** A true slot of the group locates its chunk. */
  lemma {:induction false} SlotLocates(src: Source, header: FileHeader, group: seq<StoredChunk>, base: nat, i: nat)
    requires GroupFits(group, base) && i < |group| && header.majorVersion == 1
    requires Placed(src, base, Sectors(group, |group|))
    ensures Locates(src, Describe(src, header, TrueSlot(Sizes(group), base, i)), group[i])
  {
    ChunkPlaced(src, base, group, |group|, i);
  }

  /** A table of a written group that takes the last chunk's size right parses, validated, and locates every chunk. */
  lemma TableLocates(
    lib: Library, src: Source, header: FileHeader, group: seq<StoredChunk>, base: nat, section: SectionInfo)
    requires GroupFits(group, base) && |group| <= MAX_TABLE_ENTRIES && header.majorVersion == 1
    requires Placed(src, base, Sectors(group, |group|)) && HasBody(src, section, GroupTable(lib, group, base))
    requires var sizes, last := Sizes(group), |group| - 1;
             LastSizeIn(section)(TrueSlot(sizes, base, last).offset) == |group[last].stored|
    ensures var parsed := ParseTableV1(lib, src, header, section);
            parsed.1 && LocatesAll(src, parsed.0, group)
  {
    var sizes := Sizes(group);
    BaseFits(group, base);
    TableReadsBack(lib, src, section, Encode(sizes, base), base);
    DecodeInverts(sizes, Encode(sizes, base), base, LastSizeIn(section), 0);
    var table := DescribeAll(src, header, TrueSlots(sizes, base, 0));
    forall i | 0 <= i < |group|
      ensures Locates(src, table[i], group[i])
    {
      SlotLocates(src, header, group, base, i);
      assert TrueSlots(sizes, base, 0)[i] == TrueSlot(sizes, base, 0 + i);
    }
  }

  /** section starts where the group's data ends. */
  ghost predicate BehindData(group: seq<StoredChunk>, base: nat, section: SectionInfo) {
    section.typeString == "table" && section.offset == base + Rel(Sizes(group), |group|)
  }

  lemma LastSizeBehindData(group: seq<StoredChunk>, base: nat, section: SectionInfo)
    requires GroupFits(group, base) && BehindData(group, base, section)
    ensures var sizes, last := Sizes(group), |group| - 1;
            LastSizeIn(section)(TrueSlot(sizes, base, last).offset) == |group[last].stored|
  {
    assert Storable(group[|group| - 1]);
    NotABackup(section);
  }

  /** What one copy of the group's table comes to: every chunk located, if it is intact and not too long. */
  ghost predicate ParsesAs(src: Source, chunks: seq<StoredChunk>, damaged: Option<Source>,
                           parsed: (seq<ChunkDescriptor>, bool)) {
    if damaged.None? && |chunks| <= MAX_TABLE_ENTRIES then parsed.1 && LocatesAll(src, parsed.0, chunks)
    else !parsed.1 && ((damaged.Some? ==> !BodyReadable(damaged.value)) ==> parsed.0 == [])
  }

  /** A damaged copy does not validate; one that is not even readable yields nothing. */
  lemma DamagedCopyParses(
    lib: Library, src: Source, header: FileHeader, chunks: seq<StoredChunk>, section: SectionInfo, body: Source)
    requires HasBody(src, section, body) && !BodyValid(lib, body)
    ensures ParsesAs(src, chunks, Some(body), ParseTableV1(lib, src, header, section))
  {
    VerdictOfBody(lib, src, header, section, body);
  }

  lemma LongCopyParses(
    lib: Library, src: Source, header: FileHeader, group: seq<StoredChunk>, base: nat, section: SectionInfo)
    requires GroupFits(group, base) && MAX_TABLE_ENTRIES < |group|
    requires HasBody(src, section, GroupTable(lib, group, base))
    ensures ParsesAs(src, group, None, ParseTableV1(lib, src, header, section))
  {
    BaseFits(group, base);
    LongTableUnread(lib, src, section, Encode(Sizes(group), base), base);
  }

  /**
   * The primary table of a written group: undamaged and within the reader's limit it parses, validated, to descriptors
   * that locate every chunk; else it does not validate.
   */
  lemma {:induction false} GroupParses(
    lib: Library, src: Source, header: FileHeader, g: WrittenGroup, base: nat, section: SectionInfo)
    requires WrittenFits(lib, g, base) && header.majorVersion == 1 && BehindData(g.chunks, base, section)
    requires Placed(src, base, Sectors(g.chunks, |g.chunks|))
    requires HasBody(src, section, CopyBody(lib, g, base, g.damagedTable))
    ensures ParsesAs(src, g.chunks, g.damagedTable, ParseTableV1(lib, src, header, section))
  {
    if g.damagedTable.Some? {
      DamagedCopyParses(lib, src, header, g.chunks, section, g.damagedTable.value);
    } else if |g.chunks| > MAX_TABLE_ENTRIES {
      LongCopyParses(lib, src, header, g.chunks, base, section);
    } else {
      LastSizeBehindData(g.chunks, base, section);
      TableLocates(lib, src, header, g.chunks, base, section);
    }
  }

  /** So does the backup right behind it, whatever the primary's body has become. */
  lemma {:induction false} BackupParses(
    lib: Library, src: Source, header: FileHeader, g: WrittenGroup, base: nat, primary: SectionInfo,
    backup: SectionInfo)
    requires WrittenFits(lib, g, base) && header.majorVersion == 1 && BehindData(g.chunks, base, primary)
    requires DirectlyAfter(primary, backup)
    requires Placed(src, base, Sectors(g.chunks, |g.chunks|))
    requires HasBody(src, backup, CopyBody(lib, g, base, g.damagedTable2))
    ensures ParsesAs(src, g.chunks, g.damagedTable2, ParseTableV1(lib, src, header, backup))
  {
    if g.damagedTable2.Some? {
      DamagedCopyParses(lib, src, header, g.chunks, backup, g.damagedTable2.value);
    } else if |g.chunks| > MAX_TABLE_ENTRIES {
      LongCopyParses(lib, src, header, g.chunks, base, backup);
    } else {
      LastSizeBehindData(g.chunks, base, primary);
      LastSizesAgree(primary, backup);
      TableLocates(lib, src, header, g.chunks, base, backup);
    }
  }

  lemma NotABackup(section: SectionInfo)
    requires section.typeString == "table"
    ensures section.typeString != "table2"
  {
    assert |section.typeString| == 5;
  }

  // ----- all groups of a segment

  /** A group fits where its chunks do; a damaged table has kept its size, and its checksums detect the damage. */
  ghost predicate WrittenFits(lib: Library, g: WrittenGroup, base: int) {
    && GroupFits(g.chunks, base)
    && DamageDetected(lib, g, base, g.damagedTable) && DamageDetected(lib, g, base, g.damagedTable2)
  }

  ghost predicate DamageDetected(lib: Library, g: WrittenGroup, base: int, damaged: Option<Source>)
    requires GroupFits(g.chunks, base)
  {
    damaged.Some? ==> |damaged.value| == |GroupTable(lib, g.chunks, base)| && !BodyValid(lib, damaged.value)
  }

  /** The body of one copy of the group's table. */
  ghost function CopyBody(lib: Library, g: WrittenGroup, base: int, damaged: Option<Source>): (body: seq<byte>)
    requires GroupFits(g.chunks, base) && DamageDetected(lib, g, base, damaged)
    ensures |body| == |GroupTable(lib, g.chunks, base)|
  {
    if damaged.Some? then damaged.value else GroupTable(lib, g.chunks, base)
  }

  ghost function GroupBlocks(lib: Library, g: WrittenGroup, at: nat): seq<Block>
    requires WrittenFits(lib, g, at + DESCRIPTOR_V1_SIZE)
  {
    [Block("sectors", Sectors(g.chunks, |g.chunks|)),
     Block("table", CopyBody(lib, g, at + DESCRIPTOR_V1_SIZE, g.damagedTable)),
     Block("table2", CopyBody(lib, g, at + DESCRIPTOR_V1_SIZE, g.damagedTable2))]
  }

  /** Sections besides volume and groups: anything that is no table, geometry or end of chain. */
  ghost predicate Harmless(kind: Kinds, others: seq<Block>) {
    && Writable(kind, others)
    && forall i :: 0 <= i < |others| ==>
         kind(others[i].name) != TYPE_SECTOR_TABLE && kind(others[i].name) != TYPE_DEVICE_INFORMATION
  }

  function SizeOfAll(blocks: seq<Block>): nat {
    if blocks == [] then 0 else SizeOf(blocks[0]) + SizeOfAll(blocks[1..])
  }

  /** Where the table2 of a group ends. */
  ghost function TablesEnd(group: seq<StoredChunk>, at: nat): nat {
    at + 3 * DESCRIPTOR_V1_SIZE + |Sectors(group, |group|)| +
    2 * (TABLE_HEADER_V1_SIZE + 4 * |group| + TABLE_CHECKSUM_SIZE)
  }

  /** Where the next group starts. */
  ghost function GroupEnd(g: WrittenGroup, at: nat): nat {
    TablesEnd(g.chunks, at) + SizeOfAll(g.others)
  }

  ghost predicate GroupsFit(lib: Library, groups: seq<WrittenGroup>, at: nat)
    decreases |groups|
  {
    groups != [] ==>
      && WrittenFits(lib, groups[0], at + DESCRIPTOR_V1_SIZE) && Harmless(MapV1TypeString, groups[0].others)
      && GroupsFit(lib, groups[1..], GroupEnd(groups[0], at))
  }

  ghost function GroupsBlocks(lib: Library, groups: seq<WrittenGroup>, at: nat): seq<Block>
    requires GroupsFit(lib, groups, at)
    decreases |groups|
  {
    if groups == [] then []
    else GroupBlocks(lib, groups[0], at) + (groups[0].others + GroupsBlocks(lib, groups[1..], GroupEnd(groups[0], at)))
  }

  /** The chunks of all groups, in order. */
  function ChunksOf(groups: seq<WrittenGroup>): seq<StoredChunk> {
    if groups == [] then [] else groups[0].chunks + ChunksOf(groups[1..])
  }

  // ----- what the reader sees of them

  /** Some copy of the group's table is undamaged. */
  predicate KeepsACopy(g: WrittenGroup) {
    g.damagedTable.None? || g.damagedTable2.None?
  }

  /** The group reaches the reader: its table is not too long, and a copy of it is left. */
  predicate Kept(g: WrittenGroup) {
    |g.chunks| <= MAX_TABLE_ENTRIES && KeepsACopy(g)
  }

  predicate AllKept(groups: seq<WrittenGroup>) {
    forall i :: 0 <= i < |groups| ==> Kept(groups[i])
  }

  /** Nothing of the group reaches the reader: neither copy is readable at all. */
  predicate Lost(g: WrittenGroup) {
    && !Kept(g) && (g.damagedTable.Some? ==> !BodyReadable(g.damagedTable.value))
    && (g.damagedTable2.Some? ==> !BodyReadable(g.damagedTable2.value))
  }

  /** Every group is either kept or lost, so no unverified table is used. */
  predicate Settled(groups: seq<WrittenGroup>) {
    forall i :: 0 <= i < |groups| ==> Kept(groups[i]) || Lost(groups[i])
  }

  /** The chunks of the kept groups, in order. */
  function KeptChunks(groups: seq<WrittenGroup>): seq<StoredChunk> {
    if groups == [] then [] else (if Kept(groups[0]) then groups[0].chunks else []) + KeptChunks(groups[1..])
  }

  /** How one written group is counted. */
  function StatsOf(g: WrittenGroup): Stats {
    if Kept(g) then Stats(1, if g.damagedTable.Some? then 1 else 0, 0) else Stats(1, 0, 1)
  }

  const STATS: WrittenGroup -> Stats := (g: WrittenGroup) => StatsOf(g)

  function StatsOfAll(groups: seq<WrittenGroup>): Stats {
    SumStats(Mapped(STATS, groups))
  }

  lemma StatsOfFirstGroup(groups: seq<WrittenGroup>)
    requires groups != []
    ensures StatsOfAll(groups) == AddStats(StatsOf(groups[0]), StatsOfAll(groups[1..]))
  {
    assert Mapped(STATS, groups)[1..] == Mapped(STATS, groups[1..]);
  }

  /** What the type codes of the writer's names are. */
  ghost predicate KnownKinds(kind: Kinds) {
    && kind("sectors") == TYPE_SECTOR_DATA && kind("table") == TYPE_SECTOR_TABLE && kind("table2") == TYPE_SECTOR_TABLE
    && kind("next") == TYPE_NEXT && kind("done") == TYPE_DONE && kind("volume") == TYPE_DEVICE_INFORMATION
    && forall name: string :: kind(name) != TYPE_ENCRYPTION_KEYS
  }

  lemma MapV1IsKnown()
    ensures KnownKinds(MapV1TypeString)
  {
  }

  /** One described block, and the description of the rest. */
  lemma DescribedBlock(src: Source, kind: Kinds, infos: seq<SectionInfo>, blocks: seq<Block>,
                                          b: Block, rest: seq<Block>, at: nat, terminal: string)
    requires Describes(src, kind, infos, blocks, at, terminal) && blocks == [b] + rest
    ensures var size := DESCRIPTOR_V1_SIZE + |b.payload|;
            && |infos| > 1 && size < TWO_64 && at + size + DESCRIPTOR_V1_SIZE <= |src|
            && infos[0] == InfoV1(kind, at, b.name, size) && Placed(src, at + DESCRIPTOR_V1_SIZE, b.payload)
            && Describes(src, kind, infos[1..], rest, at + size, terminal)
  {
    assert blocks[1..] == rest;
  }

  function SizeOf(b: Block): nat { DESCRIPTOR_V1_SIZE + |b.payload| }

  lemma {:induction false} TwoBlocks(src: Source, kind: Kinds, infos: seq<SectionInfo>, blocks: seq<Block>,
                                     a: Block, b: Block, rest: seq<Block>, at: nat, end: nat, terminal: string)
    requires Describes(src, kind, infos, blocks, at, terminal) && blocks == [a, b] + rest
    requires end == at + SizeOf(a) + SizeOf(b)
    ensures |infos| > 2 && end + DESCRIPTOR_V1_SIZE <= |src|
    ensures infos[0] == InfoV1(kind, at, a.name, SizeOf(a)) && Placed(src, at + DESCRIPTOR_V1_SIZE, a.payload)
    ensures infos[1] == InfoV1(kind, at + SizeOf(a), b.name, SizeOf(b))
    ensures Placed(src, at + SizeOf(a) + DESCRIPTOR_V1_SIZE, b.payload)
    ensures Describes(src, kind, infos[2..], rest, end, terminal)
  {
    assert blocks == [a] + ([b] + rest);
    DescribedBlock(src, kind, infos, blocks, a, [b] + rest, at, terminal);
    DescribedBlock(src, kind, infos[1..], [b] + rest, b, rest, at + SizeOf(a), terminal);
    assert infos[1..][1..] == infos[2..];
  }

  /** The sections of three described blocks, and the description of what follows. */
  lemma {:induction false} ThreeBlocks(src: Source, kind: Kinds, infos: seq<SectionInfo>, blocks: seq<Block>,
                                       a: Block, b: Block, c: Block, rest: seq<Block>, at: nat, end: nat,
                                       terminal: string)
    requires Describes(src, kind, infos, blocks, at, terminal) && blocks == [a, b, c] + rest
    requires end == at + SizeOf(a) + SizeOf(b) + SizeOf(c)
    ensures |infos| > 3 && end + DESCRIPTOR_V1_SIZE <= |src|
    ensures infos[0] == InfoV1(kind, at, a.name, SizeOf(a)) && Placed(src, at + DESCRIPTOR_V1_SIZE, a.payload)
    ensures infos[1] == InfoV1(kind, at + SizeOf(a), b.name, SizeOf(b))
    ensures Placed(src, at + SizeOf(a) + DESCRIPTOR_V1_SIZE, b.payload)
    ensures infos[2] == InfoV1(kind, at + SizeOf(a) + SizeOf(b), c.name, SizeOf(c))
    ensures Placed(src, at + SizeOf(a) + SizeOf(b) + DESCRIPTOR_V1_SIZE, c.payload)
    ensures Describes(src, kind, infos[3..], rest, end, terminal)
  {
    var third := at + SizeOf(a) + SizeOf(b);
    assert blocks == [a, b] + ([c] + rest);
    TwoBlocks(src, kind, infos, blocks, a, b, [c] + rest, at, third, terminal);
    DescribedBlock(src, kind, infos[2..], [c] + rest, c, rest, third, terminal);
    assert infos[2..][1..] == infos[3..];
  }

  /** A group's three blocks. */
  ghost predicate AreGroupBlocks(lib: Library, g: WrittenGroup, base: int, a: Block, b: Block, c: Block) {
    && WrittenFits(lib, g, base)
    && a == Block("sectors", Sectors(g.chunks, |g.chunks|))
    && b == Block("table", CopyBody(lib, g, base, g.damagedTable))
    && c == Block("table2", CopyBody(lib, g, base, g.damagedTable2))
  }

  ghost predicate NamedAsGroup(kind: Kinds, a: Block, b: Block, c: Block) {
    && kind(a.name) == TYPE_SECTOR_DATA && kind(b.name) == kind(c.name) == TYPE_SECTOR_TABLE
    && b.name == "table" && c.name == "table2"
  }

  lemma SplitGroupBlocks(
    lib: Library, kind: Kinds, g: WrittenGroup, at: nat, rest: seq<Block>)
    returns (a: Block, b: Block, c: Block)
    requires WrittenFits(lib, g, at + DESCRIPTOR_V1_SIZE) && KnownKinds(kind)
    ensures NamedAsGroup(kind, a, b, c)
    ensures GroupBlocks(lib, g, at) + rest == [a, b, c] + rest
    ensures AreGroupBlocks(lib, g, at + DESCRIPTOR_V1_SIZE, a, b, c)
    ensures at + SizeOf(a) + SizeOf(b) + SizeOf(c) == TablesEnd(g.chunks, at)
  {
    var blocks := GroupBlocks(lib, g, at);
    a, b, c := blocks[0], blocks[1], blocks[2];
  }
}
