/** A written EWF v1 segment, parsed back: its number, geometry, and a table that locates every chunk. */
module SegmentRoundTrip {
  import opened Bytes
  import opened Chunks
  import opened ChunkTables
  import opened ImageReaders
  import opened LayoutV1
  import opened Openings
  import opened Sections
  import opened Segments
  import opened TableGroups
  import opened TableProperties
  import opened WrittenTables

  // ----- the chunk table of the written groups

  /** What a group of two such copies is built into: all of it, or nothing that validated. */
  ghost predicate BuiltAs(lib: Library, src: Source, g: WrittenGroup, built: Built) {
    && built.stats == StatsOf(g)
    && (Kept(g) ==> LocatesAll(src, built.table, g.chunks))
    && (Lost(g) ==> built.table == [])
  }

  lemma CopiesBuild(
    lib: Library, src: Source, header: FileHeader, g: WrittenGroup, primary: SectionInfo, backup: SectionInfo)
    requires g.chunks != []
    requires ParsesAs(src, g.chunks, g.damagedTable, ParseTableV1(lib, src, header, primary))
    requires ParsesAs(src, g.chunks, g.damagedTable2, ParseTableV1(lib, src, header, backup))
    ensures BuiltAs(lib, src, g, BuildGroup(lib, src, header, Copies(primary, Some(backup))))
  {
  }

  /** Sectors, table and table2 in front make one group of copies in front. */
  lemma {:induction false} PairedGroup(infos: seq<SectionInfo>)
    requires |infos| > 3 && infos[0].typ == TYPE_SECTOR_DATA
    requires infos[1].typ == infos[2].typ == TYPE_SECTOR_TABLE
    requires infos[1].descriptorSize == DESCRIPTOR_V1_SIZE
    requires infos[1].typeString == "table" && infos[2].typeString == "table2"
    ensures Pair(SectorTables(infos)) == [Copies(infos[1], Some(infos[2]))] + Pair(SectorTables(infos[3..]))
  {
    assert infos[1..][0] == infos[1] && infos[1..][1..] == infos[2..] && infos[2..][0] == infos[2];
    assert infos[2..][1..] == infos[3..];
    var rest := SectorTables(infos[3..]);
    assert SectorTables(infos[2..]) == [infos[2]] + rest;
    assert SectorTables(infos[1..]) == [infos[1]] + ([infos[2]] + rest);
    assert SectorTables(infos) == [infos[1], infos[2]] + rest;
    assert SectorTables(infos)[2..] == rest;
  }

  /** primary and backup are the sections of a group's table blocks, right behind its sectors. */
  ghost predicate IsGroup(lib: Library, src: Source, g: WrittenGroup, base: nat, a: Block, b: Block, c: Block,
                          primary: SectionInfo, backup: SectionInfo) {
    && AreGroupBlocks(lib, g, base, a, b, c) && Placed(src, base, a.payload)
    && HasBody(src, primary, b.payload) && HasBody(src, backup, c.payload)
    && BehindData(g.chunks, base, primary) && DirectlyAfter(primary, backup)
  }

  /** The sections of the table blocks right behind a sectors block are the group's. */
  lemma TablesAreGroup(
    lib: Library, src: Source, kind: Kinds, g: WrittenGroup, at: nat, a: Block, b: Block, c: Block)
    requires AreGroupBlocks(lib, g, at + DESCRIPTOR_V1_SIZE, a, b, c) && Placed(src, at + DESCRIPTOR_V1_SIZE, a.payload)
    requires Placed(src, at + SizeOf(a) + DESCRIPTOR_V1_SIZE, b.payload) && SizeOf(b) == SizeOf(c) < TWO_64
    requires Placed(src, at + SizeOf(a) + SizeOf(b) + DESCRIPTOR_V1_SIZE, c.payload)
    ensures IsGroup(lib, src, g, at + DESCRIPTOR_V1_SIZE, a, b, c, InfoV1(kind, at + SizeOf(a), b.name, SizeOf(b)),
                    InfoV1(kind, at + SizeOf(a) + SizeOf(b), c.name, SizeOf(c)))
  {
    SectorsLength(g.chunks, |g.chunks|);
    NotABackup(InfoV1(kind, at + SizeOf(a), b.name, SizeOf(b)));
  }

  /** The sections of a group's three blocks pair into one group of copies. */
  lemma {:induction false} GroupIsPaired(
    lib: Library, src: Source, kind: Kinds, infos: seq<SectionInfo>, blocks: seq<Block>, g: WrittenGroup,
    a: Block, b: Block, c: Block, rest: seq<Block>, at: nat, end: nat, terminal: string)
    requires end == at + SizeOf(a) + SizeOf(b) + SizeOf(c)
    requires AreGroupBlocks(lib, g, at + DESCRIPTOR_V1_SIZE, a, b, c) && NamedAsGroup(kind, a, b, c)
    requires blocks == [a, b, c] + rest && Describes(src, kind, infos, blocks, at, terminal)
    ensures |infos| > 3 && Describes(src, kind, infos[3..], rest, end, terminal)
    ensures forall i :: 0 <= i < 3 ==> infos[i].typ == TYPE_SECTOR_DATA || infos[i].typ == TYPE_SECTOR_TABLE
    ensures Pair(SectorTables(infos)) == [Copies(infos[1], Some(infos[2]))] + Pair(SectorTables(infos[3..]))
    ensures IsGroup(lib, src, g, at + DESCRIPTOR_V1_SIZE, a, b, c, infos[1], infos[2])
  {
    ThreeBlocks(src, kind, infos, blocks, a, b, c, rest, at, end, terminal);
    TablesAreGroup(lib, src, kind, g, at, a, b, c);
    PairedGroup(infos);
  }

  /** A written group is built from whichever copy is intact, if it is not too long to be read. */
  lemma WrittenGroupBuilds(
    lib: Library, src: Source, header: FileHeader, g: WrittenGroup, base: nat, a: Block, b: Block, c: Block,
    primary: SectionInfo, backup: SectionInfo)
    requires header.majorVersion == 1 && IsGroup(lib, src, g, base, a, b, c, primary, backup)
    ensures BuiltAs(lib, src, g, BuildGroup(lib, src, header, Copies(primary, Some(backup))))
  {
    GroupParses(lib, src, header, g, base, primary);
    BackupParses(lib, src, header, g, base, primary, backup);
    CopiesBuild(lib, src, header, g, primary, backup);
  }

  /** The first of the written groups: its sections pair into one group. */
  lemma {:induction false} GroupInFront(
    lib: Library, src: Source, header: FileHeader, build: TableGroups.Group -> Built, kind: Kinds,
    infos: seq<SectionInfo>, g: WrittenGroup, rest: seq<Block>, at: nat, terminal: string)
    requires build == GroupBuilder(lib, src, header)
    requires KnownKinds(kind) && header.majorVersion == 1 && WrittenFits(lib, g, at + DESCRIPTOR_V1_SIZE)
    requires Describes(src, kind, infos, GroupBlocks(lib, g, at) + rest, at, terminal)
    ensures |infos| > 3 && Describes(src, kind, infos[3..], rest, TablesEnd(g.chunks, at), terminal)
    ensures forall i :: 0 <= i < 3 ==> infos[i].typ == TYPE_SECTOR_DATA || infos[i].typ == TYPE_SECTOR_TABLE
    ensures var first := Copies(infos[1], Some(infos[2]));
            && Pair(SectorTables(infos)) == [first] + Pair(SectorTables(infos[3..]))
            && BuiltAs(lib, src, g, build(first))
  {
    var a, b, c := SplitGroupBlocks(lib, kind, g, at, rest);
    var end := TablesEnd(g.chunks, at);
    GroupIsPaired(lib, src, kind, infos, GroupBlocks(lib, g, at) + rest, g, a, b, c, rest, at, end, terminal);
    WrittenGroupBuilds(lib, src, header, g, at + DESCRIPTOR_V1_SIZE, a, b, c, infos[1], infos[2]);
  }

  /** The first group and the other sections behind it; tail is what describes the rest. */
  lemma FirstGroupBuilds(
    lib: Library, src: Source, header: FileHeader, build: TableGroups.Group -> Built, kind: Kinds,
    infos: seq<SectionInfo>, g: WrittenGroup, rest: seq<Block>, at: nat, terminal: string, media: Option<Media>)
    returns (tail: seq<SectionInfo>)
    requires build == GroupBuilder(lib, src, header)
    requires KnownKinds(kind) && header.majorVersion == 1 && WrittenFits(lib, g, at + DESCRIPTOR_V1_SIZE)
    requires Harmless(kind, g.others)
    requires Describes(src, kind, infos, GroupBlocks(lib, g, at) + (g.others + rest), at, terminal)
    ensures |infos| > 3 && Describes(src, kind, tail, rest, GroupEnd(g, at), terminal)
    ensures var first := Copies(infos[1], Some(infos[2]));
            Pair(SectorTables(infos)) == [first] + Pair(SectorTables(tail)) && BuiltAs(lib, src, g, build(first))
    ensures MediaV1(src, infos, media) == MediaV1(src, tail, media)
  {
    GroupInFront(lib, src, header, build, kind, infos, g, g.others + rest, at, terminal);
    ExtrasSkipped(src, kind, infos[3..], g.others + rest, g.others, rest, TablesEnd(g.chunks, at), GroupEnd(g, at),
                  terminal, media);
    tail := infos[3..][|g.others|..];
    NoMediaInThree(src, infos, media);
  }

  ghost predicate StartLocates(src: Source, table: seq<ChunkDescriptor>, chunks: seq<StoredChunk>) {
    |chunks| <= |table| && LocatesAll(src, table[..|chunks|], chunks)
  }

  /** As far as the groups are kept, the table locates their chunks, whatever comes behind them. */
  ghost predicate FrontLocated(src: Source, groups: seq<WrittenGroup>, table: seq<ChunkDescriptor>) {
    forall n :: 0 <= n <= |groups| && AllKept(groups[..n]) ==> StartLocates(src, table, ChunksOf(groups[..n]))
  }

  lemma {:induction false} StartGrows(
    src: Source, ta: seq<ChunkDescriptor>, a: seq<StoredChunk>, tb: seq<ChunkDescriptor>, b: seq<StoredChunk>)
    requires LocatesAll(src, ta, a) && StartLocates(src, tb, b)
    ensures StartLocates(src, ta + tb, a + b)
  {
    assert (ta + tb)[..|a + b|] == ta + tb[..|b|];
    LocatesAppend(src, ta, a, tb[..|b|], b);
  }

  lemma {:induction false} FrontGrows(
    src: Source, groups: seq<WrittenGroup>, first: seq<ChunkDescriptor>, rest: seq<ChunkDescriptor>)
    requires groups != [] && (Kept(groups[0]) ==> LocatesAll(src, first, groups[0].chunks))
    requires FrontLocated(src, groups[1..], rest)
    ensures FrontLocated(src, groups, first + rest)
  {
    forall n | 0 <= n <= |groups| && AllKept(groups[..n])
      ensures StartLocates(src, first + rest, ChunksOf(groups[..n]))
    {
      if n > 0 {
        var front, later := groups[..n], groups[1..][..n - 1];
        assert front[0] == groups[0] && front[1..] == later;
        assert forall i :: 0 <= i < |later| ==> later[i] == front[i + 1];
        StartGrows(src, first, groups[0].chunks, rest, ChunksOf(later));
      }
    }
  }

  /** What all groups together are built into. */
  ghost predicate AllBuiltAs(lib: Library, src: Source, groups: seq<WrittenGroup>, built: Built) {
    && built.stats == StatsOfAll(groups) && FrontLocated(src, groups, built.table)
    && (Settled(groups) ==> LocatesAll(src, built.table, KeptChunks(groups)))
  }

  lemma BuiltAppend(lib: Library, src: Source, groups: seq<WrittenGroup>, first: Built, rest: Built)
    requires groups != [] && BuiltAs(lib, src, groups[0], first) && AllBuiltAs(lib, src, groups[1..], rest)
    ensures AllBuiltAs(lib, src, groups, Append(first, rest))
  {
    StatsOfFirstGroup(groups);
    FrontGrows(src, groups, first.table, rest.table);
    if Settled(groups) {
      assert forall i :: 0 <= i < |groups[1..]| ==> groups[1..][i] == groups[i + 1];
      var own := if Kept(groups[0]) then groups[0].chunks else [];
      LocatesAppend(src, first.table, own, rest.table, KeptChunks(groups[1..]));
    }
  }

  /**
   * The table built from the sections of written groups locates the chunks of the kept ones in order; a kept group
   * counts as recovered if its first copy is damaged, any other as invalid.
   */
  lemma {:induction false} GroupsBuild(
    lib: Library, src: Source, header: FileHeader, build: TableGroups.Group -> Built, kind: Kinds,
    infos: seq<SectionInfo>, groups: seq<WrittenGroup>, at: nat, terminal: string)
    requires build == GroupBuilder(lib, src, header)
    requires KnownKinds(kind) && kind == MapV1TypeString
    requires header.majorVersion == 1 && kind(terminal) != TYPE_SECTOR_TABLE
    requires GroupsFit(lib, groups, at) && Describes(src, kind, infos, GroupsBlocks(lib, groups, at), at, terminal)
    ensures AllBuiltAs(lib, src, groups, Total(build, Pair(SectorTables(infos))))
    decreases |groups|
  {
    if groups == [] {
      NoTables(infos, kind, at, terminal);
    } else {
      var g, later := groups[0], groups[1..];
      var end := GroupEnd(g, at);
      var tail := FirstGroupBuilds(lib, src, header, build, kind, infos, g, GroupsBlocks(lib, later, end), at, terminal,
                                   None);
      GroupsBuild(lib, src, header, build, kind, tail, later, end, terminal);
      var first, rest := Copies(infos[1], Some(infos[2])), Pair(SectorTables(tail));
      TotalStep(build, first, rest);
      BuiltAppend(lib, src, groups, build(first), Total(build, rest));
    }
  }

  lemma {:induction false} NoTables(infos: seq<SectionInfo>, kind: Kinds, at: pos, terminal: string)
    requires at + DESCRIPTOR_V1_SIZE <= MAX_INT64
    requires infos == [InfoV1(kind, at, terminal, 0)] && kind(terminal) != TYPE_SECTOR_TABLE
    ensures SectorTables(infos) == []
  {
    assert infos[1..] == [];
  }

  lemma LocatesAppend(src: Source, a: seq<ChunkDescriptor>, ca: seq<StoredChunk>,
                                         b: seq<ChunkDescriptor>, cb: seq<StoredChunk>)
    requires LocatesAll(src, a, ca) && LocatesAll(src, b, cb)
    ensures LocatesAll(src, a + b, ca + cb)
  {
  }

  // ----- other sections

  lemma HarmlessTail(kind: Kinds, extras: seq<Block>)
    requires Harmless(kind, extras) && extras != []
    ensures Harmless(kind, extras[1..])
    ensures kind(extras[0].name) != TYPE_SECTOR_TABLE && kind(extras[0].name) != TYPE_DEVICE_INFORMATION
  {
    assert forall i :: 0 <= i < |extras[1..]| ==> extras[1..][i] == extras[i + 1];
  }

  lemma {:induction false} SkipOne(src: Source, infos: seq<SectionInfo>, media: Option<Media>)
    requires infos != [] && infos[0].typ != TYPE_SECTOR_TABLE && infos[0].typ != TYPE_DEVICE_INFORMATION
    ensures SectorTables(infos) == SectorTables(infos[1..])
    ensures MediaV1(src, infos, media) == MediaV1(src, infos[1..], media)
  {
  }

  lemma {:induction false} ExtrasSkipped(
    src: Source, kind: Kinds, infos: seq<SectionInfo>, blocks: seq<Block>, extras: seq<Block>, rest: seq<Block>,
    at: nat, end: nat, terminal: string, media: Option<Media>)
    requires Harmless(kind, extras) && Describes(src, kind, infos, blocks, at, terminal)
    requires blocks == extras + rest && end == at + SizeOfAll(extras)
    ensures |extras| < |infos| && Describes(src, kind, infos[|extras|..], rest, end, terminal)
    ensures SectorTables(infos) == SectorTables(infos[|extras|..])
    ensures MediaV1(src, infos, media) == MediaV1(src, infos[|extras|..], media)
    decreases |extras|
  {
    if extras == [] {
      assert blocks == rest && infos[0..] == infos;
    } else {
      var b, later := extras[0], extras[1..];
      assert blocks == [b] + (later + rest);
      DescribedBlock(src, kind, infos, blocks, b, later + rest, at, terminal);
      HarmlessTail(kind, extras);
      ExtrasSkipped(src, kind, infos[1..], later + rest, later, rest, at + SizeOf(b), end, terminal, media);
      assert infos[1..][|later|..] == infos[|extras|..];
      SkipOne(src, infos, media);
    }
  }

  /** Groups carry no geometry. */
  lemma {:induction false} GroupsCarryNoMedia(
    lib: Library, src: Source, header: FileHeader, kind: Kinds, infos: seq<SectionInfo>,
    groups: seq<WrittenGroup>, at: nat, terminal: string, media: Option<Media>)
    requires KnownKinds(kind) && kind == MapV1TypeString && header.majorVersion == 1
    requires kind(terminal) == TYPE_NEXT || kind(terminal) == TYPE_DONE
    requires GroupsFit(lib, groups, at) && Describes(src, kind, infos, GroupsBlocks(lib, groups, at), at, terminal)
    ensures MediaV1(src, infos, media) == media
    decreases |groups|
  {
    if groups == [] {
      assert infos == [InfoV1(kind, at, terminal, 0)] && infos[1..] == [];
    } else {
      var g, later := groups[0], groups[1..];
      var end := GroupEnd(g, at);
      var tail := FirstGroupBuilds(lib, src, header, GroupBuilder(lib, src, header), kind, infos, g,
                                   GroupsBlocks(lib, later, end), at, terminal, media);
      GroupsCarryNoMedia(lib, src, header, kind, tail, later, end, terminal, media);
    }
  }

  lemma {:induction false} NoMediaInThree(src: Source, infos: seq<SectionInfo>, media: Option<Media>)
    requires |infos| >= 3 && forall i :: 0 <= i < 3 ==> infos[i].typ != TYPE_DEVICE_INFORMATION
    ensures MediaV1(src, infos, media) == MediaV1(src, infos[3..], media)
  {
    assert infos[1..][0] == infos[1] && infos[1..][1..] == infos[2..] && infos[2..][0] == infos[2];
    assert infos[2..][1..] == infos[3..];
    assert MediaV1(src, infos[2..], media) == MediaV1(src, infos[3..], media);
    assert MediaV1(src, infos[1..], media) == MediaV1(src, infos[2..], media);
  }

  /** No section of a written chain signals encryption, and the last is the terminal. */
  lemma {:induction false} ChainFlags(
    src: Source, kind: Kinds, infos: seq<SectionInfo>, blocks: seq<Block>, at: nat, terminal: string)
    requires KnownKinds(kind) && Describes(src, kind, infos, blocks, at, terminal)
    ensures forall i :: 0 <= i < |infos| ==> !SignalsEncryption(infos[i])
    ensures infos[|infos| - 1].typ == kind(terminal)
    decreases |blocks|
  {
    if blocks == [] {
    } else {
      var tail := infos[1..];
      assert blocks == [blocks[0]] + blocks[1..];
      DescribedBlock(src, kind, infos, blocks, blocks[0], blocks[1..], at, terminal);
      ChainFlags(src, kind, tail, blocks[1..], at + DESCRIPTOR_V1_SIZE + |blocks[0].payload|, terminal);
      forall i | 0 <= i < |infos|
        ensures !SignalsEncryption(infos[i])
      {
        if i > 0 {
          assert infos[i] == tail[i - 1];
        }
      }
      assert infos[|infos| - 1] == tail[|tail| - 1];
    }
  }

  // ----- a written segment

  /** What a writer puts into a segment: a volume section, other sections, then chunk groups with more of those. */
  datatype SegmentSpec = SegmentSpec(volume: Option<seq<byte>>, extras: seq<Block>, groups: seq<WrittenGroup>)

  /** The geometry fields of a full-sized volume section. */
  function MediaIn(volume: seq<byte>): Media
    requires |volume| >= VOLUME_SIZE
  {
    Media(U32(volume[8..12]), U32(volume[12..16]), U64(volume[16..24]))
  }

  function VolumeBlocks(spec: SegmentSpec): seq<Block> {
    if spec.volume.None? then [] else [Block("volume", spec.volume.value)]
  }

  /** Where what follows the volume section starts. */
  function VolumeEnd(spec: SegmentSpec): nat {
    FILE_HEADER_V1_SIZE + if spec.volume.None? then 0 else DESCRIPTOR_V1_SIZE + |spec.volume.value|
  }

  /** Where the first group starts. */
  function GroupsStart(spec: SegmentSpec): nat {
    VolumeEnd(spec) + SizeOfAll(spec.extras)
  }

  /**
   * Nothing in the segment exceeds what the format can express. A volume section has 1052 bytes; a longer one is read
   * as well, up to the limit on payloads.
   */
  ghost predicate Expressible(lib: Library, spec: SegmentSpec) {
    && Harmless(MapV1TypeString, spec.extras)
    && (spec.volume.Some? ==> VOLUME_SIZE <= |spec.volume.value| <= MAX_SECTION_PAYLOAD)
    && GroupsFit(lib, spec.groups, GroupsStart(spec))
  }

  ghost function BlocksOf(lib: Library, spec: SegmentSpec): seq<Block>
    requires Expressible(lib, spec)
  {
    VolumeBlocks(spec) + (spec.extras + GroupsBlocks(lib, spec.groups, GroupsStart(spec)))
  }

  function HeaderBytes(number: u16): (s: seq<byte>)
    ensures |s| == 13
  {
    SIGNATURE_EVF1 + [1, number % 256, number / 256, 0, 0]
  }

  function Terminal(last: bool): string {
    if last then "done" else "next"
  }

  /** src is the segment, written as number such and such of its set; it fits a file. */
  ghost predicate Written(lib: Library, src: Source, spec: SegmentSpec, number: u16, last: bool) {
    && Expressible(lib, spec)
    && FILE_HEADER_V1_SIZE + BodySize(BlocksOf(lib, spec)) <= |src|
    && Placed(src, 0, HeaderBytes(number))
    && Placed(src, FILE_HEADER_V1_SIZE,
              Body(Descriptor(lib.adler32), BlocksOf(lib, spec), FILE_HEADER_V1_SIZE, Terminal(last)))
  }

  /** The segment's file: header, then the chain. */
  ghost function ImageOf(lib: Library, spec: SegmentSpec, number: u16, last: bool): seq<byte>
    requires Expressible(lib, spec)
  {
    HeaderBytes(number) + Body(Descriptor(lib.adler32), BlocksOf(lib, spec), FILE_HEADER_V1_SIZE, Terminal(last))
  }

  /** A chain of blocks is as long as its descriptors and payloads together. */
  lemma DescriptorLength(checksum: seq<byte> -> u32, name: string, at: u64, size: u64)
    requires PlainName(name) && at + size < TWO_64
    ensures |Descriptor(checksum)(name, at, size)| == DESCRIPTOR_V1_SIZE
  {
    assert Descriptor(checksum)(name, at, size) == DescriptorBytes(checksum, name, at + size, size);
  }

  lemma {:induction false} BodyLength(checksum: seq<byte> -> u32, blocks: seq<Block>, at: nat, terminal: string)
    requires at + BodySize(blocks) <= MAX_INT64 && PlainName(terminal)
    requires forall i :: 0 <= i < |blocks| ==> PlainName(blocks[i].name)
    ensures |Body(Descriptor(checksum), blocks, at, terminal)| == BodySize(blocks)
    decreases |blocks|
  {
    if blocks == [] {
      DescriptorLength(checksum, terminal, at, 0);
    } else {
      var size := DESCRIPTOR_V1_SIZE + |blocks[0].payload|;
      DescriptorLength(checksum, blocks[0].name, at, size);
      BodyLength(checksum, blocks[1..], at + size, terminal);
    }
  }

  /** Every expressible segment that fits a file can be written. */
  lemma ImageIsWritten(lib: Library, spec: SegmentSpec, number: u16, last: bool)
    requires Expressible(lib, spec)
    requires FILE_HEADER_V1_SIZE + BodySize(BlocksOf(lib, spec)) <= MAX_INT64
    ensures |ImageOf(lib, spec, number, last)| == FILE_HEADER_V1_SIZE + BodySize(BlocksOf(lib, spec))
    ensures Written(lib, ImageOf(lib, spec, number, last), spec, number, last)
  {
    MapV1IsKnown();
    PlainNames();
    BlocksWritable(lib, MapV1TypeString, spec);
    BodyLength(lib.adler32, BlocksOf(lib, spec), FILE_HEADER_V1_SIZE, Terminal(last));
    var image := ImageOf(lib, spec, number, last);
    assert image[..13] == HeaderBytes(number) && image[13..|image|] == image[13..];
  }

  lemma FileHeaderReadsBack(src: Source, number: u16)
    requires Placed(src, 0, HeaderBytes(number))
    ensures ReadSlice(src, 0, 8) == Some(SIGNATURE_EVF1) && DetectFileType(SIGNATURE_EVF1) == Some(EWF1)
    ensures ParseFileHeader(src, EWF1) == Ok(FileHeader(1, 0, CODEC_NONE, number))
  {
    var h := HeaderBytes(number);
    PlacedRead(src, 0, h, 0, 8);
    PlacedRead(src, 0, h, 0, 13);
    assert h[0..8] == SIGNATURE_EVF1 && h[0..13] == h && h[9..11] == [number % 256, number / 256];
  }

  lemma PlainNames()
    ensures PlainName("volume") && PlainName("next") && PlainName("done")
    ensures PlainName("sectors") && PlainName("table") && PlainName("table2")
  {
  }

  lemma WritableAppend(kind: Kinds, a: seq<Block>, b: seq<Block>)
    requires Writable(kind, a) && Writable(kind, b)
    ensures Writable(kind, a + b)
  {
  }

  /** Blocks with these names may be written. */
  lemma GroupWritable(kind: Kinds, a: Block, b: Block, c: Block)
    requires NamedAsGroup(kind, a, b, c) && PlainName(a.name) && PlainName(b.name) && PlainName(c.name)
    ensures Writable(kind, [a, b, c])
  {
  }

  lemma {:induction false} GroupsWritable(lib: Library, kind: Kinds, groups: seq<WrittenGroup>, at: nat)
    requires KnownKinds(kind) && kind == MapV1TypeString && GroupsFit(lib, groups, at)
    ensures Writable(kind, GroupsBlocks(lib, groups, at))
    decreases |groups|
  {
    if groups != [] {
      var end := GroupEnd(groups[0], at);
      GroupsWritable(lib, kind, groups[1..], end);
      var a, b, c := SplitGroupBlocks(lib, kind, groups[0], at, []);
      assert GroupBlocks(lib, groups[0], at) == [a, b, c];
      PlainNames();
      GroupWritable(kind, a, b, c);
      WritableAppend(kind, groups[0].others, GroupsBlocks(lib, groups[1..], end));
      WritableAppend(kind, [a, b, c], groups[0].others + GroupsBlocks(lib, groups[1..], end));
    }
  }

  lemma VolumeWritable(kind: Kinds, spec: SegmentSpec)
    requires KnownKinds(kind)
    ensures Writable(kind, VolumeBlocks(spec))
  {
    PlainNames();
  }

  lemma BlocksWritable(lib: Library, kind: Kinds, spec: SegmentSpec)
    requires kind == MapV1TypeString && KnownKinds(kind) && Expressible(lib, spec)
    ensures Writable(kind, BlocksOf(lib, spec))
  {
    var groups := GroupsBlocks(lib, spec.groups, GroupsStart(spec));
    VolumeWritable(kind, spec);
    GroupsWritable(lib, kind, spec.groups, GroupsStart(spec));
    WritableAppend(kind, spec.extras, groups);
    WritableAppend(kind, VolumeBlocks(spec), spec.extras + groups);
  }

  function MediaOf(spec: SegmentSpec): Option<Media>
    requires spec.volume.Some? ==> |spec.volume.value| >= VOLUME_SIZE
  {
    if spec.volume.None? then None else Some(MediaIn(spec.volume.value))
  }

  lemma VolumeGeometry(src: Source, kind: Kinds, b: Block, at: pos)
    requires kind(b.name) == TYPE_DEVICE_INFORMATION && VOLUME_SIZE <= |b.payload| <= MAX_SECTION_PAYLOAD
    requires at + DESCRIPTOR_V1_SIZE <= MAX_INT64 && Placed(src, at + DESCRIPTOR_V1_SIZE, b.payload)
    ensures VolumeMedia(src, InfoV1(kind, at, b.name, SizeOf(b)), None) == Some(MediaIn(b.payload))
  {
    PlacedRead(src, at + DESCRIPTOR_V1_SIZE, b.payload, 0, |b.payload|);
    assert b.payload[0..|b.payload|] == b.payload;
  }

  lemma {:induction false} ReadFirst(
    src: Source, kind: Kinds, infos: seq<SectionInfo>, b: Block, at: pos, tail: seq<SectionInfo>)
    requires kind(b.name) == TYPE_DEVICE_INFORMATION && VOLUME_SIZE <= |b.payload| <= MAX_SECTION_PAYLOAD
    requires at + DESCRIPTOR_V1_SIZE <= MAX_INT64 && Placed(src, at + DESCRIPTOR_V1_SIZE, b.payload)
    requires infos != [] && infos[0] == InfoV1(kind, at, b.name, SizeOf(b)) && tail == infos[1..]
    ensures SectorTables(infos) == SectorTables(tail)
    ensures MediaV1(src, infos, None) == MediaV1(src, tail, Some(MediaIn(b.payload)))
  {
    VolumeGeometry(src, kind, b, at);
  }

  /** A volume section in front gives the geometry and leaves the tables alone; rest is described behind it. */
  lemma VolumeRead(
    src: Source, kind: Kinds, infos: seq<SectionInfo>, blocks: seq<Block>, spec: SegmentSpec, rest: seq<Block>,
    end: nat, terminal: string) returns (tail: seq<SectionInfo>)
    requires KnownKinds(kind) && Describes(src, kind, infos, blocks, FILE_HEADER_V1_SIZE, terminal)
    requires blocks == VolumeBlocks(spec) + rest && end == VolumeEnd(spec)
    requires spec.volume.Some? ==> VOLUME_SIZE <= |spec.volume.value| <= MAX_SECTION_PAYLOAD
    ensures SectorTables(infos) == SectorTables(tail)
    ensures MediaV1(src, infos, None) == MediaV1(src, tail, MediaOf(spec))
    ensures Describes(src, kind, tail, rest, end, terminal)
  {
    if spec.volume.None? {
      tail := infos;
      assert blocks == rest;
    } else {
      var b := Block("volume", spec.volume.value);
      tail := VolumeFirst(src, kind, infos, blocks, b, rest, FILE_HEADER_V1_SIZE, end, terminal);
    }
  }

  lemma VolumeFirst(
    src: Source, kind: Kinds, infos: seq<SectionInfo>, blocks: seq<Block>, b: Block, rest: seq<Block>,
    at: pos, end: nat, terminal: string) returns (tail: seq<SectionInfo>)
    requires kind(b.name) == TYPE_DEVICE_INFORMATION && VOLUME_SIZE <= |b.payload| <= MAX_SECTION_PAYLOAD
    requires Describes(src, kind, infos, blocks, at, terminal) && blocks == [b] + rest && end == at + SizeOf(b)
    ensures SectorTables(infos) == SectorTables(tail)
    ensures MediaV1(src, infos, None) == MediaV1(src, tail, Some(MediaIn(b.payload)))
    ensures Describes(src, kind, tail, rest, end, terminal)
  {
    DescribedBlock(src, kind, infos, blocks, b, rest, at, terminal);
    tail := infos[1..];
    ReadFirst(src, kind, infos, b, at, tail);
  }

  /** The sections of a written segment: its geometry, no encryption, and a table that locates every chunk. */
  lemma {:induction false} SectionsReadBack(
    lib: Library, src: Source, header: FileHeader, build: TableGroups.Group -> Built, kind: Kinds,
    infos: seq<SectionInfo>, spec: SegmentSpec, terminal: string)
    requires build == GroupBuilder(lib, src, header) && KnownKinds(kind) && kind == MapV1TypeString
    requires header.majorVersion == 1 && Expressible(lib, spec)
    requires kind(terminal) == TYPE_NEXT || kind(terminal) == TYPE_DONE
    requires Describes(src, kind, infos, BlocksOf(lib, spec), FILE_HEADER_V1_SIZE, terminal)
    ensures AllBuiltAs(lib, src, spec.groups, Total(build, Pair(SectorTables(infos))))
    ensures MediaV1(src, infos, None) == MediaOf(spec)
  {
    var end, start := VolumeEnd(spec), GroupsStart(spec);
    var groups := GroupsBlocks(lib, spec.groups, start);
    var rest := VolumeRead(src, kind, infos, BlocksOf(lib, spec), spec, spec.extras + groups, end, terminal);
    ExtrasSkipped(src, kind, rest, spec.extras + groups, spec.extras, groups, end, start, terminal, MediaOf(spec));
    var tail := rest[|spec.extras|..];
    GroupsBuild(lib, src, header, build, kind, tail, spec.groups, start, terminal);
    GroupsCarryNoMedia(lib, src, header, kind, tail, spec.groups, start, terminal, MediaOf(spec));
  }

  /** What is read back of a written segment. */
  ghost predicate ReadBack(lib: Library, src: Source, spec: SegmentSpec, number: u16, last: bool, seg: Segment) {
    && (spec.volume.Some? ==> |spec.volume.value| >= VOLUME_SIZE)
    && seg.source == src && seg.fileType == EWF1 && seg.header.majorVersion == 1 && Number(seg) == number
    && (last ==> seg.meta.hasDone) && !seg.meta.encrypted && seg.meta.media == MediaOf(spec)
    && AllBuiltAs(lib, src, spec.groups, Built(seg.chunkTable, seg.stats))
  }

  /** A segment made of sections that read back is the one that was written. */
  lemma {:induction false} SegmentReadsBack(
    lib: Library, ext: Extractors, src: Source, header: FileHeader, infos: seq<SectionInfo>, spec: SegmentSpec,
    last: bool)
    requires header.majorVersion == 1 && header.segmentNumber < 0x1_0000 && infos != []
    requires spec.volume.Some? ==> |spec.volume.value| >= VOLUME_SIZE
    requires AllBuiltAs(lib, src, spec.groups, BuildTable(lib, src, header, infos))
    requires MediaV1(src, infos, None) == MediaOf(spec)
    requires forall i :: 0 <= i < |infos| ==> !SignalsEncryption(infos[i])
    requires last ==> infos[|infos| - 1].typ == TYPE_DONE
    ensures ReadBack(lib, src, spec, header.segmentNumber, last, SegmentOf(lib, ext, src, EWF1, header, infos))
  {
  }

  /** The chain of a written segment fits the reader's cap on sections. */
  ghost predicate FitsCap(lib: Library, spec: SegmentSpec) {
    Expressible(lib, spec) && |BlocksOf(lib, spec)| < MAX_SECTIONS
  }

  /** The section walk finds exactly the written blocks, unless they are more than its cap. */
  lemma SectionsFound(lib: Library, src: Source, spec: SegmentSpec, number: u16, last: bool)
    returns (infos: seq<SectionInfo>)
    requires Written(lib, src, spec, number, last)
    ensures WalkV1(src) == if FitsCap(lib, spec) then Ok(infos) else Err(NoNextOrDone)
    ensures Describes(src, MapV1TypeString, infos, BlocksOf(lib, spec), FILE_HEADER_V1_SIZE, Terminal(last))
  {
    MapV1IsKnown();
    PlainNames();
    BlocksWritable(lib, MapV1TypeString, spec);
    infos := ChainRoundTrip(src, lib.adler32, BlocksOf(lib, spec), Terminal(last));
  }

  /**
   * Every written segment within the cap parses, to what was written: number, geometry, and where each chunk of a kept
   * group lies.
   */
  lemma SegmentParses(
    lib: Library, ext: Extractors, parse: Source -> Result<Segment, SegmentError>, src: Source, spec: SegmentSpec,
    number: u16, last: bool) returns (seg: Segment)
    requires parse == Parser(lib, ext) && Written(lib, src, spec, number, last) && FitsCap(lib, spec)
    ensures parse(src) == Ok(seg) && ReadBack(lib, src, spec, number, last, seg)
  {
    var kind: Kinds, header := MapV1TypeString, FileHeader(1, 0, CODEC_NONE, number);
    MapV1IsKnown();
    FileHeaderReadsBack(src, number);
    var infos := SectionsFound(lib, src, spec, number, last);
    SectionsReadBack(lib, src, header, GroupBuilder(lib, src, header), kind, infos, spec, Terminal(last));
    ChainFlags(src, kind, infos, BlocksOf(lib, spec), FILE_HEADER_V1_SIZE, Terminal(last));
    seg := SegmentOf(lib, ext, src, EWF1, header, infos);
    SegmentReadsBack(lib, ext, src, header, infos, spec, last);
  }

  /** A longer one is refused. */
  lemma LongSegmentRefused(
    lib: Library, ext: Extractors, parse: Source -> Result<Segment, SegmentError>, src: Source, spec: SegmentSpec,
    number: u16, last: bool)
    requires parse == Parser(lib, ext) && Written(lib, src, spec, number, last) && !FitsCap(lib, spec)
    ensures parse(src) == Err(BadChain(NoNextOrDone))
  {
    FileHeaderReadsBack(src, number);
    var infos := SectionsFound(lib, src, spec, number, last);
  }
}
