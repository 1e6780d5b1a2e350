/** EWF v2: chunk tables of absolute offsets, sizes and flags; and one written segment, parsed back. */
module SegmentRoundTripV2 {
  import opened Batches
  import opened Bytes
  import opened Chunks
  import opened ChunkTables
  import opened CutDevices
  import opened Openings
  import opened Sections
  import opened SectionsV2
  import opened Segments
  import opened SuppliedSets
  import opened TableGroups
  import opened TableProperties
  import Layout = LayoutV2

  /** A chunk as a v2 writer stores it: its bytes, where they lie, and the flags that say how they are stored. */
  datatype Placement = Placement(payload: seq<byte>, stored: seq<byte>, offset: pos, flags: u32) {
    predicate Compressed() { flags % 2 == 1 }

    predicate Checksummed() { flags / 2 % 2 == 1 }

    predicate Pattern() { flags / 4 % 2 == 1 }
  }

  /** The stored bytes mean the payload, in the way the flags say; a pattern unit is repeated to the chunk's end. */
  ghost predicate StoredAsFlagged(lib: Library, codec: u16, chunkSize: int, c: Placement) {
    && 0 < |c.stored| < TWO_32 && 0 < |c.payload| <= chunkSize
    && if c.Pattern() then c.payload == Repeated(c.stored, |c.payload|)
       else if c.Compressed() then Coded(lib, codec, c.stored, c.payload)
       else if c.Checksummed() then c.stored == c.payload + Put32(lib.adler32(c.payload))
       else c.stored == c.payload
  }

  /** What the reader does with such a chunk. */
  function FateOf(lib: Library, chunkSize: int, c: Placement): Fate {
    if |c.stored| > MAX_READ_SIZE || |c.stored| > MaxStored(chunkSize) then Refused
    else if c.Pattern() && chunkSize > lib.maxAlloc then Fatal
    else Decodable
  }

  // ----- table bytes

  function PlacementBytes(c: Placement): (e: seq<byte>)
    requires |c.stored| < TWO_32
    ensures |e| == TABLE_ENTRY_V2_SIZE
  {
    Put64(c.offset) + Put32(|c.stored|) + Put32(c.flags)
  }

  /** What an entry says about its chunk. */
  function Described(src: Source, header: FileHeader, c: Placement): ChunkDescriptor
    requires |c.stored| < TWO_32
  {
    ChunkDescriptor(Some(src), c.offset, |c.stored|, c.Compressed() && !c.Pattern(),
                    header.majorVersion, header.compressionMethod, c.Pattern(), c.Checksummed())
  }

  /** A written entry is read back field by field. */
  lemma EntryReadsBack(src: Source, header: FileHeader, c: Placement)
    requires |c.stored| < TWO_32
    ensures DescribeV2(src, header, PlacementBytes(c)) == Described(src, header, c)
  {
    var e := PlacementBytes(c);
    assert e[0..8] == Put64(c.offset) && e[8..12] == Put32(|c.stored|) && e[12..16] == Put32(c.flags);
    Put64RoundTrip(c.offset);
    Put32RoundTrip(|c.stored|);
    Put32RoundTrip(c.flags);
  }

  /** body is a table of the chunks: a header with their number, their entries, and whatever follows. */
  ghost predicate IsTable(body: seq<byte>, chunks: seq<Placement>) {
    && 0 < |chunks| < TWO_32 && |body| >= TABLE_HEADER_V2_SIZE + 16 * |chunks|
    && U32(body[8..12]) == |chunks|
    && forall i :: 0 <= i < |chunks| ==>
         |chunks[i].stored| < TWO_32 && body[32 + i * 16..32 + i * 16 + 16] == PlacementBytes(chunks[i])
  }

  ghost predicate DescribesAll(src: Source, header: FileHeader, table: seq<ChunkDescriptor>, chunks: seq<Placement>) {
    && |table| == |chunks|
    && forall i :: 0 <= i < |chunks| ==> |chunks[i].stored| < TWO_32 && table[i] == Described(src, header, chunks[i])
  }

  /** The header of a table, as it is read. */
  lemma TableHead(src: Source, section: SectionInfo, body: seq<byte>, n: nat)
    requires |body| >= TABLE_HEADER_V2_SIZE && U32(body[8..12]) == n && HasBody(src, section, body)
    ensures var head := ReadSlice(src, section.dataOffset, TABLE_HEADER_V2_SIZE);
            head.Some? && U32(head.value[8..12]) == n
  {
    PlacedRead(src, section.dataOffset, body, 0, 32);
    SliceOfSlice(body, 0, 32, 8, 12);
  }

  /** A table within the reader's limit is what its entries describe; a longer one is nothing. */
  lemma EntriesRead(
    src: Source, header: FileHeader, section: SectionInfo, body: seq<byte>, n: nat)
    requires 0 < n < TWO_32 && |body| >= TABLE_HEADER_V2_SIZE + 16 * n && U32(body[8..12]) == n
    requires HasBody(src, section, body)
    ensures ParseTableV2(src, header, section) ==
            if n <= MAX_TABLE_ENTRIES then DescribeAllV2(src, header, body[32..32 + n * 16]) else []
  {
    TableHead(src, section, body, n);
    if n <= MAX_TABLE_ENTRIES {
      ShortTableRead(src, header, section, body, n);
    }
  }

  lemma ShortTableRead(src: Source, header: FileHeader, section: SectionInfo, body: seq<byte>, n: nat)
    requires 0 < n <= MAX_TABLE_ENTRIES && |body| >= TABLE_HEADER_V2_SIZE + 16 * n && U32(body[8..12]) == n
    requires HasBody(src, section, body)
    ensures ParseTableV2(src, header, section) == DescribeAllV2(src, header, body[32..32 + n * 16])
  {
    TableHead(src, section, body, n);
    PlacedRead(src, section.dataOffset, body, 32, n * 16);
  }

  lemma EntryAt(src: Source, header: FileHeader, body: seq<byte>, chunks: seq<Placement>, i: nat)
    requires IsTable(body, chunks) && i < |chunks|
    ensures |chunks[i].stored| < TWO_32
    ensures DescribeAllV2(src, header, body[32..32 + |chunks| * 16])[i] == Described(src, header, chunks[i])
  {
    SliceOfSlice(body, 32, 32 + |chunks| * 16, i * 16, i * 16 + 16);
    EntryReadsBack(src, header, chunks[i]);
  }

  lemma EntriesDescribe(src: Source, header: FileHeader, body: seq<byte>, chunks: seq<Placement>)
    requires IsTable(body, chunks)
    ensures DescribesAll(src, header, DescribeAllV2(src, header, body[32..32 + |chunks| * 16]), chunks)
  {
    var table := DescribeAllV2(src, header, body[32..32 + |chunks| * 16]);
    forall i | 0 <= i < |chunks|
      ensures |chunks[i].stored| < TWO_32 && table[i] == Described(src, header, chunks[i])
    {
      EntryAt(src, header, body, chunks, i);
    }
  }

  /** What the reader takes from one table. */
  function ReadOf(chunks: seq<Placement>): seq<Placement> {
    if |chunks| <= MAX_TABLE_ENTRIES then chunks else []
  }

  lemma DescribesRead(src: Source, header: FileHeader, body: seq<byte>, chunks: seq<Placement>,
                      table: seq<ChunkDescriptor>)
    requires IsTable(body, chunks)
    requires table ==
             if |chunks| <= MAX_TABLE_ENTRIES then DescribeAllV2(src, header, body[32..32 + |chunks| * 16]) else []
    ensures DescribesAll(src, header, table, ReadOf(chunks))
  {
    EntriesDescribe(src, header, body, chunks);
  }

  /** A table is read back entry by entry, unless it has more than the reader takes; then it is not read at all. */
  lemma TableV2ReadsBack(
    src: Source, header: FileHeader, section: SectionInfo, body: seq<byte>, chunks: seq<Placement>)
    requires IsTable(body, chunks) && HasBody(src, section, body)
    ensures DescribesAll(src, header, ParseTableV2(src, header, section), ReadOf(chunks))
  {
    EntriesRead(src, header, section, body, |chunks|);
    DescribesRead(src, header, body, chunks, ParseTableV2(src, header, section));
  }

  /** A described chunk that is let through decodes to its payload; only a short pattern chunk to more, behind it. */
  lemma {:induction false} DecodableDecodes(
    lib: Library, chunkSize: int, first: Source, src: Source, header: FileHeader, c: Placement)
    requires header.majorVersion != 1 && StoredAsFlagged(lib, header.compressionMethod, chunkSize, c)
    requires Placed(src, c.offset, c.stored) && FateOf(lib, chunkSize, c) == Decodable
    ensures Decodes(chunkSize, c.payload, DecodeChunk(lib, chunkSize, first, Described(src, header, c)))
  {
    PlacedRead(src, c.offset, c.stored, 0, |c.stored|);
    assert c.stored[0..|c.stored|] == c.stored;
    if c.Pattern() {
      assert Repeated(c.stored, chunkSize)[..|c.payload|] == c.payload;
    } else if !c.Compressed() && c.Checksummed() {
      assert c.stored[..|c.stored| - CHUNK_TRAILER_SIZE] == c.payload;
    }
  }

  /** A described chunk is decoded, refused or fatal exactly as its fate says. */
  lemma DescribedYields(lib: Library, chunkSize: int, first: Source, src: Source, header: FileHeader, c: Placement)
    requires header.majorVersion != 1 && StoredAsFlagged(lib, header.compressionMethod, chunkSize, c)
    requires Placed(src, c.offset, c.stored)
    ensures Yields(chunkSize, Part(c.payload, FateOf(lib, chunkSize, c)),
                   DecodeChunk(lib, chunkSize, first, Described(src, header, c)))
  {
    match FateOf(lib, chunkSize, c) {
      case Decodable => DecodableDecodes(lib, chunkSize, first, src, header, c);
      case Refused =>
      case Fatal => PlacedRead(src, c.offset, c.stored, 0, |c.stored|);
    }
  }

  // ----- the tables of a segment

  function TableBodies(ss: seq<Layout.Section>): seq<seq<byte>> {
    if ss == [] then []
    else (if ss[0].typ == TYPE_SECTOR_TABLE then [ss[0].payload] else []) + TableBodies(ss[1..])
  }

  lemma {:induction false} BodiesAppend(a: seq<Layout.Section>, b: seq<Layout.Section>)
    ensures TableBodies(a + b) == TableBodies(a) + TableBodies(b)
    decreases |a|
  {
    if a == [] {
      assert a + b == b;
    } else {
      assert (a + b)[1..] == a[1..] + b;
      BodiesAppend(a[1..], b);
    }
  }

  /** The table sections among the written ones are those of the list, each with its body. */
  ghost predicate Bodied(src: Source, tables: seq<SectionInfo>, bodies: seq<seq<byte>>) {
    && |tables| == |bodies|
    && forall i :: 0 <= i < |bodies| ==>
         tables[i].descriptorSize == DESCRIPTOR_V2_SIZE && HasBody(src, tables[i], bodies[i])
  }

  lemma {:induction false} TablesFound(src: Source, infos: seq<SectionInfo>, ss: seq<Layout.Section>)
    requires Layout.RecoversAll(src, infos, ss)
    ensures Bodied(src, SectorTables(infos), TableBodies(ss))
    decreases |ss|
  {
    if ss != [] {
      assert forall i :: 0 <= i < |ss[1..]| ==> infos[1..][i] == infos[i + 1] && ss[1..][i] == ss[i + 1];
      TablesFound(src, infos[1..], ss[1..]);
      assert Layout.Recovers(src, infos[0], ss[0]);
    }
  }

  ghost predicate AreTables(bodies: seq<seq<byte>>, tables: seq<seq<Placement>>) {
    |bodies| == |tables| && forall i :: 0 <= i < |tables| ==> IsTable(bodies[i], tables[i])
  }

  /** What the reader takes from the tables, in order. */
  function ReadOfAll(tables: seq<seq<Placement>>): seq<Placement> {
    if tables == [] then [] else ReadOf(tables[0]) + ReadOfAll(tables[1..])
  }

  /** Each v2 table stands alone, and together they describe all chunks of those that are read; none is ever invalid. */
  lemma {:induction false} TablesBuild(
    lib: Library, src: Source, header: FileHeader, build: TableGroups.Group -> Built, sections: seq<SectionInfo>,
    bodies: seq<seq<byte>>, tables: seq<seq<Placement>>)
    requires build == GroupBuilder(lib, src, header)
    requires Bodied(src, sections, bodies) && AreTables(bodies, tables)
    ensures var built := Total(build, Pair(sections));
            DescribesAll(src, header, built.table, ReadOfAll(tables)) && built.stats == Stats(|tables|, 0, 0)
    decreases |tables|
  {
    if sections != [] {
      TableV2ReadsBack(src, header, sections[0], bodies[0], tables[0]);
      TablesBuild(lib, src, header, build, sections[1..], bodies[1..], tables[1..]);
      var rest := Pair(sections[1..]);
      TotalStep(build, Standalone(sections[0]), rest);
      DescribesAppend(src, header, build(Standalone(sections[0])).table, ReadOf(tables[0]),
                      Total(build, rest).table, ReadOfAll(tables[1..]));
    }
  }

  lemma DescribesAppend(src: Source, header: FileHeader, ta: seq<ChunkDescriptor>, a: seq<Placement>,
                                           tb: seq<ChunkDescriptor>, b: seq<Placement>)
    requires DescribesAll(src, header, ta, a) && DescribesAll(src, header, tb, b)
    ensures DescribesAll(src, header, ta + tb, a + b)
  {
  }

  // ----- a written segment

  /** What a v2 writer puts into a segment; tables are the chunks that its table sections list. */
  datatype SpecV2 = SpecV2(
    minor: byte, codec: u16, identifier: seq<byte>, sections: seq<Layout.Section>, tables: seq<seq<Placement>>)

  function HeaderV2(spec: SpecV2, number: u32): (s: seq<byte>)
    requires |spec.identifier| == 16
    ensures |s| == FILE_HEADER_V2_SIZE
  {
    SIGNATURE_EVF2 + [2, spec.minor, spec.codec % 256, spec.codec / 256] + Put32(number) + spec.identifier
  }

  predicate Encrypts(s: Layout.Section) {
    s.typ == TYPE_ENCRYPTION_KEYS || s.flags / 2 % 2 == 1
  }

  /** src is the segment, written as number such and such of its set. */
  ghost predicate WrittenV2(src: Source, spec: SpecV2, number: u32, last: bool) {
    var ss := spec.sections;
    && |spec.identifier| == 16 && src == Layout.Image(HeaderV2(spec, number), ss)
    && Layout.Writable(ss) && ss != [] && ss[|ss| - 1].typ == (if last then TYPE_DONE else TYPE_NEXT)
    && AreTables(TableBodies(ss), spec.tables)
    && forall i :: 0 <= i < |ss| ==> !Encrypts(ss[i])
  }

  /** How many sections the walk's cap cuts off the front. */
  function Beyond(ss: seq<Layout.Section>): nat {
    if |ss| <= MAX_SECTIONS then 0 else |ss| - MAX_SECTIONS
  }

  /** How many tables go with them. */
  function TablesBeyond(spec: SpecV2): nat {
    |TableBodies(spec.sections[..Beyond(spec.sections)])|
  }

  lemma HeaderV2ReadsBack(src: Source, spec: SpecV2, number: u32)
    requires |spec.identifier| == 16 && Placed(src, 0, HeaderV2(spec, number))
    ensures ReadSlice(src, 0, 8) == Some(SIGNATURE_EVF2) && DetectFileType(SIGNATURE_EVF2) == Some(EWF2)
    ensures ParseFileHeader(src, EWF2) == Ok(FileHeader(2, spec.minor, spec.codec, number))
  {
    var h := HeaderV2(spec, number);
    PlacedRead(src, 0, h, 0, 8);
    PlacedRead(src, 0, h, 0, 32);
    assert h[0..8] == SIGNATURE_EVF2 && h[0..32] == h;
    assert h[10..12] == [spec.codec % 256, spec.codec / 256] && h[12..16] == Put32(number);
    Put32RoundTrip(number);
  }

  /** What is read back of a written segment: everything but what the section cap cuts off. */
  ghost predicate ReadBackV2(
    ext: Extractors, src: Source, spec: SpecV2, number: u32, last: bool, infos: seq<SectionInfo>, seg: Segment)
  {
    && seg.source == src && seg.fileType == EWF2 && seg.header == FileHeader(2, spec.minor, spec.codec, number)
    && (last ==> seg.meta.hasDone) && !seg.meta.encrypted
    && WalkV2(src) == Ok(infos) && seg.meta.media == ext.mediaV2(src, infos) && seg.stats.invalid == 0
    && TablesBeyond(spec) <= |spec.tables|
    && DescribesAll(src, seg.header, seg.chunkTable, ReadOfAll(spec.tables[TablesBeyond(spec)..]))
  }

  /** The sections that the walk returns of a written segment. */
  lemma RecentSections(src: Source, spec: SpecV2, number: u32, last: bool) returns (infos: seq<SectionInfo>)
    requires WrittenV2(src, spec, number, last)
    ensures WalkV2(src) == Ok(infos) && infos != []
    ensures Layout.RecoversAll(src, infos, spec.sections[Beyond(spec.sections)..])
  {
    infos := Layout.RecentRoundTrip(src, HeaderV2(spec, number), spec.sections, Beyond(spec.sections));
  }

  /** They carry the tables that are left. */
  lemma {:induction false} RecentTables(spec: SpecV2)
    requires AreTables(TableBodies(spec.sections), spec.tables)
    ensures TablesBeyond(spec) <= |spec.tables|
    ensures AreTables(TableBodies(spec.sections[Beyond(spec.sections)..]), spec.tables[TablesBeyond(spec)..])
  {
    var ss, cut := spec.sections, Beyond(spec.sections);
    var bodies, front, back := TableBodies(ss), TableBodies(ss[..cut]), TableBodies(ss[cut..]);
    assert ss == ss[..cut] + ss[cut..];
    BodiesAppend(ss[..cut], ss[cut..]);
    assert bodies == front + back;
    var left := spec.tables[|front|..];
    forall i | 0 <= i < |left|
      ensures IsTable(back[i], left[i])
    {
      assert IsTable(bodies[|front| + i], spec.tables[|front| + i]);
    }
  }

  /** None of them signals encryption, and the last one ends the segment. */
  lemma RecentFlags(src: Source, spec: SpecV2, number: u32, last: bool, infos: seq<SectionInfo>)
    requires WrittenV2(src, spec, number, last) && infos != []
    requires Layout.RecoversAll(src, infos, spec.sections[Beyond(spec.sections)..])
    ensures forall i :: 0 <= i < |infos| ==> !SignalsEncryption(infos[i])
    ensures last ==> infos[|infos| - 1].typ == TYPE_DONE
  {
    var ss, cut := spec.sections, Beyond(spec.sections);
    forall i | 0 <= i < |infos|
      ensures !SignalsEncryption(infos[i]) && infos[i].typ == ss[cut + i].typ
    {
      assert Layout.Recovers(src, infos[i], ss[cut..][i]);
      assert !Encrypts(ss[cut + i]);
    }
  }

  lemma HeaderPlaced(src: Source, spec: SpecV2, number: u32, last: bool)
    requires WrittenV2(src, spec, number, last)
    ensures Placed(src, 0, HeaderV2(spec, number))
  {
    var h := HeaderV2(spec, number);
    assert src[0..|h|] == h;
  }

  /** A segment made of such sections is what was written. */
  lemma {:induction false} SegmentV2ReadsBack(
    lib: Library, ext: Extractors, src: Source, header: FileHeader, infos: seq<SectionInfo>, spec: SpecV2, number: u32,
    last: bool)
    requires header == FileHeader(2, spec.minor, spec.codec, number) && infos != [] && WalkV2(src) == Ok(infos)
    requires TablesBeyond(spec) <= |spec.tables|
    requires var built := BuildTable(lib, src, header, infos);
             && built.stats.invalid == 0
             && DescribesAll(src, header, built.table, ReadOfAll(spec.tables[TablesBeyond(spec)..]))
    requires forall i :: 0 <= i < |infos| ==> !SignalsEncryption(infos[i])
    requires last ==> infos[|infos| - 1].typ == TYPE_DONE
    ensures ReadBackV2(ext, src, spec, number, last, infos, SegmentOf(lib, ext, src, EWF2, header, infos))
  {
  }

  /** The table built from the sections of a written segment. */
  lemma RecentBuild(lib: Library, src: Source, header: FileHeader, spec: SpecV2, infos: seq<SectionInfo>)
    requires AreTables(TableBodies(spec.sections), spec.tables)
    requires Layout.RecoversAll(src, infos, spec.sections[Beyond(spec.sections)..])
    ensures TablesBeyond(spec) <= |spec.tables|
    ensures var built := BuildTable(lib, src, header, infos);
            && built.stats.invalid == 0
            && DescribesAll(src, header, built.table, ReadOfAll(spec.tables[TablesBeyond(spec)..]))
  {
    RecentTables(spec);
    var recent := spec.sections[Beyond(spec.sections)..];
    TablesFound(src, infos, recent);
    TablesBuild(lib, src, header, GroupBuilder(lib, src, header), SectorTables(infos), TableBodies(recent),
                spec.tables[TablesBeyond(spec)..]);
  }

  /** Every written v2 segment parses, to its number and a table of what it lists within the reader's limits. */
  lemma {:induction false} SegmentV2Parses(
    lib: Library, ext: Extractors, parse: Source -> Result<Segment, SegmentError>, src: Source, spec: SpecV2,
    number: u32, last: bool) returns (seg: Segment, infos: seq<SectionInfo>)
    requires parse == Parser(lib, ext) && WrittenV2(src, spec, number, last)
    ensures parse(src) == Ok(seg) && ReadBackV2(ext, src, spec, number, last, infos, seg)
  {
    var header := FileHeader(2, spec.minor, spec.codec, number);
    HeaderPlaced(src, spec, number, last);
    HeaderV2ReadsBack(src, spec, number);
    infos := RecentSections(src, spec, number, last);
    RecentFlags(src, spec, number, last, infos);
    RecentBuild(lib, src, header, spec, infos);
    seg := SegmentOf(lib, ext, src, EWF2, header, infos);
    SegmentV2ReadsBack(lib, ext, src, header, infos, spec, number, last);
  }

  // ----- tables as batches

  function PartOfPlacement(lib: Library, chunkSize: int): Placement -> Part {
    (c: Placement) => Part(c.payload, FateOf(lib, chunkSize, c))
  }

  /** The tables as batches: the first beyond of them are not seen, and of the others those that are not too long. */
  function BatchesOfTables(lib: Library, chunkSize: int, tables: seq<seq<Placement>>, beyond: nat): (r: seq<Batch>)
    ensures |r| == |tables|
  {
    if tables == [] then []
    else
      [Batch(Mapped(PartOfPlacement(lib, chunkSize), tables[0]), beyond == 0 && |tables[0]| <= MAX_TABLE_ENTRIES)] +
      BatchesOfTables(lib, chunkSize, tables[1..], if beyond == 0 then 0 else beyond - 1)
  }

  lemma PartsOfAppend(lib: Library, chunkSize: int, a: seq<Placement>, b: seq<Placement>)
    ensures Mapped(PartOfPlacement(lib, chunkSize), a + b) ==
            Mapped(PartOfPlacement(lib, chunkSize), a) + Mapped(PartOfPlacement(lib, chunkSize), b)
  {
  }

  /** What is seen of the batches is what the reader takes from the tables that are left. */
  lemma {:induction false} TableParts(lib: Library, chunkSize: int, tables: seq<seq<Placement>>, beyond: nat)
    requires beyond <= |tables|
    ensures AllParts(BatchesOfTables(lib, chunkSize, tables, beyond)) ==
            Mapped(PartOfPlacement(lib, chunkSize), Flatten(tables))
    ensures SeenParts(BatchesOfTables(lib, chunkSize, tables, beyond)) ==
            Mapped(PartOfPlacement(lib, chunkSize), ReadOfAll(tables[beyond..]))
    decreases |tables|
  {
    if tables != [] {
      var later := if beyond == 0 then 0 else beyond - 1;
      TableParts(lib, chunkSize, tables[1..], later);
      PartsOfAppend(lib, chunkSize, tables[0], Flatten(tables[1..]));
      if beyond == 0 {
        assert tables[0..] == tables && tables[1..][0..] == tables[1..];
        PartsOfAppend(lib, chunkSize, ReadOf(tables[0]), ReadOfAll(tables[1..]));
      } else {
        assert tables[1..][beyond - 1..] == tables[beyond..];
      }
    }
  }

  /** Chunks as their entries say, in bytes that lie where they say. */
  ghost predicate AllPlaced(lib: Library, src: Source, codec: u16, chunkSize: int, chunks: seq<Placement>) {
    forall i :: 0 <= i < |chunks| ==>
      StoredAsFlagged(lib, codec, chunkSize, chunks[i]) && Placed(src, chunks[i].offset, chunks[i].stored)
  }

  lemma AllPlacedAppend(lib: Library, src: Source, codec: u16, chunkSize: int, a: seq<Placement>, b: seq<Placement>)
    ensures AllPlaced(lib, src, codec, chunkSize, a + b) <==>
            AllPlaced(lib, src, codec, chunkSize, a) && AllPlaced(lib, src, codec, chunkSize, b)
  {
    if AllPlaced(lib, src, codec, chunkSize, a + b) {
      assert forall i :: 0 <= i < |a| ==> a[i] == (a + b)[i];
      assert forall i :: 0 <= i < |b| ==> b[i] == (a + b)[|a| + i];
    }
  }

  lemma {:induction false} ReadArePlaced(
    lib: Library, src: Source, codec: u16, chunkSize: int, tables: seq<seq<Placement>>, beyond: nat)
    requires AllPlaced(lib, src, codec, chunkSize, Flatten(tables)) && beyond <= |tables|
    ensures AllPlaced(lib, src, codec, chunkSize, ReadOfAll(tables[beyond..]))
    decreases |tables|
  {
    if tables != [] {
      AllPlacedAppend(lib, src, codec, chunkSize, tables[0], Flatten(tables[1..]));
      if beyond == 0 {
        assert tables[0..] == tables && tables[1..][0..] == tables[1..];
        ReadArePlaced(lib, src, codec, chunkSize, tables[1..], 0);
        AllPlacedAppend(lib, src, codec, chunkSize, ReadOf(tables[0]), ReadOfAll(tables[1..]));
      } else {
        ReadArePlaced(lib, src, codec, chunkSize, tables[1..], beyond - 1);
        assert tables[1..][beyond - 1..] == tables[beyond..];
      }
    }
  }

  lemma {:induction false} DescribedShows(
    lib: Library, chunkSize: int, first: Source, src: Source, header: FileHeader, table: seq<ChunkDescriptor>,
    tables: seq<seq<Placement>>, beyond: nat)
    requires header.majorVersion != 1 && beyond <= |tables|
    requires DescribesAll(src, header, table, ReadOfAll(tables[beyond..]))
    requires AllPlaced(lib, src, header.compressionMethod, chunkSize, Flatten(tables))
    ensures TableShows(lib, chunkSize, first, table, BatchesOfTables(lib, chunkSize, tables, beyond))
  {
    TableParts(lib, chunkSize, tables, beyond);
    ReadArePlaced(lib, src, header.compressionMethod, chunkSize, tables, beyond);
    var chunks := ReadOfAll(tables[beyond..]);
    forall k | 0 <= k < |table|
      ensures Yields(chunkSize, Mapped(PartOfPlacement(lib, chunkSize), chunks)[k],
                     DecodeChunk(lib, chunkSize, first, table[k]))
    {
      DescribedYields(lib, chunkSize, first, src, header, chunks[k]);
    }
  }
}
