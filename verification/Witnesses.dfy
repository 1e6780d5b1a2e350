/** Written images of one chunk each, in full, that show what the reader's limits mean. */
module Witnesses {
  import opened Bytes
  import opened Chunks
  import opened ChunkTables
  import opened CutDevices
  import opened Devices
  import opened ImageReaders
  import opened LayoutV1
  import opened Openings
  import opened RoundTrip
  import opened Sections
  import opened SegmentRoundTrip
  import opened Segments
  import opened SuppliedSets
  import opened Verification
  import opened WrittenTables

  // ----- an image of one chunk

  /** Sectors to a chunk, bytes to a sector, and sectors in all. */
  function Volume(m: Media): (volume: seq<byte>)
    ensures |volume| == VOLUME_SIZE
  {
    Zeros(8) + Put32(m.sectorsPerChunk) + Put32(m.bytesPerSector) + Put64(m.numberOfSectors) + Zeros(1028)
  }

  function Spec(m: Media, chunks: seq<StoredChunk>): SegmentSpec {
    SegmentSpec(Some(Volume(m)), [], [WrittenGroup(chunks, None, None, [])])
  }

  /** Where the chunks of such a segment start. */
  const CHUNKS_START: int := 1217

  lemma VolumeReadsBack(m: Media)
    ensures MediaIn(Volume(m)) == m
  {
    var v := Volume(m);
    assert v[8..12] == Put32(m.sectorsPerChunk) && v[12..16] == Put32(m.bytesPerSector);
    assert v[16..24] == Put64(m.numberOfSectors);
    Put32RoundTrip(m.sectorsPerChunk);
    Put32RoundTrip(m.bytesPerSector);
    Put64RoundTrip(m.numberOfSectors);
  }

  lemma OneChunkFits(c: StoredChunk)
    requires 0 < |c.stored| < FLAG_BIT
    ensures GroupFits([c], CHUNKS_START)
  {
    var sizes := Sizes([c]);
    assert sizes[0].size == |c.stored|;
    assert Rel(sizes, 1) == Rel(sizes, 0) + |c.stored|;
  }

  lemma SpecIsExpressible(lib: Library, m: Media, chunks: seq<StoredChunk>)
    requires GroupFits(chunks, CHUNKS_START)
    ensures Expressible(lib, Spec(m, chunks))
  {
    var spec := Spec(m, chunks);
    assert GroupsStart(spec) + DESCRIPTOR_V1_SIZE == CHUNKS_START;
    assert spec.groups[1..] == [];
  }

  lemma {:induction false} OneGroupsBlocks(lib: Library, g: WrittenGroup, at: nat)
    requires GroupsFit(lib, [g], at) && g.others == []
    ensures GroupsBlocks(lib, [g], at) == GroupBlocks(lib, g, at)
  {
    assert [g][1..] == [];
    assert GroupBlocks(lib, g, at) + ([] + []) == GroupBlocks(lib, g, at);
  }

  lemma {:induction false} SizeOfFirst(b: Block, rest: seq<Block>)
    ensures BodySize([b] + rest) == SizeOf(b) + BodySize(rest)
  {
    assert ([b] + rest)[1..] == rest;
  }

  lemma SizeOfFour(a: Block, b: Block, c: Block, d: Block)
    ensures BodySize([a, b, c, d]) == SizeOf(a) + SizeOf(b) + SizeOf(c) + SizeOf(d) + DESCRIPTOR_V1_SIZE
  {
    SizeOfFirst(d, []);
    SizeOfFirst(c, [d]);
    SizeOfFirst(b, [c, d]);
    SizeOfFirst(a, [b, c, d]);
    assert [d] + [] == [d] && [c] + [d] == [c, d] && [b] + [c, d] == [b, c, d] && [a] + [b, c, d] == [a, b, c, d];
  }

  lemma {:induction false} SectorsSize(chunks: seq<StoredChunk>, base: int)
    requires GroupFits(chunks, base)
    ensures |Sectors(chunks, |chunks|)| < TWO_32 + FLAG_BIT
  {
    var n := |chunks|;
    SectorsLength(chunks, n);
    assert Rel(Sizes(chunks), n) == Rel(Sizes(chunks), n - 1) + Sizes(chunks)[n - 1].size;
  }

  lemma SpecFits(lib: Library, m: Media, chunks: seq<StoredChunk>)
    requires GroupFits(chunks, CHUNKS_START)
    ensures FitsCap(lib, Spec(m, chunks)) && FILE_HEADER_V1_SIZE + BodySize(BlocksOf(lib, Spec(m, chunks))) <= MAX_INT64
  {
    SpecIsExpressible(lib, m, chunks);
    var spec := Spec(m, chunks);
    var v, group := Block("volume", Volume(m)), GroupBlocks(lib, spec.groups[0], GroupsStart(spec));
    OneGroupsBlocks(lib, spec.groups[0], GroupsStart(spec));
    assert BlocksOf(lib, spec) == [v, group[0], group[1], group[2]];
    SizeOfFour(v, group[0], group[1], group[2]);
    SectorsSize(chunks, CHUNKS_START);
  }

  lemma SpecGroups(m: Media, chunks: seq<StoredChunk>)
    ensures AllGroups([Spec(m, chunks)]) == Spec(m, chunks).groups && AllChunks([Spec(m, chunks)]) == chunks
  {
    var spec := Spec(m, chunks);
    GroupsOfFirst([spec]);
    assert [spec][1..] == [] && Mapped(GROUPS, []) == [];
    assert spec.groups + [] == spec.groups && spec.groups[1..] == [];
    assert ChunksOf(spec.groups) == chunks + ChunksOf([]) == chunks;
  }

  /** The image exists: a file that holds nothing but the segment. */
  lemma ImageExists(lib: Library, m: Media, chunks: seq<StoredChunk>) returns (src: Source)
    requires GroupFits(chunks, CHUNKS_START)
    ensures WrittenSet(lib, [Spec(m, chunks)], [src]) && AllFitCap(lib, [Spec(m, chunks)])
  {
    var spec := Spec(m, chunks);
    SpecFits(lib, m, chunks);
    ImageIsWritten(lib, spec, 1, true);
    src := ImageOf(lib, spec, 1, true);
    assert WrittenAt(lib, [spec], [src], 0);
  }

  lemma SpecKeptIff(lib: Library, m: Media, chunks: seq<StoredChunk>)
    ensures Settled(AllGroups([Spec(m, chunks)])) && AllKeepACopy(AllGroups([Spec(m, chunks)]))
    ensures AllKept(AllGroups([Spec(m, chunks)])) <==> |chunks| <= MAX_TABLE_ENTRIES
  {
    SpecGroups(m, chunks);
    assert Spec(m, chunks).groups[0].chunks == chunks;
  }

  lemma SpecGeometry(m: Media, chunks: seq<StoredChunk>, g: Geometry)
    requires ComputeGeometry(Some(m)) == Ok(g)
    ensures HasGeometry([Spec(m, chunks)], g)
  {
    VolumeReadsBack(m);
  }

  // ----- whole sets of located chunks

  /** Each chunk is located in the source its descriptor names. */
  ghost predicate AllLocated(table: seq<ChunkDescriptor>, chunks: seq<StoredChunk>) {
    && |table| == |chunks|
    && forall i :: 0 <= i < |chunks| ==>
         table[i].dataSource.Some? && Locates(table[i].dataSource.value, table[i], chunks[i])
  }

  lemma {:induction false} TablesLocate(sources: seq<Source>, specs: seq<SegmentSpec>, segs: seq<Segment>)
    requires |segs| == |specs| == |sources|
    requires forall i :: 0 <= i < |specs| ==> LocatesAll(sources[i], segs[i].chunkTable, ChunksOf(specs[i].groups))
    ensures AllLocated(Tables(segs), AllChunks(specs))
    decreases |segs|
  {
    if segs != [] {
      TablesLocate(sources[1..], specs[1..], segs[1..]);
      GroupsOfFirst(specs);
      ChunksAppend(specs[0].groups, AllGroups(specs[1..]));
      LocatedAppend(sources[0], segs[0].chunkTable, ChunksOf(specs[0].groups),
                    Tables(segs[1..]), AllChunks(specs[1..]));
    }
  }

  lemma LocatedAppend(src: Source, ta: seq<ChunkDescriptor>, a: seq<StoredChunk>,
                      tb: seq<ChunkDescriptor>, b: seq<StoredChunk>)
    requires LocatesAll(src, ta, a) && AllLocated(tb, b)
    ensures AllLocated(ta + tb, a + b)
  {
  }

  lemma {:induction false} SegmentKept(specs: seq<SegmentSpec>, i: nat)
    requires AllKept(AllGroups(specs)) && i < |specs|
    ensures AllKept(specs[i].groups)
    decreases |specs|
  {
    GroupsOfFirst(specs);
    var own, later := specs[0].groups, AllGroups(specs[1..]);
    var all := own + later;
    if i == 0 {
      assert forall k :: 0 <= k < |own| ==> own[k] == all[k];
    } else {
      assert forall k :: 0 <= k < |later| ==> later[k] == all[|own| + k];
      SegmentKept(specs[1..], i - 1);
    }
  }

  /** A set of kept groups opens with every chunk located, whatever the chunks hold. */
  lemma {:induction false} KeptSetOpens(
    lib: Library, sources: seq<Source>, specs: seq<SegmentSpec>, segs: seq<Segment>, g: Geometry, opts: Options)
    requires AllReadBack(lib, sources, specs, segs) && HasGeometry(specs, g) && AllKept(AllGroups(specs))
    ensures OpenSorted(segs, opts).Ok? && OpenSorted(segs, opts).value.geometry == g
    ensures AllLocated(OpenSorted(segs, opts).value.chunkTable, AllChunks(specs))
  {
    ReadBackIsOpenSet(lib, sources, specs, segs);
    ReadBackGeometry(lib, sources, specs, segs, g);
    ReadBackCounts(lib, sources, specs, segs);
    InvalidIffNotKept(AllGroups(specs), Mapped(STATS, AllGroups(specs)));
    OpenSetOpens(segs, g, opts);
    forall i | 0 <= i < |specs|
      ensures LocatesAll(sources[i], segs[i].chunkTable, ChunksOf(specs[i].groups))
    {
      assert ReadBackAt(lib, sources, specs, segs[i], i);
      SegmentKept(specs, i);
      KeptAreSeen(g.chunkSize, specs[i].groups);
    }
    TablesLocate(sources, specs, segs);
  }

  // ----- chunks smaller than their trailer

  /** A located plain chunk of fewer than four bytes that is larger than a whole chunk makes decoding panic. */
  lemma FragmentPanics(lib: Library, chunkSize: int, first: Source, src: Source, d: ChunkDescriptor, c: StoredChunk)
    requires Locates(src, d, c) && !c.compressed && 0 < chunkSize < |c.stored| < 4
    ensures DecodeChunk(lib, chunkSize, first, d) == Err(SliceOutOfRange)
  {
    PlacedRead(src, d.dataOffset, c.stored, 0, |c.stored|);
  }

  /** Whatever else a written set holds, it opens, and reading the first byte of such a chunk panics. */
  lemma {:induction false} WrittenFragmentPanics(
    lib: Library, sources: seq<Source>, specs: seq<SegmentSpec>, segs: seq<Segment>, g: Geometry, opts: Options,
    k: nat)
    requires AllReadBack(lib, sources, specs, segs) && HasGeometry(specs, g) && AllKept(AllGroups(specs))
    requires k < |AllChunks(specs)| && 0 <= k * g.chunkSize < g.logicalSize
    requires var c := AllChunks(specs)[k]; !c.compressed && 0 < g.chunkSize < |c.stored| < 4
    ensures OpenSorted(segs, opts).Ok?
    ensures var d := DeviceIn(lib, OpenSorted(segs, opts).value);
            Read(d, k * g.chunkSize, 1) == ReadResult([], Some(SliceOutOfRange))
  {
    KeptSetOpens(lib, sources, specs, segs, g, opts);
    var o := OpenSorted(segs, opts).value;
    var entry := o.chunkTable[k];
    FragmentPanics(lib, g.chunkSize, o.first.source, entry.dataSource.value, entry, AllChunks(specs)[k]);
    ErrorAtChunk(DeviceIn(lib, o), k, SliceOutOfRange);
  }

  lemma ErrorAtChunk(d: Device, k: nat, e: ReadError)
    requires 0 < d.chunkSize && k < |d.chunks| && 0 <= k * d.chunkSize < d.size && d.chunks[k] == Err(e)
    ensures Read(d, k * d.chunkSize, 1) == ReadResult([], Some(e))
  {
    DivModUnique(k * d.chunkSize, d.chunkSize, k, 0);
    assert !Readable(d, k * d.chunkSize);
    assert Prefix(d, k * d.chunkSize, 1) == [];
  }

  /** Three stored bytes, which a table takes for a chunk. */
  const FRAGMENT: StoredChunk := StoredChunk([7], [7, 7, 7], false)

  /** With chunks of one or two bytes there is an image, written in full, that opens and on which a read panics. */
  lemma SmallChunksCanPanic(lib: Library, ext: Extractors, chunkSize: u32, opts: Options)
    returns (src: Source, segs: seq<Segment>)
    requires 1 <= chunkSize < 3
    ensures Parses(Parser(lib, ext), [src], segs) && OpenSorted(segs, opts).Ok?
    ensures var d := DeviceIn(lib, OpenSorted(segs, opts).value);
            d.chunkSize == d.size == chunkSize && Read(d, 0, 1) == ReadResult([], Some(SliceOutOfRange))
  {
    var m, g := Media(1, chunkSize, 1), Geometry(chunkSize, chunkSize);
    GeometryIsExact(m);
    src, segs := FragmentImage(lib, ext, m, g, opts);
    SpecGroups(m, [FRAGMENT]);
    SpecKeptIff(lib, m, [FRAGMENT]);
    WrittenFragmentPanics(lib, [src], [Spec(m, [FRAGMENT])], segs, g, opts, 0);
  }

  /** An image of that one chunk, under any geometry that is accepted. */
  lemma FragmentImage(lib: Library, ext: Extractors, m: Media, g: Geometry, opts: Options)
    returns (src: Source, segs: seq<Segment>)
    requires ComputeGeometry(Some(m)) == Ok(g)
    ensures Parses(Parser(lib, ext), [src], segs) && OpenSorted(segs, opts).Ok?
    ensures OpenSorted(segs, opts).value.geometry == g
    ensures AllReadBack(lib, [src], [Spec(m, [FRAGMENT])], segs) && HasGeometry([Spec(m, [FRAGMENT])], g)
  {
    OneChunkFits(FRAGMENT);
    src := ImageExists(lib, m, [FRAGMENT]);
    segs := SetParses(lib, ext, [Spec(m, [FRAGMENT])], [src]);
    SpecGeometry(m, [FRAGMENT], g);
    SpecKeptIff(lib, m, [FRAGMENT]);
    KeptSetOpens(lib, [src], [Spec(m, [FRAGMENT])], segs, g, opts);
  }

  // ----- devices of one group

  lemma GroupHeld(lib: Library, m: Media, chunks: seq<StoredChunk>, g: Geometry)
    requires ComputeGeometry(Some(m)) == Ok(g) && AllStored(lib, chunks)
    requires CutTo(Mapped(STORED_PAYLOAD, chunks), g.chunkSize, g.logicalSize)
    ensures HoldsDevice(lib, [Spec(m, chunks)], g)
    ensures WrittenDevice([Spec(m, chunks)]) == Flatten(Mapped(STORED_PAYLOAD, chunks))
  {
    SpecGeometry(m, chunks, g);
    SpecGroups(m, chunks);
  }

  ghost predicate AllFetchable(chunkSize: int, chunks: seq<StoredChunk>) {
    forall i :: 0 <= i < |chunks| ==> Fetchable(chunkSize, chunks[i])
  }

  lemma GroupWithinIff(m: Media, chunks: seq<StoredChunk>, chunkSize: int)
    ensures WithinLimits(chunkSize, AllGroups([Spec(m, chunks)])) <==>
            |chunks| <= MAX_TABLE_ENTRIES && AllFetchable(chunkSize, chunks)
  {
    SpecGroups(m, chunks);
    var groups := Spec(m, chunks).groups;
    assert groups[0].chunks == chunks;
    assert GroupWithinLimits(chunkSize, groups[0]) <==>
           |chunks| <= MAX_TABLE_ENTRIES && AllFetchable(chunkSize, chunks);
    assert WithinLimits(chunkSize, groups) <==> GroupWithinLimits(chunkSize, groups[0]);
  }

  /** A device of one group, and what becomes of its image. */
  lemma {:induction false} OneGroupRoundTrip(
    lib: Library, ext: Extractors, m: Media, chunks: seq<StoredChunk>, g: Geometry, opts: Options)
    returns (src: Source, segs: seq<Segment>)
    requires ComputeGeometry(Some(m)) == Ok(g) && AllStored(lib, chunks) && GroupFits(chunks, CHUNKS_START)
    requires CutTo(Mapped(STORED_PAYLOAD, chunks), g.chunkSize, g.logicalSize)
    ensures Parses(Parser(lib, ext), [src], segs) && AllReadBack(lib, [src], [Spec(m, chunks)], segs)
    ensures var r := OpenSorted(segs, opts);
            && (r.Ok? <==> opts.policy == Strict ==> |chunks| <= MAX_TABLE_ENTRIES)
            && (r.Ok? ==>
                  var d := DeviceIn(lib, r.value);
                  && d.size == g.logicalSize
                  && (ReadsAs(d, Flatten(Mapped(STORED_PAYLOAD, chunks))) <==>
                      |chunks| <= MAX_TABLE_ENTRIES && AllFetchable(g.chunkSize, chunks)))
  {
    src := ImageExists(lib, m, chunks);
    GroupHeld(lib, m, chunks, g);
    var parsed;
    parsed, segs := ImageRoundTrip(lib, ext, [Spec(m, chunks)], [src], [src], g, opts);
    SpecKeptIff(lib, m, chunks);
    GroupWithinIff(m, chunks, g.chunkSize);
  }

  // ----- chunks longer than one read

  lemma OnePart(chunk: StoredChunk, chunkSize: nat)
    requires 0 < |chunk.payload| == chunkSize
    ensures CutTo(Mapped(STORED_PAYLOAD, [chunk]), chunkSize, chunkSize)
    ensures Flatten(Mapped(STORED_PAYLOAD, [chunk])) == chunk.payload
  {
    var parts := Mapped(STORED_PAYLOAD, [chunk]);
    assert parts == [chunk.payload] && parts[1..] == [];
    assert chunk.payload + [] == chunk.payload;
  }

  lemma PlainSizes(lib: Library, payload: seq<byte>)
    requires 0 < |payload| < FLAG_BIT - CHUNK_TRAILER_SIZE
    ensures var c := StorePlain(lib, payload);
            && WellStored(lib, c) && c.payload == payload && |c.stored| == |payload| + 4 <= MaxStored(|payload|)
            && |c.stored| < FLAG_BIT && (Fetchable(|payload|, c) <==> |payload| <= MAX_READ_SIZE - CHUNK_TRAILER_SIZE)
  {
    PlainIsStored(lib, payload, |payload|);
  }

  /**
   * A device of one full plain chunk, of any size up to 2^31 - 5, is written as an image that opens under every policy.
   * It is read back if and only if chunk and checksum fit one read of the reader, that is up to 2^30 - 4 bytes; else
   * already its first byte cannot be read.
   */
  lemma {:induction false} LongChunkReadIff(lib: Library, ext: Extractors, device: seq<byte>, opts: Options)
    returns (src: Source, segs: seq<Segment>)
    requires 0 < |device| < FLAG_BIT - CHUNK_TRAILER_SIZE
    ensures Parses(Parser(lib, ext), [src], segs) && OpenSorted(segs, opts).Ok?
    ensures var d := DeviceIn(lib, OpenSorted(segs, opts).value);
            && d.size == |device|
            && (ReadsAs(d, device) <==> |device| <= MAX_READ_SIZE - CHUNK_TRAILER_SIZE)
            && (|device| > MAX_READ_SIZE - CHUNK_TRAILER_SIZE ==>
                  Read(d, 0, 1) == ReadResult([], Some(SourceUnreadable)))
  {
    var n, chunk := |device|, StorePlain(lib, device);
    var m, g := Media(n, 1, n), Geometry(n, n);
    PlainSizes(lib, device);
    GeometryIsExact(m);
    OneChunkFits(chunk);
    OnePart(chunk, n);
    src, segs := OneGroupRoundTrip(lib, ext, m, [chunk], g, opts);
    SpecGeometry(m, [chunk], g);
    LongChunkError(lib, ext, src, segs, m, chunk, g, opts);
  }

  lemma {:induction false} LongChunkError(
    lib: Library, ext: Extractors, src: Source, segs: seq<Segment>, m: Media, chunk: StoredChunk, g: Geometry,
    opts: Options)
    requires AllReadBack(lib, [src], [Spec(m, [chunk])], segs) && HasGeometry([Spec(m, [chunk])], g)
    requires 0 < g.chunkSize && 0 < g.logicalSize && 0 < |chunk.stored| <= MaxStored(g.chunkSize)
    ensures OpenSorted(segs, opts).Ok?
    ensures |chunk.stored| > MAX_READ_SIZE ==>
              Read(DeviceIn(lib, OpenSorted(segs, opts).value), 0, 1) == ReadResult([], Some(SourceUnreadable))
  {
    SpecKeptIff(lib, m, [chunk]);
    KeptSetOpens(lib, [src], [Spec(m, [chunk])], segs, g, opts);
    SpecGroups(m, [chunk]);
    var o := OpenSorted(segs, opts).value;
    assert Locates(o.chunkTable[0].dataSource.value, o.chunkTable[0], chunk);
    if |chunk.stored| > MAX_READ_SIZE {
      ErrorAtChunk(DeviceIn(lib, o), 0, SourceUnreadable);
    }
  }

  // ----- groups longer than the reader's tables

  /** A device in chunks of one byte each. */
  function Singles(lib: Library, device: seq<byte>): (chunks: seq<StoredChunk>)
    ensures |chunks| == |device|
  {
    seq(|device|, i requires 0 <= i < |device| => StorePlain(lib, [device[i]]))
  }

  lemma {:induction false} SinglesRel(lib: Library, device: seq<byte>, i: nat)
    requires i <= |device|
    ensures Rel(Sizes(Singles(lib, device)), i) == 5 * i
  {
    if i > 0 {
      SinglesRel(lib, device, i - 1);
      assert Sizes(Singles(lib, device))[i - 1].size == 5;
    }
  }

  lemma SinglesFit(lib: Library, device: seq<byte>)
    requires 0 < |device| <= 0x2000_0000
    ensures GroupFits(Singles(lib, device), CHUNKS_START)
  {
    var sizes := Sizes(Singles(lib, device));
    SinglesRel(lib, device, |device|);
    SinglesRel(lib, device, |device| - 1);
    assert forall i :: 0 <= i < |sizes| ==> sizes[i].size == 5;
  }

  lemma {:induction false} SinglesFlatten(parts: seq<seq<byte>>, device: seq<byte>)
    requires |parts| == |device| && forall i :: 0 <= i < |device| ==> parts[i] == [device[i]]
    ensures Flatten(parts) == device
    decreases |device|
  {
    if device != [] {
      SinglesFlatten(parts[1..], device[1..]);
      assert device == [device[0]] + device[1..];
    }
  }

  lemma SinglesHeld(lib: Library, device: seq<byte>)
    requires 0 < |device|
    ensures var chunks := Singles(lib, device);
            && AllStored(lib, chunks) && AllFetchable(1, chunks)
            && CutTo(Mapped(STORED_PAYLOAD, chunks), 1, |device|)
            && Flatten(Mapped(STORED_PAYLOAD, chunks)) == device
  {
    SinglesFlatten(Mapped(STORED_PAYLOAD, Singles(lib, device)), device);
  }

  /**
   * A device of up to 2^29 bytes, in chunks of one byte each that one table lists, is written as an image. The default
   * policy opens it, and reads it back if and only if the table has no more than 2^24 entries; the strict policy opens
   * it if and only if that is so.
   */
  lemma {:induction false} LongTableReadIff(lib: Library, ext: Extractors, device: seq<byte>, opts: Options)
    returns (src: Source, segs: seq<Segment>)
    requires 0 < |device| <= 0x2000_0000
    ensures Parses(Parser(lib, ext), [src], segs)
    ensures var r := OpenSorted(segs, opts);
            && (r.Ok? <==> opts.policy == Strict ==> |device| <= MAX_TABLE_ENTRIES)
            && (r.Ok? ==>
                  && DeviceIn(lib, r.value).size == |device|
                  && (ReadsAs(DeviceIn(lib, r.value), device) <==> |device| <= MAX_TABLE_ENTRIES))
  {
    var m, g, chunks := Media(1, 1, |device|), Geometry(1, |device|), Singles(lib, device);
    GeometryIsExact(m);
    SinglesFit(lib, device);
    SinglesHeld(lib, device);
    src, segs := OneGroupRoundTrip(lib, ext, m, chunks, g, opts);
  }

  // ----- geometries that no run time allocates

  /** A geometry of 2^61 bytes to a chunk, with a single sector of 2^31 bytes. */
  const HUGE: Media := Media(0x4000_0000, 0x8000_0000, 1)

  /** There is an image, written in full, that opens under every policy and on which the pass panics at once. */
  lemma HugeChunksPanic(lib: Library, ext: Extractors, opts: Options) returns (src: Source, segs: seq<Segment>)
    requires lib.maxAlloc < 0x2000_0000_0000_0000
    ensures Parses(Parser(lib, ext), [src], segs) && OpenSorted(segs, opts).Ok?
    ensures var d := DeviceIn(lib, OpenSorted(segs, opts).value);
            d.chunkSize == 0x2000_0000_0000_0000 && 0 < d.size && PassPanics(d, lib.maxAlloc)
  {
    GeometryIsExact(HUGE);
    src, segs := FragmentImage(lib, ext, HUGE, Geometry(0x2000_0000_0000_0000, 0x8000_0000), opts);
  }
}
