/** End to end: write a device as a set of EWF v1 segments, supply them in any order, read the device back. */
module RoundTrip {
  import opened Batches
  import opened Bytes
  import opened Chunks
  import opened ChunkTables
  import opened CutDevices
  import opened Devices
  import opened ImageReaders
  import opened Openings
  import opened SegmentRoundTrip
  import opened Segments
  import opened SuppliedSets
  import opened TableGroups
  import opened WrittenTables

  // ----- the reader's limits

  /** The reader accepts the chunk's stored size, and reads that much at once. */
  predicate Fetchable(chunkSize: int, c: StoredChunk) {
    |c.stored| <= MAX_READ_SIZE && |c.stored| <= MaxStored(chunkSize)
  }

  /** What the reader, as opposed to the format, asks of a group: entries it reads, and chunks it fetches. */
  predicate GroupWithinLimits(chunkSize: int, g: WrittenGroup) {
    && |g.chunks| <= MAX_TABLE_ENTRIES
    && forall i :: 0 <= i < |g.chunks| ==> Fetchable(chunkSize, g.chunks[i])
  }

  predicate WithinLimits(chunkSize: int, groups: seq<WrittenGroup>) {
    forall i :: 0 <= i < |groups| ==> GroupWithinLimits(chunkSize, groups[i])
  }

  predicate AllKeepACopy(groups: seq<WrittenGroup>) {
    forall i :: 0 <= i < |groups| ==> KeepsACopy(groups[i])
  }

  // ----- decoding a located chunk

  /**
   * A located chunk decodes to its payload if and only if the reader fetches it; if not it is refused, without a panic.
   * Only a short uncompressed chunk may drag its trailer along, behind the payload.
   */
  lemma LocatedDecodesIff(lib: Library, chunkSize: int, first: Source, src: Source, d: ChunkDescriptor, c: StoredChunk)
    requires Locates(src, d, c) && WellStored(lib, c) && 0 < |c.payload| <= chunkSize
    ensures Decodes(chunkSize, c.payload, DecodeChunk(lib, chunkSize, first, d)) <==> Fetchable(chunkSize, c)
    ensures var decoded := DecodeChunk(lib, chunkSize, first, d);
            Fetchable(chunkSize, c) || (decoded.Err? && !Panics(decoded.error))
  {
    if Fetchable(chunkSize, c) {
      PlacedRead(src, d.dataOffset, c.stored, 0, |c.stored|);
      assert c.stored[0..|c.stored|] == c.stored;
      if !c.compressed {
        assert c.stored[..|c.payload|] == c.payload;
      }
    }
  }

  const STORED_PAYLOAD: StoredChunk -> seq<byte> := (c: StoredChunk) => c.payload

  ghost predicate AllStored(lib: Library, chunks: seq<StoredChunk>) {
    forall i :: 0 <= i < |chunks| ==> WellStored(lib, chunks[i])
  }

  /** A payload stored as it is, with its checksum behind it. */
  function StorePlain(lib: Library, payload: seq<byte>): StoredChunk {
    StoredChunk(payload, payload + Put32(lib.adler32(payload)), false)
  }

  /** Every payload can be stored plain; the reader fetches it if and only if it is no longer than one read allows. */
  lemma PlainIsStored(lib: Library, payload: seq<byte>, chunkSize: i64)
    requires 0 < |payload| <= chunkSize < 0x4000_0000_0000_0000 - 2048
    ensures WellStored(lib, StorePlain(lib, payload))
    ensures Fetchable(chunkSize, StorePlain(lib, payload)) <==> |payload| <= MAX_READ_SIZE - CHUNK_TRAILER_SIZE
  {
  }

  // ----- groups as batches

  function PartOf(chunkSize: int): StoredChunk -> Part {
    (c: StoredChunk) => Part(c.payload, if Fetchable(chunkSize, c) then Decodable else Refused)
  }

  function BatchOf(chunkSize: int): WrittenGroup -> Batch {
    (g: WrittenGroup) => Batch(Mapped(PartOf(chunkSize), g.chunks), Kept(g))
  }

  function BatchesOf(chunkSize: int, groups: seq<WrittenGroup>): seq<Batch> {
    Mapped(BatchOf(chunkSize), groups)
  }

  lemma MappedAppend<A, B>(f: A -> B, a: seq<A>, b: seq<A>)
    ensures Mapped(f, a + b) == Mapped(f, a) + Mapped(f, b)
  {
  }

  /** The parts of the batches are those of the chunks, and those that are seen belong to the kept groups. */
  lemma {:induction false} BatchParts(chunkSize: int, groups: seq<WrittenGroup>)
    ensures AllParts(BatchesOf(chunkSize, groups)) == Mapped(PartOf(chunkSize), ChunksOf(groups))
    ensures SeenParts(BatchesOf(chunkSize, groups)) == Mapped(PartOf(chunkSize), KeptChunks(groups))
    decreases |groups|
  {
    if groups != [] {
      var batches, f := BatchesOf(chunkSize, groups), PartOf(chunkSize);
      assert batches[1..] == BatchesOf(chunkSize, groups[1..]);
      BatchParts(chunkSize, groups[1..]);
      MappedAppend(f, groups[0].chunks, ChunksOf(groups[1..]));
      MappedAppend(f, if Kept(groups[0]) then groups[0].chunks else [], KeptChunks(groups[1..]));
    }
  }

  lemma {:induction false} BatchPayloads(chunkSize: int, groups: seq<WrittenGroup>)
    ensures Payloads(AllParts(BatchesOf(chunkSize, groups))) == Mapped(STORED_PAYLOAD, ChunksOf(groups))
  {
    BatchParts(chunkSize, groups);
    var a, b := Payloads(Mapped(PartOf(chunkSize), ChunksOf(groups))), Mapped(STORED_PAYLOAD, ChunksOf(groups));
    assert a == b;
  }

  lemma {:induction false} ChunksFetchable(chunkSize: int, groups: seq<WrittenGroup>)
    ensures AllReadable(Mapped(PartOf(chunkSize), ChunksOf(groups))) <==>
            forall i :: 0 <= i < |groups| ==> forall k :: 0 <= k < |groups[i].chunks| ==>
              Fetchable(chunkSize, groups[i].chunks[k])
    decreases |groups|
  {
    if groups != [] {
      var f, own, later := PartOf(chunkSize), groups[0].chunks, groups[1..];
      ChunksFetchable(chunkSize, later);
      MappedAppend(f, own, ChunksOf(later));
      ReadableAppend(Mapped(f, own), Mapped(f, ChunksOf(later)));
      assert AllReadable(Mapped(f, own)) <==> forall k :: 0 <= k < |own| ==> Fetchable(chunkSize, own[k]) by {
        assert forall k :: 0 <= k < |own| ==> Mapped(f, own)[k].fate.Decodable? == Fetchable(chunkSize, own[k]);
      }
      assert groups == [groups[0]] + later;
    }
  }

  lemma ReadableAppend(a: seq<Part>, b: seq<Part>)
    ensures AllReadable(a + b) <==> AllReadable(a) && AllReadable(b)
  {
    if AllReadable(a + b) {
      assert forall i :: 0 <= i < |a| ==> a[i] == (a + b)[i];
      assert forall i :: 0 <= i < |b| ==> b[i] == (a + b)[|a| + i];
    }
  }

  /** All batches are seen and all parts readable exactly within the limits, with a copy of every table left. */
  lemma {:induction false} LimitsInBatches(chunkSize: int, groups: seq<WrittenGroup>)
    ensures var batches := BatchesOf(chunkSize, groups);
            AllSeen(batches) && AllReadable(AllParts(batches)) <==>
            WithinLimits(chunkSize, groups) && AllKeepACopy(groups)
  {
    BatchParts(chunkSize, groups);
    ChunksFetchable(chunkSize, groups);
    assert AllSeen(BatchesOf(chunkSize, groups)) <==> AllKept(groups) by {
      assert forall i :: 0 <= i < |groups| ==> BatchesOf(chunkSize, groups)[i].seen == Kept(groups[i]);
    }
  }

  // ----- a set of segments

  const GROUPS: SegmentSpec -> seq<WrittenGroup> := (spec: SegmentSpec) => spec.groups

  function AllGroups(specs: seq<SegmentSpec>): seq<WrittenGroup> {
    Flatten(Mapped(GROUPS, specs))
  }

  function AllChunks(specs: seq<SegmentSpec>): seq<StoredChunk> {
    ChunksOf(AllGroups(specs))
  }

  /** The device that the segments hold. */
  function WrittenDevice(specs: seq<SegmentSpec>): seq<byte> {
    Flatten(Mapped(STORED_PAYLOAD, AllChunks(specs)))
  }

  /** sources are the segments, numbered from 1, the last of them ending in done. */
  ghost predicate WrittenSet(lib: Library, specs: seq<SegmentSpec>, sources: seq<Source>) {
    && |sources| == |specs| && 1 <= |specs| < 0x1_0000
    && forall i :: 0 <= i < |specs| ==> WrittenAt(lib, specs, sources, i)
  }

  ghost predicate WrittenAt(lib: Library, specs: seq<SegmentSpec>, sources: seq<Source>, i: nat)
    requires i < |specs| == |sources| < 0x1_0000
  {
    Written(lib, sources[i], specs[i], i + 1, i == |specs| - 1)
  }

  /** No chain of the set exceeds the reader's cap on sections. */
  ghost predicate AllFitCap(lib: Library, specs: seq<SegmentSpec>) {
    forall i :: 0 <= i < |specs| ==> FitsCap(lib, specs[i])
  }

  /** The geometry of the set, which is that of its first segment. */
  ghost predicate HasGeometry(specs: seq<SegmentSpec>, g: Geometry) {
    && specs != [] && specs[0].volume.Some? && |specs[0].volume.value| >= VOLUME_SIZE
    && ComputeGeometry(MediaOf(specs[0])) == Ok(g)
  }

  /** The set holds this device: geometry in the first segment, and chunks cut to that geometry. */
  ghost predicate HoldsDevice(lib: Library, specs: seq<SegmentSpec>, g: Geometry) {
    && HasGeometry(specs, g) && AllStored(lib, AllChunks(specs))
    && CutTo(Mapped(STORED_PAYLOAD, AllChunks(specs)), g.chunkSize, g.logicalSize)
  }

  ghost predicate AllReadBack(lib: Library, sources: seq<Source>, specs: seq<SegmentSpec>, segs: seq<Segment>) {
    && |segs| == |specs| == |sources| && 1 <= |specs| < 0x1_0000
    && forall i :: 0 <= i < |specs| ==> ReadBackAt(lib, sources, specs, segs[i], i)
  }

  ghost predicate ReadBackAt(lib: Library, sources: seq<Source>, specs: seq<SegmentSpec>, seg: Segment, i: nat)
    requires i < |specs| == |sources| < 0x1_0000
  {
    ReadBack(lib, sources[i], specs[i], i + 1, i == |specs| - 1, seg)
  }

  lemma MemberParses(
    lib: Library, ext: Extractors, parse: Source -> Result<Segment, SegmentError>, specs: seq<SegmentSpec>,
    sources: seq<Source>, i: nat)
    requires parse == Parser(lib, ext) && i < |specs| == |sources| < 0x1_0000
    requires WrittenAt(lib, specs, sources, i) && FitsCap(lib, specs[i])
    ensures parse(sources[i]).Ok? && ReadBackAt(lib, sources, specs, parse(sources[i]).value, i)
  {
    var seg := SegmentParses(lib, ext, parse, sources[i], specs[i], i + 1, i == |specs| - 1);
  }

  lemma SetParses(
    lib: Library, ext: Extractors, specs: seq<SegmentSpec>, sources: seq<Source>) returns (segs: seq<Segment>)
    requires WrittenSet(lib, specs, sources) && AllFitCap(lib, specs)
    ensures Parses(Parser(lib, ext), sources, segs) && AllReadBack(lib, sources, specs, segs)
  {
    var parse := Parser(lib, ext);
    forall i | 0 <= i < |specs|
      ensures parse(sources[i]).Ok? && ReadBackAt(lib, sources, specs, parse(sources[i]).value, i)
    {
      MemberParses(lib, ext, parse, specs, sources, i);
    }
    segs := seq(|specs|, i requires 0 <= i < |specs| => parse(sources[i]).value);
  }

  /** A set with a longer chain does not parse, in whatever order it is supplied. */
  lemma LongSetRefused(
    lib: Library, ext: Extractors, specs: seq<SegmentSpec>, sources: seq<Source>, supplied: seq<Source>)
    requires WrittenSet(lib, specs, sources) && !AllFitCap(lib, specs) && multiset(supplied) == multiset(sources)
    ensures forall parsed :: !Parses(Parser(lib, ext), supplied, parsed)
  {
    var i :| 0 <= i < |specs| && !FitsCap(lib, specs[i]);
    assert WrittenAt(lib, specs, sources, i);
    LongSegmentRefused(lib, ext, Parser(lib, ext), sources[i], specs[i], i + 1, i == |specs| - 1);
    UnparsedSupply(Parser(lib, ext), sources, supplied, i);
  }

  // ----- what the set opens as

  lemma {:induction false} ReadBackIsOpenSet(
    lib: Library, sources: seq<Source>, specs: seq<SegmentSpec>, segs: seq<Segment>)
    requires AllReadBack(lib, sources, specs, segs)
    ensures OpenSet(segs)
  {
    forall i | 0 <= i < |segs|
      ensures segs[i].fileType == EWF1 && segs[i].header.majorVersion == 1 && Number(segs[i]) == i + 1
      ensures !segs[i].meta.encrypted && (i == |segs| - 1 ==> segs[i].meta.hasDone)
    {
      assert ReadBackAt(lib, sources, specs, segs[i], i);
    }
  }

  lemma {:induction false} ReadBackGeometry(
    lib: Library, sources: seq<Source>, specs: seq<SegmentSpec>, segs: seq<Segment>, g: Geometry)
    requires AllReadBack(lib, sources, specs, segs) && HasGeometry(specs, g)
    ensures ComputeGeometry(MergeFirst(segs, |segs|).meta.media) == Ok(g)
  {
    assert ReadBackAt(lib, sources, specs, segs[0], 0);
    assert IsFirstMedia(segs, 0);
    MergedIsSummary(segs, |segs|);
  }

  lemma StatsAppend(a: seq<WrittenGroup>, b: seq<WrittenGroup>)
    ensures StatsOfAll(a + b) == AddStats(StatsOfAll(a), StatsOfAll(b))
  {
    MappedAppend(STATS, a, b);
    SumStatsAppend(Mapped(STATS, a), Mapped(STATS, b));
  }

  lemma {:induction false} StatsOfSet(specs: seq<SegmentSpec>, stats: seq<Stats>)
    requires |stats| == |specs| && forall i :: 0 <= i < |specs| ==> stats[i] == StatsOfAll(specs[i].groups)
    ensures SumStats(stats) == StatsOfAll(AllGroups(specs))
    decreases |specs|
  {
    if specs != [] {
      StatsOfSet(specs[1..], stats[1..]);
      GroupsOfFirst(specs);
      StatsAppend(specs[0].groups, AllGroups(specs[1..]));
    }
  }

  lemma GroupsOfFirst(specs: seq<SegmentSpec>)
    requires specs != []
    ensures AllGroups(specs) == specs[0].groups + AllGroups(specs[1..])
  {
    assert Mapped(GROUPS, specs)[1..] == Mapped(GROUPS, specs[1..]);
  }

  /** Every group is counted once: recovered if it is kept by its second copy only, invalid if it is not kept. */
  lemma {:induction false} ReadBackCounts(
    lib: Library, sources: seq<Source>, specs: seq<SegmentSpec>, segs: seq<Segment>)
    requires AllReadBack(lib, sources, specs, segs)
    ensures Counts(MergeFirst(segs, |segs|), StatsOfAll(AllGroups(specs)))
  {
    var stats := StatsOfFirst(segs, |segs|);
    forall i | 0 <= i < |segs|
      ensures stats[i] == StatsOfAll(specs[i].groups)
    {
      assert ReadBackAt(lib, sources, specs, segs[i], i);
    }
    MergedCounts(segs, |segs|);
    StatsOfSet(specs, stats);
  }

  lemma NotKeptIsInvalid(g: WrittenGroup)
    ensures StatsOf(g).invalid == 0 <==> Kept(g)
  {
  }

  lemma {:induction false} InvalidIffNotKept(groups: seq<WrittenGroup>, stats: seq<Stats>)
    requires stats == Mapped(STATS, groups)
    ensures SumStats(stats).invalid == 0 <==> AllKept(groups)
  {
    NoneInvalid(stats);
    forall i | 0 <= i < |groups|
      ensures stats[i].invalid == 0 <==> Kept(groups[i])
    {
      NotKeptIsInvalid(groups[i]);
    }
  }

  // ----- the device it opens with

  lemma {:induction false} FlattenedBatches(chunkSize: int, specs: seq<SegmentSpec>, batches: seq<seq<Batch>>)
    requires |batches| == |specs|
    requires forall i :: 0 <= i < |specs| ==> batches[i] == BatchesOf(chunkSize, specs[i].groups)
    ensures Flatten(batches) == BatchesOf(chunkSize, AllGroups(specs))
    decreases |specs|
  {
    if specs != [] {
      FlattenedBatches(chunkSize, specs[1..], batches[1..]);
      GroupsOfFirst(specs);
      MappedAppend(BatchOf(chunkSize), specs[0].groups, AllGroups(specs[1..]));
    }
  }

  /** A located table of well-stored chunks shows the batches. */
  lemma {:induction false} LocatedShows(
    lib: Library, chunkSize: int, first: Source, src: Source, table: seq<ChunkDescriptor>, groups: seq<WrittenGroup>)
    requires LocatesAll(src, table, KeptChunks(groups)) && AllStored(lib, KeptChunks(groups))
    requires forall i :: 0 <= i < |KeptChunks(groups)| ==> 0 < |KeptChunks(groups)[i].payload| <= chunkSize
    ensures TableShows(lib, chunkSize, first, table, BatchesOf(chunkSize, groups))
  {
    BatchParts(chunkSize, groups);
    var chunks := KeptChunks(groups);
    forall k | 0 <= k < |table|
      ensures Yields(chunkSize, Mapped(PartOf(chunkSize), chunks)[k], DecodeChunk(lib, chunkSize, first, table[k]))
    {
      LocatedDecodesIff(lib, chunkSize, first, src, table[k], chunks[k]);
    }
  }

  /** Chunks that belong to some group of the set. */
  ghost predicate Usable(lib: Library, chunkSize: int, chunks: seq<StoredChunk>) {
    forall i :: 0 <= i < |chunks| ==> WellStored(lib, chunks[i]) && 0 < |chunks[i].payload| <= chunkSize
  }

  lemma UsableAppend(lib: Library, chunkSize: int, a: seq<StoredChunk>, b: seq<StoredChunk>)
    ensures Usable(lib, chunkSize, a + b) <==> Usable(lib, chunkSize, a) && Usable(lib, chunkSize, b)
  {
    if Usable(lib, chunkSize, a + b) {
      assert forall i :: 0 <= i < |a| ==> a[i] == (a + b)[i];
      assert forall i :: 0 <= i < |b| ==> b[i] == (a + b)[|a| + i];
    }
  }

  lemma {:induction false} KeptUsable(lib: Library, chunkSize: int, groups: seq<WrittenGroup>)
    requires Usable(lib, chunkSize, ChunksOf(groups))
    ensures Usable(lib, chunkSize, KeptChunks(groups))
    decreases |groups|
  {
    if groups != [] {
      UsableAppend(lib, chunkSize, groups[0].chunks, ChunksOf(groups[1..]));
      KeptUsable(lib, chunkSize, groups[1..]);
      UsableAppend(lib, chunkSize, groups[0].chunks, KeptChunks(groups[1..]));
    }
  }

  lemma {:induction false} ChunksAppend(a: seq<WrittenGroup>, b: seq<WrittenGroup>)
    ensures ChunksOf(a + b) == ChunksOf(a) + ChunksOf(b)
    decreases |a|
  {
    if a == [] {
      assert a + b == b;
    } else {
      assert (a + b)[1..] == a[1..] + b;
      ChunksAppend(a[1..], b);
    }
  }

  lemma {:induction false} SegmentUsable(lib: Library, chunkSize: int, specs: seq<SegmentSpec>, i: nat)
    requires Usable(lib, chunkSize, AllChunks(specs)) && i < |specs|
    ensures Usable(lib, chunkSize, KeptChunks(specs[i].groups))
    decreases |specs|
  {
    GroupsOfFirst(specs);
    ChunksAppend(specs[0].groups, AllGroups(specs[1..]));
    UsableAppend(lib, chunkSize, ChunksOf(specs[0].groups), AllChunks(specs[1..]));
    if i == 0 {
      KeptUsable(lib, chunkSize, specs[0].groups);
    } else {
      SegmentUsable(lib, chunkSize, specs[1..], i - 1);
    }
  }

  lemma SettledParts(a: seq<WrittenGroup>, b: seq<WrittenGroup>)
    requires Settled(a + b)
    ensures Settled(a) && Settled(b)
  {
    assert forall i :: 0 <= i < |a| ==> a[i] == (a + b)[i];
    assert forall i :: 0 <= i < |b| ==> b[i] == (a + b)[|a| + i];
  }

  lemma {:induction false} SegmentSettled(specs: seq<SegmentSpec>, i: nat)
    requires Settled(AllGroups(specs)) && i < |specs|
    ensures Settled(specs[i].groups)
    decreases |specs|
  {
    GroupsOfFirst(specs);
    SettledParts(specs[0].groups, AllGroups(specs[1..]));
    if i > 0 {
      SegmentSettled(specs[1..], i - 1);
    }
  }

  lemma HeldIsUsable(lib: Library, specs: seq<SegmentSpec>, g: Geometry)
    requires HoldsDevice(lib, specs, g)
    ensures Usable(lib, g.chunkSize, AllChunks(specs))
  {
    var chunks := AllChunks(specs);
    var payloads := Mapped(STORED_PAYLOAD, chunks);
    forall i | 0 <= i < |chunks|
      ensures WellStored(lib, chunks[i]) && 0 < |chunks[i].payload| <= g.chunkSize
    {
      assert payloads[i] == chunks[i].payload;
    }
  }

  lemma {:induction false} SegmentShows(
    lib: Library, sources: seq<Source>, specs: seq<SegmentSpec>, segs: seq<Segment>, g: Geometry, first: Source, i: nat)
    requires AllReadBack(lib, sources, specs, segs) && HoldsDevice(lib, specs, g) && i < |specs|
    requires Settled(AllGroups(specs))
    ensures TableShows(lib, g.chunkSize, first, segs[i].chunkTable, BatchesOf(g.chunkSize, specs[i].groups))
  {
    assert ReadBackAt(lib, sources, specs, segs[i], i);
    SegmentSettled(specs, i);
    HeldIsUsable(lib, specs, g);
    SegmentUsable(lib, g.chunkSize, specs, i);
    LocatedShows(lib, g.chunkSize, first, sources[i], segs[i].chunkTable, specs[i].groups);
  }

  lemma {:induction false} GroupsNotEmpty(lib: Library, groups: seq<WrittenGroup>, at: nat)
    requires GroupsFit(lib, groups, at)
    ensures forall i :: 0 <= i < |groups| ==> groups[i].chunks != []
    decreases |groups|
  {
    if groups != [] {
      GroupsNotEmpty(lib, groups[1..], GroupEnd(groups[0], at));
      assert groups == [groups[0]] + groups[1..];
    }
  }

  lemma {:induction false} FlattenedNotEmpty(specs: seq<SegmentSpec>)
    requires forall i :: 0 <= i < |specs| ==> forall k :: 0 <= k < |specs[i].groups| ==> specs[i].groups[k].chunks != []
    ensures forall k :: 0 <= k < |AllGroups(specs)| ==> AllGroups(specs)[k].chunks != []
    decreases |specs|
  {
    if specs != [] {
      GroupsOfFirst(specs);
      FlattenedNotEmpty(specs[1..]);
      var own, later := specs[0].groups, AllGroups(specs[1..]);
      assert forall k :: 0 <= k < |own + later| ==> (own + later)[k] == if k < |own| then own[k] else later[k - |own|];
    }
  }

  lemma WrittenNotEmpty(lib: Library, specs: seq<SegmentSpec>, sources: seq<Source>, chunkSize: int)
    requires WrittenSet(lib, specs, sources)
    ensures NoneEmpty(BatchesOf(chunkSize, AllGroups(specs)))
  {
    forall i | 0 <= i < |specs|
      ensures forall k :: 0 <= k < |specs[i].groups| ==> specs[i].groups[k].chunks != []
    {
      assert WrittenAt(lib, specs, sources, i);
      GroupsNotEmpty(lib, specs[i].groups, GroupsStart(specs[i]));
    }
    FlattenedNotEmpty(specs);
    var groups, batches := AllGroups(specs), BatchesOf(chunkSize, AllGroups(specs));
    assert forall i :: 0 <= i < |batches| ==> |batches[i].parts| == |groups[i].chunks|;
  }

  /** The merged table of the set shows its groups, so the device it opens with is what is left of the one it holds. */
  lemma {:induction false} SetShows(
    lib: Library, sources: seq<Source>, specs: seq<SegmentSpec>, segs: seq<Segment>, g: Geometry, first: Source)
    requires WrittenSet(lib, specs, sources) && AllReadBack(lib, sources, specs, segs) && HoldsDevice(lib, specs, g)
    requires Settled(AllGroups(specs))
    ensures Shows(DeviceOf(lib, g.chunkSize, g.logicalSize, first, Tables(segs)),
                  BatchesOf(g.chunkSize, AllGroups(specs)))
  {
    var batches := seq(|specs|, i requires 0 <= i < |specs| => BatchesOf(g.chunkSize, specs[i].groups));
    forall i | 0 <= i < |segs|
      ensures TableShows(lib, g.chunkSize, first, segs[i].chunkTable, batches[i])
    {
      SegmentShows(lib, sources, specs, segs, g, first, i);
    }
    TablesShow(lib, g.chunkSize, first, segs, batches);
    FlattenedBatches(g.chunkSize, specs, batches);
    WrittenNotEmpty(lib, specs, sources, g.chunkSize);
    BatchPayloads(g.chunkSize, AllGroups(specs));
    TableShowsDevice(lib, g, first, Tables(segs), BatchesOf(g.chunkSize, AllGroups(specs)));
  }

  /** What is read of d is the device the set holds, if and only if the reader's limits and the damage allow it. */
  ghost predicate ReadsAsWrittenIff(d: Device, specs: seq<SegmentSpec>, g: Geometry) {
    var groups := AllGroups(specs);
    && 0 <= d.size
    && (ReadsAs(d, WrittenDevice(specs)) <==> WithinLimits(g.chunkSize, groups) && AllKeepACopy(groups))
    && (Read(d, 0, d.size).error == None <==> WithinLimits(g.chunkSize, groups) && AllKeepACopy(groups))
  }

  lemma {:induction false} ShownReads(d: Device, specs: seq<SegmentSpec>, g: Geometry)
    requires Shows(d, BatchesOf(g.chunkSize, AllGroups(specs)))
    ensures ReadsAsWrittenIff(d, specs, g)
  {
    ShowsAllIff(d, BatchesOf(g.chunkSize, AllGroups(specs)));
    LimitsInBatches(g.chunkSize, AllGroups(specs));
    BatchPayloads(g.chunkSize, AllGroups(specs));
  }

  /**
   * What opening a written set comes to. Only the strict policy refuses, and exactly if some group has no intact copy
   * that can be read; the damage is counted. If no unverified table is used, the device is what is left of the one that
   * was written, and is that one if and only if every group keeps a copy and the set is within the reader's limits.
   */
  ghost predicate OpensAsWritten(
    lib: Library, specs: seq<SegmentSpec>, g: Geometry, opts: Options, r: Result<Opened, OpenError>)
  {
    var groups := AllGroups(specs);
    && (r.Ok? <==> opts.policy == Strict ==> AllKept(groups))
    && (r.Err? ==> r.error == ChecksumMismatch)
    && (r.Ok? ==>
          && r.value.geometry == g
          && Counts(r.value.merged, if opts.policy == Ignore then Stats(0, 0, 0) else StatsOfAll(groups)))
    && (r.Ok? && Settled(groups) ==>
          && Shows(DeviceIn(lib, r.value), BatchesOf(g.chunkSize, groups))
          && ReadsAsWrittenIff(DeviceIn(lib, r.value), specs, g))
  }

  lemma {:induction false} SetOpens(
    lib: Library, sources: seq<Source>, specs: seq<SegmentSpec>, segs: seq<Segment>, g: Geometry, opts: Options)
    requires WrittenSet(lib, specs, sources) && AllReadBack(lib, sources, specs, segs) && HoldsDevice(lib, specs, g)
    ensures OpensAsWritten(lib, specs, g, opts, OpenSorted(segs, opts))
  {
    ReadBackIsOpenSet(lib, sources, specs, segs);
    ReadBackGeometry(lib, sources, specs, segs, g);
    ReadBackCounts(lib, sources, specs, segs);
    InvalidIffNotKept(AllGroups(specs), Mapped(STATS, AllGroups(specs)));
    OpenSetOpens(segs, g, opts);
    if OpenSorted(segs, opts).Ok? && Settled(AllGroups(specs)) {
      var o := OpenSorted(segs, opts).value;
      SetShows(lib, sources, specs, segs, g, o.first.source);
      ShownReads(DeviceIn(lib, o), specs, g);
    }
  }

  /**
   * The round trip: a device written as any set of segments whose chains fit the cap, in which any tables may since
   * have been damaged detectably, supplied in any order, opens as written, whichever way the unstable sort falls.
   */
  lemma ImageRoundTrip(
    lib: Library, ext: Extractors, specs: seq<SegmentSpec>, sources: seq<Source>, supplied: seq<Source>,
    g: Geometry, opts: Options) returns (parsed: seq<Segment>, written: seq<Segment>)
    requires WrittenSet(lib, specs, sources) && AllFitCap(lib, specs) && HoldsDevice(lib, specs, g)
    requires multiset(supplied) == multiset(sources)
    ensures Parses(Parser(lib, ext), supplied, parsed) && Parses(Parser(lib, ext), sources, written)
    ensures OnlySort(parsed, written)
    ensures AllReadBack(lib, sources, specs, written)
    ensures OpensAsWritten(lib, specs, g, opts, OpenSorted(written, opts))
  {
    written := SetParses(lib, ext, specs, sources);
    parsed := SupplyParses(Parser(lib, ext), sources, written, supplied);
    SetOpens(lib, sources, specs, written, g, opts);
    ReadBackIsOpenSet(lib, sources, specs, written);
    CompleteIsValid(written, opts);
    OneSort(Parser(lib, ext), sources, written, supplied, parsed);
  }

  /** Without damage the default policy opens every such set, and reads back exactly those within the limits. */
  lemma UndamagedRoundTripIff(
    lib: Library, ext: Extractors, specs: seq<SegmentSpec>, sources: seq<Source>, supplied: seq<Source>,
    g: Geometry, opts: Options) returns (parsed: seq<Segment>, written: seq<Segment>)
    requires WrittenSet(lib, specs, sources) && AllFitCap(lib, specs) && HoldsDevice(lib, specs, g)
    requires multiset(supplied) == multiset(sources) && opts.policy != Strict
    requires forall i :: 0 <= i < |AllGroups(specs)| ==>
               AllGroups(specs)[i].damagedTable == AllGroups(specs)[i].damagedTable2 == None
    ensures Parses(Parser(lib, ext), supplied, parsed) && OnlySort(parsed, written)
    ensures var r := OpenSorted(written, opts);
            && r.Ok?
            && (ReadsAs(DeviceIn(lib, r.value), WrittenDevice(specs)) <==> WithinLimits(g.chunkSize, AllGroups(specs)))
  {
    parsed, written := ImageRoundTrip(lib, ext, specs, sources, supplied, g, opts);
    assert Settled(AllGroups(specs));
  }

  lemma {:induction false} KeptAreSeen(chunkSize: int, groups: seq<WrittenGroup>)
    requires AllKept(groups)
    ensures AllSeen(BatchesOf(chunkSize, groups)) && KeptChunks(groups) == ChunksOf(groups)
    decreases |groups|
  {
    if groups != [] {
      assert forall i :: 0 <= i < |groups[1..]| ==> groups[1..][i] == groups[i + 1];
      KeptAreSeen(chunkSize, groups[1..]);
    }
  }

  /**
   * Where a group is lost, and the policy lets the set open nevertheless, everything behind it moves up: reads there
   * return, without any error, what was written further on by the size of that group.
   */
  lemma {:induction false} LostGroupShifts(
    d: Device, specs: seq<SegmentSpec>, before: seq<WrittenGroup>, lost: WrittenGroup, after: seq<WrittenGroup>,
    g: Geometry, off: nat, len: nat)
    requires AllGroups(specs) == before + [lost] + after && Shows(d, BatchesOf(g.chunkSize, AllGroups(specs)))
    requires AllKept(before) && AllKept(after) && !Kept(lost) && WithinLimits(g.chunkSize, before + after)
    requires |Flatten(Mapped(STORED_PAYLOAD, ChunksOf(before)))| <= off
    requires off + |Flatten(Mapped(STORED_PAYLOAD, lost.chunks))| + len <= d.size
    ensures var gap := |Flatten(Mapped(STORED_PAYLOAD, lost.chunks))|;
            && off + gap + len <= |WrittenDevice(specs)|
            && Read(d, off, len) == ReadResult(WrittenDevice(specs)[off + gap..off + gap + len], None)
  {
    var cs := g.chunkSize;
    LostInBatches(cs, before, lost, after);
    BatchPayloads(cs, AllGroups(specs));
    LostBatchShifts(d, BatchesOf(cs, before), BatchOf(cs)(lost), BatchesOf(cs, after), off, len);
  }

  /** A lost group in the midst of kept ones, as batches. */
  lemma {:induction false} LostInBatches(
    chunkSize: int, before: seq<WrittenGroup>, lost: WrittenGroup, after: seq<WrittenGroup>)
    requires AllKept(before) && AllKept(after) && !Kept(lost) && WithinLimits(chunkSize, before + after)
    ensures var front, gone := BatchesOf(chunkSize, before), BatchOf(chunkSize)(lost);
            var back := BatchesOf(chunkSize, after);
            && BatchesOf(chunkSize, before + [lost] + after) == front + [gone] + back
            && AllSeen(front) && AllSeen(back) && !gone.seen && AllReadable(SeenParts(front + [gone] + back))
            && Size(AllParts(front)) == |Flatten(Mapped(STORED_PAYLOAD, ChunksOf(before)))|
            && Size(gone.parts) == |Flatten(Mapped(STORED_PAYLOAD, lost.chunks))|
  {
    var front, gone, back := BatchesOf(chunkSize, before), BatchOf(chunkSize)(lost), BatchesOf(chunkSize, after);
    assert BatchesOf(chunkSize, before + [lost] + after) == front + [gone] + back;
    KeptAreSeen(chunkSize, before);
    KeptAreSeen(chunkSize, after);
    BatchPayloads(chunkSize, before);
    assert Payloads(gone.parts) == Mapped(STORED_PAYLOAD, lost.chunks);
    SeenWithinLimits(chunkSize, before, lost, after);
  }

  lemma {:induction false} SeenWithinLimits(
    chunkSize: int, before: seq<WrittenGroup>, lost: WrittenGroup, after: seq<WrittenGroup>)
    requires AllKept(before) && AllKept(after) && !Kept(lost) && WithinLimits(chunkSize, before + after)
    ensures AllReadable(SeenParts(BatchesOf(chunkSize, before + [lost] + after)))
  {
    var front, gone, back := BatchesOf(chunkSize, before), BatchOf(chunkSize)(lost), BatchesOf(chunkSize, after);
    assert BatchesOf(chunkSize, before + [lost] + after) == front + [gone] + back;
    PartsAppend(front + [gone], back);
    PartsAppend(front, [gone]);
    OneBatch(gone);
    assert SeenParts(front + [gone] + back) == SeenParts(front) + SeenParts(back);
    LimitsOfParts(chunkSize, before);
    LimitsOfParts(chunkSize, after);
    assert forall i :: 0 <= i < |before| ==> before[i] == (before + after)[i];
    assert forall i :: 0 <= i < |after| ==> after[i] == (before + after)[|before| + i];
    ReadableAppend(SeenParts(front), SeenParts(back));
  }

  lemma {:induction false} LimitsOfParts(chunkSize: int, groups: seq<WrittenGroup>)
    requires AllKept(groups)
    ensures WithinLimits(chunkSize, groups) ==> AllReadable(SeenParts(BatchesOf(chunkSize, groups)))
  {
    BatchParts(chunkSize, groups);
    ChunksFetchable(chunkSize, groups);
    KeptAreSeen(chunkSize, groups);
  }

  // ----- in front of the damage

  ghost predicate StartYields(
    lib: Library, chunkSize: int, first: Source, table: seq<ChunkDescriptor>, chunks: seq<StoredChunk>)
  {
    && |chunks| <= |table|
    && forall k :: 0 <= k < |chunks| ==>
         Yields(chunkSize, PartOf(chunkSize)(chunks[k]), DecodeChunk(lib, chunkSize, first, table[k]))
  }

  lemma {:induction false} StartLocatedYields(
    lib: Library, chunkSize: int, first: Source, src: Source, table: seq<ChunkDescriptor>, chunks: seq<StoredChunk>,
    more: seq<ChunkDescriptor>)
    requires StartLocates(src, table, chunks) && Usable(lib, chunkSize, chunks)
    ensures StartYields(lib, chunkSize, first, table + more, chunks)
  {
    forall k | 0 <= k < |chunks|
      ensures Yields(chunkSize, PartOf(chunkSize)(chunks[k]), DecodeChunk(lib, chunkSize, first, (table + more)[k]))
    {
      assert Locates(src, table[..|chunks|][k], chunks[k]);
      LocatedDecodesIff(lib, chunkSize, first, src, table[k], chunks[k]);
    }
  }

  lemma {:induction false} YieldsJoined(
    lib: Library, chunkSize: int, first: Source, ta: seq<ChunkDescriptor>, a: seq<StoredChunk>,
    tb: seq<ChunkDescriptor>, b: seq<StoredChunk>)
    requires StartYields(lib, chunkSize, first, ta, a) && |ta| == |a| && StartYields(lib, chunkSize, first, tb, b)
    ensures StartYields(lib, chunkSize, first, ta + tb, a + b)
  {
    forall k | 0 <= k < |a + b|
      ensures Yields(chunkSize, PartOf(chunkSize)((a + b)[k]), DecodeChunk(lib, chunkSize, first, (ta + tb)[k]))
    {
      if k >= |a| {
        assert (a + b)[k] == b[k - |a|] && (ta + tb)[k] == tb[k - |a|];
      }
    }
  }

  /** Some of the groups in front, and what is behind them. */
  lemma {:induction false} FrontOfChunks(groups: seq<WrittenGroup>, n: nat)
    requires n <= |groups|
    ensures ChunksOf(groups) == ChunksOf(groups[..n]) + ChunksOf(groups[n..])
  {
    assert groups == groups[..n] + groups[n..];
    ChunksAppend(groups[..n], groups[n..]);
  }

  lemma {:induction false} OwnFrontYields(
    lib: Library, chunkSize: int, first: Source, src: Source, groups: seq<WrittenGroup>, table: seq<ChunkDescriptor>,
    n: nat, more: seq<ChunkDescriptor>)
    requires n <= |groups| && AllKept(groups[..n]) && FrontLocated(src, groups, table)
    requires Usable(lib, chunkSize, ChunksOf(groups))
    ensures StartYields(lib, chunkSize, first, table + more, ChunksOf(groups[..n]))
  {
    FrontOfChunks(groups, n);
    UsableAppend(lib, chunkSize, ChunksOf(groups[..n]), ChunksOf(groups[n..]));
    StartLocatedYields(lib, chunkSize, first, src, table, ChunksOf(groups[..n]), more);
  }

  lemma {:induction false} WholeYields(
    lib: Library, chunkSize: int, first: Source, src: Source, groups: seq<WrittenGroup>, built: Built)
    requires AllKept(groups) && AllBuiltAs(lib, src, groups, built) && Usable(lib, chunkSize, ChunksOf(groups))
    ensures StartYields(lib, chunkSize, first, built.table, ChunksOf(groups)) && |built.table| == |ChunksOf(groups)|
  {
    KeptAreSeen(chunkSize, groups);
    assert Settled(groups);
    assert built.table[..|ChunksOf(groups)|] == built.table && built.table + [] == built.table;
    StartLocatedYields(lib, chunkSize, first, src, built.table, ChunksOf(groups), []);
  }

  /** The segments as they were built, one by one. */
  ghost predicate EachBuilt(lib: Library, sources: seq<Source>, specs: seq<SegmentSpec>, segs: seq<Segment>) {
    && |segs| == |specs| == |sources|
    && forall i :: 0 <= i < |specs| ==>
         AllBuiltAs(lib, sources[i], specs[i].groups, Built(segs[i].chunkTable, segs[i].stats))
  }

  lemma {:induction false} FrontYields(
    lib: Library, sources: seq<Source>, specs: seq<SegmentSpec>, segs: seq<Segment>, chunkSize: int, first: Source,
    n: nat)
    requires EachBuilt(lib, sources, specs, segs) && Usable(lib, chunkSize, AllChunks(specs))
    requires n <= |AllGroups(specs)| && AllKept(AllGroups(specs)[..n])
    ensures StartYields(lib, chunkSize, first, Tables(segs), ChunksOf(AllGroups(specs)[..n]))
    decreases |specs|
  {
    if specs != [] {
      var own, later := specs[0].groups, AllGroups(specs[1..]);
      var built, front := Built(segs[0].chunkTable, segs[0].stats), AllGroups(specs)[..n];
      GroupsOfFirst(specs);
      ChunksAppend(own, later);
      UsableAppend(lib, chunkSize, ChunksOf(own), ChunksOf(later));
      if n <= |own| {
        assert front == own[..n];
        OwnFrontYields(lib, chunkSize, first, sources[0], own, built.table, n, Tables(segs[1..]));
      } else {
        var rest := later[..n - |own|];
        assert front == own + rest;
        KeptParts(own, rest);
        EachBuiltTail(lib, sources, specs, segs);
        FrontYields(lib, sources[1..], specs[1..], segs[1..], chunkSize, first, n - |own|);
        WholeYields(lib, chunkSize, first, sources[0], own, built);
        ChunksAppend(own, rest);
        YieldsJoined(lib, chunkSize, first, built.table, ChunksOf(own), Tables(segs[1..]), ChunksOf(rest));
      }
    }
  }

  lemma KeptParts(a: seq<WrittenGroup>, b: seq<WrittenGroup>)
    requires AllKept(a + b)
    ensures AllKept(a) && AllKept(b)
  {
    assert forall i :: 0 <= i < |a| ==> a[i] == (a + b)[i];
    assert forall i :: 0 <= i < |b| ==> b[i] == (a + b)[|a| + i];
  }

  lemma {:induction false} EachBuiltTail(
    lib: Library, sources: seq<Source>, specs: seq<SegmentSpec>, segs: seq<Segment>)
    requires EachBuilt(lib, sources, specs, segs) && specs != []
    ensures EachBuilt(lib, sources[1..], specs[1..], segs[1..])
  {
  }

  lemma {:induction false} FrontCarries(d: Device, front: seq<StoredChunk>, back: seq<StoredChunk>)
    requires CutTo(Mapped(STORED_PAYLOAD, front + back), d.chunkSize, d.size) && |front| <= |d.chunks|
    requires forall k :: 0 <= k < |front| ==> Decodes(d.chunkSize, front[k].payload, d.chunks[k])
    ensures StartsAs(d, Flatten(Mapped(STORED_PAYLOAD, front)))
  {
    var parts, rest := Mapped(STORED_PAYLOAD, front), Mapped(STORED_PAYLOAD, back);
    var all := Mapped(STORED_PAYLOAD, front + back);
    MappedAppend(STORED_PAYLOAD, front, back);
    FlattenAppend(parts, rest);
    assert forall i :: 0 <= i < |parts| ==> parts[i] == all[i];
    CarriesReads(d, parts);
  }

  /**
   * Damage has no effect in front of it: whatever has become of the other tables, readable or not, the default policy
   * opens the set, and the groups up to the first that is not kept, if within the limits, read back exactly.
   */
  lemma {:induction false} FrontReadsBack(
    lib: Library, sources: seq<Source>, specs: seq<SegmentSpec>, segs: seq<Segment>, g: Geometry, opts: Options,
    n: nat)
    requires WrittenSet(lib, specs, sources) && AllReadBack(lib, sources, specs, segs) && HoldsDevice(lib, specs, g)
    requires opts.policy != Strict && n <= |AllGroups(specs)|
    requires AllKept(AllGroups(specs)[..n]) && WithinLimits(g.chunkSize, AllGroups(specs)[..n])
    ensures OpenSorted(segs, opts).Ok?
    ensures StartsAs(DeviceIn(lib, OpenSorted(segs, opts).value),
                     Flatten(Mapped(STORED_PAYLOAD, ChunksOf(AllGroups(specs)[..n]))))
  {
    ReadBackIsOpenSet(lib, sources, specs, segs);
    ReadBackGeometry(lib, sources, specs, segs, g);
    OpenSetOpens(segs, g, opts);
    HeldIsUsable(lib, specs, g);
    forall i | 0 <= i < |specs|
      ensures AllBuiltAs(lib, sources[i], specs[i].groups, Built(segs[i].chunkTable, segs[i].stats))
    {
      assert ReadBackAt(lib, sources, specs, segs[i], i);
    }
    var groups := AllGroups(specs);
    FrontYields(lib, sources, specs, segs, g.chunkSize, segs[0].source, n);
    FrontOfChunks(groups, n);
    ChunksFetchable(g.chunkSize, groups[..n]);
    FrontDecodes(lib, g, segs[0].source, Tables(segs), ChunksOf(groups[..n]));
    FrontCarries(DeviceOf(lib, g.chunkSize, g.logicalSize, segs[0].source, Tables(segs)), ChunksOf(groups[..n]),
                 ChunksOf(groups[n..]));
  }

  lemma FrontDecodes(lib: Library, g: Geometry, first: Source, table: seq<ChunkDescriptor>, front: seq<StoredChunk>)
    requires StartYields(lib, g.chunkSize, first, table, front)
    requires AllReadable(Mapped(PartOf(g.chunkSize), front))
    ensures forall k :: 0 <= k < |front| ==>
              Decodes(g.chunkSize, front[k].payload, DecodeChunk(lib, g.chunkSize, first, table[k]))
  {
    forall k | 0 <= k < |front|
      ensures Decodes(g.chunkSize, front[k].payload, DecodeChunk(lib, g.chunkSize, first, table[k]))
    {
      assert Mapped(PartOf(g.chunkSize), front)[k].fate.Decodable?;
    }
  }

  // ----- with the reader class

  /**
   * Opening the supplied sources: a reader over the device they hold, or a refusal, exactly if a chain exceeds the cap
   * or the strict policy finds a group that is not kept.
   */
  method OpenImage(
    lib: Library, ext: Extractors, supplied: seq<Source>, opts: Options,
    ghost specs: seq<SegmentSpec>, ghost sources: seq<Source>, ghost g: Geometry)
    returns (r: Result<ImageReader, SetError>, ghost written: seq<Segment>)
    requires WrittenSet(lib, specs, sources) && HoldsDevice(lib, specs, g)
    requires multiset(supplied) == multiset(sources)
    ensures r.Ok? <==> AllFitCap(lib, specs) && (opts.policy == Strict ==> AllKept(AllGroups(specs)))
    ensures r.Ok? ==>
              && r.value.Valid() && fresh(r.value) && fresh(r.value.Repr()) && r.value.lib == lib
              && r.value.Dev().chunkSize == g.chunkSize && r.value.Dev().size == g.logicalSize
              && Parses(Parser(lib, ext), sources, written)
              && r.value.digests == MergeFirst(written, |written|).meta.digests
    ensures r.Ok? && Settled(AllGroups(specs)) ==>
              && Shows(r.value.Dev(), BatchesOf(g.chunkSize, AllGroups(specs)))
              && ReadsAsWrittenIff(r.value.Dev(), specs, g)
  {
    assert |supplied| == |multiset(supplied)| == |sources|;
    ghost var fits := AllFitCap(lib, specs);
    ghost var parsed: seq<Segment> := [];
    written := [];
    if fits {
      parsed, written := ImageRoundTrip(lib, ext, specs, sources, supplied, g, opts);
    } else {
      LongSetRefused(lib, ext, specs, sources, supplied);
    }
    r := OpenOrdered(lib, ext, supplied, opts, fits, parsed, written);
  }

  /** What the read of the whole device brings. */
  lemma WholeReadIff(d: Device, specs: seq<SegmentSpec>, g: Geometry, bs: seq<byte>, err: Option<ReadError>)
    requires ReadsAsWrittenIff(d, specs, g) && ReadResult(bs, err) == Read(d, 0, d.size)
    ensures err == None <==> WithinLimits(g.chunkSize, AllGroups(specs)) && AllKeepACopy(AllGroups(specs))
    ensures err == None ==> bs == WrittenDevice(specs)
  {
    var device := WrittenDevice(specs);
    if err == None {
      assert Read(d, 0, 0 + d.size) == ReadResult(device[0..0 + d.size], None);
      assert device[0..d.size] == device;
    }
  }

  /** Reading the whole of an opened image; if shown, no unverified table of it is used. */
  method ReadWhole(
    reader: ImageReader, p: array<byte>, ghost shown: bool, ghost specs: seq<SegmentSpec>, ghost g: Geometry)
    returns (err: Option<ReadError>)
    requires reader.Valid() && p.Length == reader.Dev().size && (shown ==> ReadsAsWrittenIff(reader.Dev(), specs, g))
    modifies p, reader.Repr()
    ensures shown ==>
              && (err == None <==> WithinLimits(g.chunkSize, AllGroups(specs)) && AllKeepACopy(AllGroups(specs)))
              && (err == None ==> p[..] == WrittenDevice(specs))
  {
    ghost var d := reader.Dev();
    var n;
    n, err := reader.ReadAt(p, 0);
    if shown {
      WholeReadIff(d, specs, g, p[..n], err);
    }
    assert n == p.Length ==> p[..n] == p[..];
  }

  /**
   * Reading the whole span of a written image: it meets no error if and only if the reader's limits and the damage
   * allow it, and then the buffer holds the device, byte for byte.
   */
  method ReadImage(
    lib: Library, ext: Extractors, supplied: seq<Source>, opts: Options, p: array<byte>,
    ghost specs: seq<SegmentSpec>, ghost sources: seq<Source>, ghost g: Geometry)
    returns (opens: bool, err: Option<ReadError>)
    requires WrittenSet(lib, specs, sources) && HoldsDevice(lib, specs, g)
    requires multiset(supplied) == multiset(sources) && p.Length == g.logicalSize
    modifies p
    ensures opens <==> AllFitCap(lib, specs) && (opts.policy == Strict ==> AllKept(AllGroups(specs)))
    ensures opens && Settled(AllGroups(specs)) ==>
              && (err == None <==> WithinLimits(g.chunkSize, AllGroups(specs)) && AllKeepACopy(AllGroups(specs)))
              && (err == None ==> p[..] == WrittenDevice(specs))
  {
    var reader, written := OpenImage(lib, ext, supplied, opts, specs, sources, g);
    if reader.Err? {
      return false, None;
    }
    opens := true;
    err := ReadWhole(reader.value, p, Settled(AllGroups(specs)), specs, g);
  }
}
