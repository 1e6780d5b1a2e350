/** End to end: a device written as a set of EWF v2 segments, supplied in any order, read back. */
module RoundTripV2 {
  import opened Batches
  import opened Bytes
  import opened Chunks
  import opened ChunkTables
  import opened CutDevices
  import opened Devices
  import opened ImageReaders
  import opened Openings
  import opened Sections
  import opened SectionsV2
  import opened SegmentRoundTripV2
  import opened Segments
  import opened SuppliedSets

  // ----- a set of segments

  /** sources are the segments, numbered from 1, the last of them ending in done. */
  ghost predicate WrittenSetV2(specs: seq<SpecV2>, sources: seq<Source>) {
    && |sources| == |specs| && 1 <= |specs| < TWO_32
    && forall i :: 0 <= i < |specs| ==> WrittenV2At(specs, sources, i)
  }

  ghost predicate WrittenV2At(specs: seq<SpecV2>, sources: seq<Source>, i: nat)
    requires i < |specs| == |sources| < TWO_32
  {
    WrittenV2(sources[i], specs[i], i + 1, i == |specs| - 1)
  }

  /** The sections that the walk finds in a source. */
  function SectionsIn(src: Source): seq<SectionInfo> {
    var walked := WalkV2(src);
    if walked.Ok? then walked.value else []
  }

  /** The geometry in the text sections of the first n sources: the first that there is. */
  function MediaInTexts(ext: Extractors, sources: seq<Source>, n: nat): Option<Media>
    requires n <= |sources|
  {
    if n == 0 then None
    else FirstOf(MediaInTexts(ext, sources, n - 1), ext.mediaV2(sources[n - 1], SectionsIn(sources[n - 1])))
  }

  /** All chunks of the set, in order. */
  function AllPlacements(specs: seq<SpecV2>): seq<Placement> {
    if specs == [] then [] else Flatten(specs[0].tables) + AllPlacements(specs[1..])
  }

  const PLACED_PAYLOAD: Placement -> seq<byte> := (c: Placement) => c.payload

  /** The device that the chunks make up. */
  function PlacedDevice(specs: seq<SpecV2>): seq<byte> {
    Flatten(Mapped(PLACED_PAYLOAD, AllPlacements(specs)))
  }

  /** The set holds this device: every chunk lies where its entry says, stored as its flags say. */
  ghost predicate HoldsDeviceV2(
    lib: Library, ext: Extractors, specs: seq<SpecV2>, sources: seq<Source>, g: Geometry)
  {
    && |sources| == |specs| && ComputeGeometry(MediaInTexts(ext, sources, |sources|)) == Ok(g)
    && CutTo(Mapped(PLACED_PAYLOAD, AllPlacements(specs)), g.chunkSize, g.logicalSize)
    && forall i :: 0 <= i < |specs| ==>
         AllPlaced(lib, sources[i], specs[i].codec, g.chunkSize, Flatten(specs[i].tables))
  }

  // ----- the reader's limits

  /** No table of the segment lies beyond the section cap, and none has too many entries. */
  ghost predicate TablesWithinLimits(spec: SpecV2) {
    TablesBeyond(spec) == 0 && forall i :: 0 <= i < |spec.tables| ==> |spec.tables[i]| <= MAX_TABLE_ENTRIES
  }

  ghost predicate AllDecodable(lib: Library, chunkSize: int, chunks: seq<Placement>) {
    forall i :: 0 <= i < |chunks| ==> FateOf(lib, chunkSize, chunks[i]) == Decodable
  }

  ghost predicate SpecWithinLimits(lib: Library, chunkSize: int, spec: SpecV2) {
    TablesWithinLimits(spec) && AllDecodable(lib, chunkSize, Flatten(spec.tables))
  }

  ghost predicate WithinLimitsV2(lib: Library, chunkSize: int, specs: seq<SpecV2>) {
    forall i :: 0 <= i < |specs| ==> SpecWithinLimits(lib, chunkSize, specs[i])
  }

  // ----- segments as batches

  ghost function BatchesOfSpec(lib: Library, chunkSize: int): SpecV2 -> seq<Batch> {
    (spec: SpecV2) => BatchesOfTables(lib, chunkSize, spec.tables, TablesBeyond(spec))
  }

  ghost function BatchesOfSet(lib: Library, chunkSize: int, specs: seq<SpecV2>): seq<Batch> {
    Flatten(Mapped(BatchesOfSpec(lib, chunkSize), specs))
  }

  lemma BatchesOfFirst(lib: Library, chunkSize: int, specs: seq<SpecV2>)
    requires specs != []
    ensures BatchesOfSet(lib, chunkSize, specs) ==
            BatchesOfSpec(lib, chunkSize)(specs[0]) + BatchesOfSet(lib, chunkSize, specs[1..])
  {
    var f := BatchesOfSpec(lib, chunkSize);
    assert Mapped(f, specs)[1..] == Mapped(f, specs[1..]);
  }

  /** No more tables lie beyond the cap than there are. */
  ghost predicate TablesCounted(specs: seq<SpecV2>) {
    forall i :: 0 <= i < |specs| ==> TablesBeyond(specs[i]) <= |specs[i].tables|
  }

  lemma {:induction false} SetParts(lib: Library, chunkSize: int, specs: seq<SpecV2>)
    requires TablesCounted(specs)
    ensures AllParts(BatchesOfSet(lib, chunkSize, specs)) ==
            Mapped(PartOfPlacement(lib, chunkSize), AllPlacements(specs))
    decreases |specs|
  {
    if specs != [] {
      assert forall i :: 0 <= i < |specs[1..]| ==> specs[1..][i] == specs[i + 1];
      SetParts(lib, chunkSize, specs[1..]);
      BatchesOfFirst(lib, chunkSize, specs);
      TableParts(lib, chunkSize, specs[0].tables, TablesBeyond(specs[0]));
      PartsAppend(BatchesOfSpec(lib, chunkSize)(specs[0]), BatchesOfSet(lib, chunkSize, specs[1..]));
      PartsOfAppend(lib, chunkSize, Flatten(specs[0].tables), AllPlacements(specs[1..]));
    }
  }

  lemma {:induction false} SetPayloads(lib: Library, chunkSize: int, specs: seq<SpecV2>)
    requires TablesCounted(specs)
    ensures Payloads(AllParts(BatchesOfSet(lib, chunkSize, specs))) == Mapped(PLACED_PAYLOAD, AllPlacements(specs))
  {
    SetParts(lib, chunkSize, specs);
    var a := Payloads(Mapped(PartOfPlacement(lib, chunkSize), AllPlacements(specs)));
    assert a == Mapped(PLACED_PAYLOAD, AllPlacements(specs));
  }

  lemma {:induction false} BatchesOfTablesAt(
    lib: Library, chunkSize: int, tables: seq<seq<Placement>>, beyond: nat, i: nat)
    requires i < |tables|
    ensures BatchesOfTables(lib, chunkSize, tables, beyond)[i] ==
            Batch(Mapped(PartOfPlacement(lib, chunkSize), tables[i]), beyond <= i && |tables[i]| <= MAX_TABLE_ENTRIES)
    decreases i
  {
    if i > 0 {
      BatchesOfTablesAt(lib, chunkSize, tables[1..], if beyond == 0 then 0 else beyond - 1, i - 1);
    }
  }

  lemma SpecSeenIff(lib: Library, chunkSize: int, spec: SpecV2)
    requires TablesBeyond(spec) <= |spec.tables|
    ensures AllSeen(BatchesOfSpec(lib, chunkSize)(spec)) <==> TablesWithinLimits(spec)
  {
    var batches := BatchesOfSpec(lib, chunkSize)(spec);
    forall i | 0 <= i < |spec.tables|
      ensures batches[i].seen <==> TablesBeyond(spec) <= i && |spec.tables[i]| <= MAX_TABLE_ENTRIES
    {
      BatchesOfTablesAt(lib, chunkSize, spec.tables, TablesBeyond(spec), i);
    }
    assert TablesBeyond(spec) > 0 ==> !batches[0].seen;
  }

  lemma SpecReadableIff(lib: Library, chunkSize: int, spec: SpecV2)
    requires TablesBeyond(spec) <= |spec.tables|
    ensures AllReadable(AllParts(BatchesOfSpec(lib, chunkSize)(spec))) <==>
            AllDecodable(lib, chunkSize, Flatten(spec.tables))
  {
    var chunks, f := Flatten(spec.tables), PartOfPlacement(lib, chunkSize);
    TableParts(lib, chunkSize, spec.tables, TablesBeyond(spec));
    assert forall i :: 0 <= i < |chunks| ==> Mapped(f, chunks)[i].fate == FateOf(lib, chunkSize, chunks[i]);
  }

  lemma SpecLimitsIff(lib: Library, chunkSize: int, spec: SpecV2)
    requires TablesBeyond(spec) <= |spec.tables|
    ensures var batches := BatchesOfSpec(lib, chunkSize)(spec);
            AllSeen(batches) && AllReadable(AllParts(batches)) <==> SpecWithinLimits(lib, chunkSize, spec)
  {
    SpecSeenIff(lib, chunkSize, spec);
    SpecReadableIff(lib, chunkSize, spec);
  }

  lemma {:induction false} SeenAppend(a: seq<Batch>, b: seq<Batch>)
    ensures AllSeen(a + b) && AllReadable(AllParts(a + b)) <==>
            AllSeen(a) && AllReadable(AllParts(a)) && AllSeen(b) && AllReadable(AllParts(b))
  {
    PartsAppend(a, b);
    var pa, pb := AllParts(a), AllParts(b);
    if AllReadable(pa + pb) {
      assert forall i :: 0 <= i < |pa| ==> pa[i] == (pa + pb)[i];
      assert forall i :: 0 <= i < |pb| ==> pb[i] == (pa + pb)[|pa| + i];
    }
    if AllSeen(a + b) {
      assert forall i :: 0 <= i < |a| ==> a[i] == (a + b)[i];
      assert forall i :: 0 <= i < |b| ==> b[i] == (a + b)[|a| + i];
    }
  }

  lemma WithinLimitsOfFirst(lib: Library, chunkSize: int, first: SpecV2, later: seq<SpecV2>, specs: seq<SpecV2>)
    requires specs == [first] + later
    ensures WithinLimitsV2(lib, chunkSize, specs) <==>
            SpecWithinLimits(lib, chunkSize, first) && WithinLimitsV2(lib, chunkSize, later)
  {
    if WithinLimitsV2(lib, chunkSize, specs) {
      assert specs[0] == first;
      assert forall i :: 0 <= i < |later| ==> later[i] == specs[i + 1];
    }
  }

  /** All batches are seen and all parts readable exactly within the reader's limits. */
  lemma {:induction false} LimitsInBatchesV2(lib: Library, chunkSize: int, specs: seq<SpecV2>)
    requires TablesCounted(specs)
    ensures var batches := BatchesOfSet(lib, chunkSize, specs);
            AllSeen(batches) && AllReadable(AllParts(batches)) <==> WithinLimitsV2(lib, chunkSize, specs)
    decreases |specs|
  {
    if specs != [] {
      var later := specs[1..];
      assert forall i :: 0 <= i < |later| ==> later[i] == specs[i + 1];
      LimitsInBatchesV2(lib, chunkSize, later);
      BatchesOfFirst(lib, chunkSize, specs);
      SeenAppend(BatchesOfSpec(lib, chunkSize)(specs[0]), BatchesOfSet(lib, chunkSize, later));
      SpecLimitsIff(lib, chunkSize, specs[0]);
      assert specs == [specs[0]] + later;
      WithinLimitsOfFirst(lib, chunkSize, specs[0], later, specs);
    }
  }

  lemma {:induction false} SpecNotEmpty(lib: Library, chunkSize: int, spec: SpecV2)
    requires AreTables(TableBodies(spec.sections), spec.tables)
    ensures NoneEmpty(BatchesOfSpec(lib, chunkSize)(spec))
  {
    forall i | 0 <= i < |spec.tables|
      ensures BatchesOfSpec(lib, chunkSize)(spec)[i].parts != []
    {
      BatchesOfTablesAt(lib, chunkSize, spec.tables, TablesBeyond(spec), i);
      assert IsTable(TableBodies(spec.sections)[i], spec.tables[i]);
    }
  }

  lemma NotEmptyAppend(a: seq<Batch>, b: seq<Batch>)
    requires NoneEmpty(a) && NoneEmpty(b)
    ensures NoneEmpty(a + b)
  {
    assert forall i :: 0 <= i < |a + b| ==> (a + b)[i] == if i < |a| then a[i] else b[i - |a|];
  }

  lemma {:induction false} SetNotEmpty(lib: Library, chunkSize: int, specs: seq<SpecV2>)
    requires forall i :: 0 <= i < |specs| ==> AreTables(TableBodies(specs[i].sections), specs[i].tables)
    ensures NoneEmpty(BatchesOfSet(lib, chunkSize, specs))
    decreases |specs|
  {
    if specs != [] {
      var own, later := BatchesOfSpec(lib, chunkSize)(specs[0]), BatchesOfSet(lib, chunkSize, specs[1..]);
      SetNotEmpty(lib, chunkSize, specs[1..]);
      SpecNotEmpty(lib, chunkSize, specs[0]);
      BatchesOfFirst(lib, chunkSize, specs);
      NotEmptyAppend(own, later);
    }
  }

  // ----- opening the set

  ghost predicate AllReadBackV2(ext: Extractors, sources: seq<Source>, specs: seq<SpecV2>, segs: seq<Segment>) {
    && |segs| == |specs| == |sources| && 1 <= |specs| < TWO_32
    && forall i :: 0 <= i < |specs| ==> ReadBackV2At(ext, sources, specs, segs[i], i)
  }

  ghost predicate ReadBackV2At(ext: Extractors, sources: seq<Source>, specs: seq<SpecV2>, seg: Segment, i: nat)
    requires i < |specs| == |sources| < TWO_32
  {
    ReadBackV2(ext, sources[i], specs[i], i + 1, i == |specs| - 1, SectionsIn(sources[i]), seg)
  }

  lemma MemberV2Parses(
    lib: Library, ext: Extractors, parse: Source -> Result<Segment, SegmentError>, specs: seq<SpecV2>,
    sources: seq<Source>, i: nat)
    requires parse == Parser(lib, ext) && i < |specs| == |sources| < TWO_32 && WrittenV2At(specs, sources, i)
    ensures parse(sources[i]).Ok? && ReadBackV2At(ext, sources, specs, parse(sources[i]).value, i)
  {
    var seg, infos := SegmentV2Parses(lib, ext, parse, sources[i], specs[i], i + 1, i == |specs| - 1);
  }

  lemma SetV2Parses(lib: Library, ext: Extractors, specs: seq<SpecV2>, sources: seq<Source>)
    returns (segs: seq<Segment>)
    requires WrittenSetV2(specs, sources)
    ensures Parses(Parser(lib, ext), sources, segs) && AllReadBackV2(ext, sources, specs, segs)
  {
    var parse := Parser(lib, ext);
    forall i | 0 <= i < |specs|
      ensures parse(sources[i]).Ok? && ReadBackV2At(ext, sources, specs, parse(sources[i]).value, i)
    {
      MemberV2Parses(lib, ext, parse, specs, sources, i);
    }
    segs := seq(|specs|, i requires 0 <= i < |specs| => parse(sources[i]).value);
  }

  lemma {:induction false} ReadBackV2IsOpenSet(
    ext: Extractors, sources: seq<Source>, specs: seq<SpecV2>, segs: seq<Segment>)
    requires AllReadBackV2(ext, sources, specs, segs)
    ensures OpenSet(segs) && MergeFirst(segs, |segs|).invalid == 0 && TablesCounted(specs)
  {
    forall i | 0 <= i < |segs|
      ensures segs[i].fileType == EWF2 && segs[i].header.majorVersion == 2 && Number(segs[i]) == i + 1
      ensures !segs[i].meta.encrypted && (i == |segs| - 1 ==> segs[i].meta.hasDone) && segs[i].stats.invalid == 0
      ensures TablesBeyond(specs[i]) <= |specs[i].tables|
    {
      assert ReadBackV2At(ext, sources, specs, segs[i], i);
    }
    MergedInvalidZero(segs, |segs|);
  }

  lemma {:induction false} ReadBackV2Media(
    ext: Extractors, sources: seq<Source>, specs: seq<SpecV2>, segs: seq<Segment>, n: nat)
    requires AllReadBackV2(ext, sources, specs, segs) && 1 <= n <= |segs|
    ensures MergeFirst(segs, n).meta.media == MediaInTexts(ext, sources, n)
    decreases n
  {
    assert ReadBackV2At(ext, sources, specs, segs[n - 1], n - 1);
    if n > 1 {
      ReadBackV2Media(ext, sources, specs, segs, n - 1);
    } else {
      assert MediaInTexts(ext, sources, 0) == None;
    }
  }

  lemma {:induction false} SegmentV2Shows(
    lib: Library, ext: Extractors, sources: seq<Source>, specs: seq<SpecV2>, segs: seq<Segment>, g: Geometry,
    first: Source, i: nat)
    requires AllReadBackV2(ext, sources, specs, segs) && HoldsDeviceV2(lib, ext, specs, sources, g) && i < |specs|
    ensures TableShows(lib, g.chunkSize, first, segs[i].chunkTable, BatchesOfSpec(lib, g.chunkSize)(specs[i]))
  {
    assert ReadBackV2At(ext, sources, specs, segs[i], i);
    DescribedShows(lib, g.chunkSize, first, sources[i], segs[i].header, segs[i].chunkTable, specs[i].tables,
                   TablesBeyond(specs[i]));
  }

  lemma {:induction false} PlacedIsCut(
    lib: Library, ext: Extractors, specs: seq<SpecV2>, sources: seq<Source>, segs: seq<Segment>, g: Geometry)
    requires WrittenSetV2(specs, sources) && AllReadBackV2(ext, sources, specs, segs)
    requires HoldsDeviceV2(lib, ext, specs, sources, g)
    ensures NoneEmpty(BatchesOfSet(lib, g.chunkSize, specs))
    ensures CutTo(Payloads(AllParts(BatchesOfSet(lib, g.chunkSize, specs))), g.chunkSize, g.logicalSize)
  {
    forall i | 0 <= i < |specs|
      ensures AreTables(TableBodies(specs[i].sections), specs[i].tables)
    {
      assert WrittenV2At(specs, sources, i);
    }
    SetNotEmpty(lib, g.chunkSize, specs);
    ReadBackV2IsOpenSet(ext, sources, specs, segs);
    SetPayloads(lib, g.chunkSize, specs);
  }

  /** The merged table of the set shows its tables, so the device it opens with is what is left of the one it holds. */
  lemma {:induction false} SetV2Shows(
    lib: Library, ext: Extractors, sources: seq<Source>, specs: seq<SpecV2>, segs: seq<Segment>, g: Geometry,
    first: Source)
    requires WrittenSetV2(specs, sources) && AllReadBackV2(ext, sources, specs, segs)
    requires HoldsDeviceV2(lib, ext, specs, sources, g)
    ensures Shows(DeviceOf(lib, g.chunkSize, g.logicalSize, first, Tables(segs)),
                  BatchesOfSet(lib, g.chunkSize, specs))
  {
    var batches := Mapped(BatchesOfSpec(lib, g.chunkSize), specs);
    forall i | 0 <= i < |segs|
      ensures TableShows(lib, g.chunkSize, first, segs[i].chunkTable, batches[i])
    {
      SegmentV2Shows(lib, ext, sources, specs, segs, g, first, i);
    }
    TablesShow(lib, g.chunkSize, first, segs, batches);
    PlacedIsCut(lib, ext, specs, sources, segs, g);
    TableShowsDevice(lib, g, first, Tables(segs), BatchesOfSet(lib, g.chunkSize, specs));
  }

  /**
   * A v2 set opens under every policy, as nothing in it carries a checksum that the table builder looks at. It reads as
   * it was written, and without an error, if and only if it is within the reader's limits.
   */
  ghost predicate OpensAsPlaced(
    lib: Library, specs: seq<SpecV2>, g: Geometry, r: Result<Opened, OpenError>)
  {
    && r.Ok? && r.value.geometry == g && r.value.merged.invalid == 0
    && var d := DeviceIn(lib, r.value);
       && Shows(d, BatchesOfSet(lib, g.chunkSize, specs))
       && (ReadsAs(d, PlacedDevice(specs)) <==> WithinLimitsV2(lib, g.chunkSize, specs))
       && (Read(d, 0, d.size).error == None <==> WithinLimitsV2(lib, g.chunkSize, specs))
  }

  lemma {:induction false} SetV2Opens(
    lib: Library, ext: Extractors, sources: seq<Source>, specs: seq<SpecV2>, segs: seq<Segment>, g: Geometry,
    opts: Options)
    requires WrittenSetV2(specs, sources) && AllReadBackV2(ext, sources, specs, segs)
    requires HoldsDeviceV2(lib, ext, specs, sources, g)
    ensures OpensAsPlaced(lib, specs, g, OpenSorted(segs, opts))
  {
    ReadBackV2IsOpenSet(ext, sources, specs, segs);
    ReadBackV2Media(ext, sources, specs, segs, |segs|);
    OpenSetOpens(segs, g, opts);
    var o := OpenSorted(segs, opts).value;
    SetV2Shows(lib, ext, sources, specs, segs, g, o.first.source);
    ShowsAllIff(DeviceIn(lib, o), BatchesOfSet(lib, g.chunkSize, specs));
    LimitsInBatchesV2(lib, g.chunkSize, specs);
    SetPayloads(lib, g.chunkSize, specs);
  }

  /**
   * The round trip: a device written as any set of v2 segments, in chunks that are plain, checksummed, compressed or
   * pattern fills, spread over any number of tables with any other sections in between, each segment with its own
   * codec, supplied in any order, opens as placed, whichever way the unstable sort falls.
   */
  lemma SetRoundTripV2(
    lib: Library, ext: Extractors, specs: seq<SpecV2>, sources: seq<Source>, supplied: seq<Source>,
    g: Geometry, opts: Options) returns (parsed: seq<Segment>, written: seq<Segment>)
    requires WrittenSetV2(specs, sources) && HoldsDeviceV2(lib, ext, specs, sources, g)
    requires multiset(supplied) == multiset(sources)
    ensures Parses(Parser(lib, ext), supplied, parsed) && Parses(Parser(lib, ext), sources, written)
    ensures OnlySort(parsed, written)
    ensures OpensAsPlaced(lib, specs, g, OpenSorted(written, opts))
  {
    written := SetV2Parses(lib, ext, specs, sources);
    parsed := SupplyParses(Parser(lib, ext), sources, written, supplied);
    SetV2Opens(lib, ext, sources, specs, written, g, opts);
    ReadBackV2IsOpenSet(ext, sources, specs, written);
    CompleteIsValid(written, opts);
    OneSort(Parser(lib, ext), sources, written, supplied, parsed);
  }
}
