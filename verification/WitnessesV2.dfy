/** A written EWF v2 image with a pattern chunk too large to expand. */
module WitnessesV2 {
  import opened Batches
  import opened Bytes
  import opened Chunks
  import opened CutDevices
  import opened Devices
  import opened ImageReaders
  import opened Openings
  import opened RoundTripV2
  import opened Sections
  import opened SegmentRoundTripV2
  import opened Segments
  import opened SuppliedSets
  import opened Witnesses
  import Layout = LayoutV2

  /** n bytes that repeat the first byte of the file. */
  function PatternChunk(n: nat): Placement {
    Placement(Repeated([0x45], n), [0x45], 0, 4)
  }

  function PatternTable(n: nat): seq<byte> {
    Zeros(8) + Put32(1) + Zeros(20) + PlacementBytes(PatternChunk(n))
  }

  function PatternSpec(n: nat): SpecV2 {
    SpecV2(1, CODEC_DEFLATE, Zeros(16),
           [Layout.Section(TYPE_SECTOR_TABLE, 0, PatternTable(n), 0), Layout.Section(TYPE_DONE, 0, [], 0)],
           [[PatternChunk(n)]])
  }

  ghost function PatternBytes(n: nat): seq<byte> {
    Layout.Image(HeaderV2(PatternSpec(n), 1), PatternSpec(n).sections)
  }

  lemma PatternIsTable(n: nat)
    requires 0 < n
    ensures |PatternTable(n)| == 48 && IsTable(PatternTable(n), [PatternChunk(n)])
  {
    var body, c := PatternTable(n), PatternChunk(n);
    assert body[8..12] == Put32(1) && body[32..48] == PlacementBytes(c);
    Put32RoundTrip(1);
  }

  lemma {:induction false} BodyOfTwo(write: Layout.DescriptorWriter, a: Layout.Section, b: Layout.Section)
    requires |a.payload| < 1000 && |write(a, 0)| == |write(b, 32 + |a.payload|)| == DESCRIPTOR_V2_SIZE
    ensures |Layout.Body(write, [a, b], 32, 0)| == |a.payload| + |b.payload| + 128
  {
    var here := 32 + |a.payload|;
    assert [a, b][1..] == [b] && [b][1..] == [];
    assert Layout.Body(write, [b], here + 64, here) == b.payload + (write(b, here) + []);
  }

  lemma PatternLength(n: nat)
    requires 0 < n
    ensures |PatternBytes(n)| == 208
  {
    var ss := PatternSpec(n).sections;
    PatternIsTable(n);
    BodyOfTwo(Layout.Descriptor(), ss[0], ss[1]);
  }

  lemma {:induction false} PatternTables(n: nat)
    requires 0 < n
    ensures AreTables(TableBodies(PatternSpec(n).sections), PatternSpec(n).tables)
  {
    var ss := PatternSpec(n).sections;
    PatternIsTable(n);
    assert ss[1..] == [ss[1]] && [ss[1]][1..] == [];
    assert TableBodies([ss[1]]) == [] + TableBodies([]) == [];
    assert TableBodies(ss) == [PatternTable(n)] + TableBodies(ss[1..]) == [PatternTable(n)];
  }

  lemma PatternWritten(n: nat, src: Source)
    requires 0 < n && src == PatternBytes(n)
    ensures WrittenSetV2([PatternSpec(n)], [src])
  {
    PatternTables(n);
    PatternIsTable(n);
    assert WrittenV2At([PatternSpec(n)], [src], 0);
  }

  lemma PatternPlaced(lib: Library, n: nat, src: Source, chunkSize: int)
    requires 0 < n <= chunkSize && src == PatternBytes(n)
    ensures Flatten(PatternSpec(n).tables) == [PatternChunk(n)] == AllPlacements([PatternSpec(n)])
    ensures AllPlaced(lib, src, CODEC_DEFLATE, chunkSize, [PatternChunk(n)])
  {
    var spec, c := PatternSpec(n), PatternChunk(n);
    PatternLength(n);
    assert spec.tables[1..] == [] && [spec][1..] == [];
    assert [c] + [] == [c];
    assert src[0] == HeaderV2(spec, 1)[0] == 0x45;
    assert src[0..1] == [0x45];
  }

  lemma PatternHeld(lib: Library, ext: Extractors, n: nat, src: Source, g: Geometry)
    requires 0 < n == g.logicalSize <= g.chunkSize && src == PatternBytes(n)
    requires ComputeGeometry(ext.mediaV2(src, SectionsIn(src))) == Ok(g)
    ensures HoldsDeviceV2(lib, ext, [PatternSpec(n)], [src], g)
  {
    var specs, sources := [PatternSpec(n)], [src];
    PatternPlaced(lib, n, src, g.chunkSize);
    var payloads := Mapped(PLACED_PAYLOAD, AllPlacements(specs));
    assert payloads == [PatternChunk(n).payload] && payloads[1..] == [];
    assert PatternChunk(n).payload + [] == PatternChunk(n).payload;
    assert MediaInTexts(ext, sources, 0) == None;
  }

  lemma {:induction false} PatternParts(lib: Library, n: nat, chunkSize: int)
    ensures SeenParts(BatchesOfSet(lib, chunkSize, [PatternSpec(n)])) ==
            [Part(PatternChunk(n).payload, FateOf(lib, chunkSize, PatternChunk(n)))]
  {
    var spec := PatternSpec(n);
    BatchesOfFirst(lib, chunkSize, [spec]);
    assert [spec][1..] == [];
    assert Mapped(BatchesOfSpec(lib, chunkSize), []) == [];
    assert spec.sections[..0] == [];
    TableParts(lib, chunkSize, spec.tables, 0);
    assert spec.tables[0..] == spec.tables && spec.tables[1..] == [];
    assert ReadOfAll(spec.tables) == [PatternChunk(n)] + ReadOfAll([]) == [PatternChunk(n)];
    assert BatchesOfSpec(lib, chunkSize)(spec) + [] == BatchesOfSpec(lib, chunkSize)(spec);
  }

  /**
   * Whatever geometry the text sections give, if its chunks cannot be allocated and are not refused for their size: the
   * image opens under every policy, and the first read expands its pattern chunk and panics.
   */
  lemma {:induction false} PatternPanics(
    lib: Library, ext: Extractors, n: nat, src: Source, g: Geometry, opts: Options) returns (segs: seq<Segment>)
    requires 0 < n == g.logicalSize <= g.chunkSize && src == PatternBytes(n)
    requires lib.maxAlloc < g.chunkSize < 0x4000_0000_0000_0000 - 2048
    requires ComputeGeometry(ext.mediaV2(src, SectionsIn(src))) == Ok(g)
    ensures Parses(Parser(lib, ext), [src], segs) && OpenSorted(segs, opts).Ok?
    ensures var err := Read(DeviceIn(lib, OpenSorted(segs, opts).value), 0, 1).error; err.Some? && Panics(err.value)
  {
    var parsed;
    PatternWritten(n, src);
    PatternHeld(lib, ext, n, src, g);
    parsed, segs := SetRoundTripV2(lib, ext, [PatternSpec(n)], [src], [src], g, opts);
    PatternIsFatal(lib, n, g, DeviceIn(lib, OpenSorted(segs, opts).value));
  }

  lemma {:induction false} PatternIsFatal(lib: Library, n: nat, g: Geometry, d: Device)
    requires Shows(d, BatchesOfSet(lib, g.chunkSize, [PatternSpec(n)])) && d.chunkSize == g.chunkSize && 0 < d.size
    requires lib.maxAlloc < g.chunkSize < 0x4000_0000_0000_0000 - 2048
    ensures var err := Read(d, 0, 1).error; err.Some? && Panics(err.value)
  {
    LimitWrapsIff(g.chunkSize);
    PatternParts(lib, n, g.chunkSize);
    FatalIff(d, BatchesOfSet(lib, g.chunkSize, [PatternSpec(n)]), 0);
  }

  /** There are such geometries, and opening accepts them. */
  lemma HugePatternPanics(lib: Library, ext: Extractors, n: nat, src: Source, opts: Options)
    returns (segs: seq<Segment>)
    requires lib.maxAlloc < 0x2000_0000_0000_0000 && n == 0x8000_0000 && src == PatternBytes(n)
    requires ext.mediaV2(src, SectionsIn(src)) == Some(HUGE)
    ensures Parses(Parser(lib, ext), [src], segs) && OpenSorted(segs, opts).Ok?
    ensures var err := Read(DeviceIn(lib, OpenSorted(segs, opts).value), 0, 1).error; err.Some? && Panics(err.value)
  {
    GeometryIsExact(HUGE);
    segs := PatternPanics(lib, ext, n, src, Geometry(0x2000_0000_0000_0000, n), opts);
  }

  /** Such an image exists: its bytes make a file. */
  lemma PatternImageExists(n: nat) returns (src: Source)
    requires 0 < n
    ensures src == PatternBytes(n) && WrittenSetV2([PatternSpec(n)], [src])
  {
    PatternLength(n);
    src := PatternBytes(n);
    PatternWritten(n, src);
  }
}
