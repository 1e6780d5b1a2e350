/** Sources supplied in any order: what opening them amounts to when their segments can be sorted in one way only. */
module SuppliedSets {
  import opened Batches
  import opened Bytes
  import opened Chunks
  import opened CutDevices
  import opened Devices
  import opened ImageReaders
  import opened Openings
  import opened Segments
  import opened Sorting

  lemma MappedWithout<A, B>(f: A -> B, s: seq<A>, at: nat)
    requires at < |s|
    ensures multiset(Mapped(f, s)) == multiset{f(s[at])} + multiset(Mapped(f, Without(s, at)))
  {
    var fs := Mapped(f, s);
    RemovedAt(fs, at);
    assert Without(fs, at) == Mapped(f, Without(s, at));
  }

  lemma {:induction false} MappedReorders<A, B>(f: A -> B, a: seq<A>, b: seq<A>)
    requires multiset(a) == multiset(b)
    ensures multiset(Mapped(f, a)) == multiset(Mapped(f, b))
    decreases |a|
  {
    assert |b| == |multiset(b)| == |multiset(a)| == |a|;
    if a != [] {
      assert a[0] in multiset(b);
      var j :| 0 <= j < |b| && b[j] == a[0];
      var restA, restB := Without(a, 0), Without(b, j);
      assert multiset(restA) == multiset(restB) by {
        RemovedAt(a, 0);
        RemovedAt(b, j);
        assert multiset(restA) == multiset(a) - multiset{a[0]} && multiset(restB) == multiset(b) - multiset{a[0]};
      }
      MappedReorders(f, restA, restB);
      MappedWithout(f, a, 0);
      MappedWithout(f, b, j);
    }
  }

  function ValueOr<T, E>(r: Result<T, E>, default: T): T {
    if r.Ok? then r.value else default
  }

  ghost predicate OnlySort(parsed: seq<Segment>, ordered: seq<Segment>) {
    forall sorted :: SortOf(BY_NUMBER, parsed, sorted) <==> sorted == ordered
  }

  /** In whatever order the sources are supplied, segments with distinct numbers have one sort. */
  lemma OneSort(
    parse: Source -> Result<Segment, SegmentError>, sources: seq<Source>, segs: seq<Segment>, supplied: seq<Source>,
    parsed: seq<Segment>)
    requires Parses(parse, sources, segs) && segs != [] && StrictlySorted(BY_NUMBER, segs)
    requires multiset(supplied) == multiset(sources) && Parses(parse, supplied, parsed)
    ensures OnlySort(parsed, segs)
  {
    var some := segs[0];
    var f := (s: Source) => ValueOr(parse(s), some);
    assert Mapped(f, sources) == segs && Mapped(f, supplied) == parsed;
    MappedReorders(f, supplied, sources);
    forall sorted | SortOf(BY_NUMBER, parsed, sorted)
      ensures sorted == segs
    {
      SortIsUnique(BY_NUMBER, segs, sorted);
    }
  }

  lemma SupplyParses(
    parse: Source -> Result<Segment, SegmentError>, sources: seq<Source>, segs: seq<Segment>, supplied: seq<Source>)
    returns (parsed: seq<Segment>)
    requires Parses(parse, sources, segs) && multiset(supplied) == multiset(sources)
    ensures Parses(parse, supplied, parsed)
  {
    SameElements(supplied, sources);
    forall i | 0 <= i < |supplied|
      ensures parse(supplied[i]).Ok?
    {
      assert supplied[i] in sources;
    }
    parsed := seq(|supplied|, i requires 0 <= i < |supplied| => parse(supplied[i]).value);
  }

  /** Two lists of segments parsed from the same sources are the same. */
  lemma ParsedOnce(
    parse: Source -> Result<Segment, SegmentError>, sources: seq<Source>, a: seq<Segment>, b: seq<Segment>)
    requires Parses(parse, sources, a) && Parses(parse, sources, b)
    ensures a == b
  {
  }

  lemma {:induction false} OpenedGeometry(segs: seq<Segment>, opts: Options)
    requires OpenSorted(segs, opts).Ok?
    ensures var o := OpenSorted(segs, opts).value;
            && ComputeGeometry(o.merged.meta.media) == Ok(o.geometry)
            && o.merged.meta.digests == MergeFirst(segs, |segs|).meta.digests
  {
  }

  /** The device of an opened set. */
  function DeviceIn(lib: Library, o: Opened): Device {
    DeviceOf(lib, o.geometry.chunkSize, o.geometry.logicalSize, o.first.source, o.chunkTable)
  }

  /** Opening sources of which one does not parse fails, of whichever supplied source that is. */
  lemma UnparsedSupply(
    parse: Source -> Result<Segment, SegmentError>, sources: seq<Source>, supplied: seq<Source>, i: nat)
    requires i < |sources| && parse(sources[i]).Err? && multiset(supplied) == multiset(sources)
    ensures forall parsed :: !Parses(parse, supplied, parsed)
  {
    SameElements(supplied, sources);
    assert sources[i] in supplied;
    var k :| 0 <= k < |supplied| && supplied[k] == sources[i];
    assert parse(supplied[k]).Err?;
  }

  /**
   * Opening supplied sources that parse to segments with one sort, if they parse at all: a reader over the device that
   * this sort opens with, or a refusal if it opens with none.
   */
  method OpenOrdered(
    lib: Library, ext: Extractors, supplied: seq<Source>, opts: Options,
    ghost parses: bool, ghost parsed: seq<Segment>, ghost ordered: seq<Segment>)
    returns (r: Result<ImageReader, SetError>)
    requires supplied != []
    requires if parses then Parses(Parser(lib, ext), supplied, parsed) && OnlySort(parsed, ordered)
             else forall segs :: !Parses(Parser(lib, ext), supplied, segs)
    ensures r.Ok? <==> parses && OpenSorted(ordered, opts).Ok?
    ensures r.Ok? ==>
              && r.value.Valid() && fresh(r.value) && fresh(r.value.Repr())
              && r.value.Dev() == DeviceIn(lib, OpenSorted(ordered, opts).value) && r.value.lib == lib
              && r.value.digests == MergeFirst(ordered, |ordered|).meta.digests
  {
    var outcome, segs := OpenSources(lib, ext, supplied, opts);
    OutcomeOfOneSort(lib, ext, supplied, opts, parses, parsed, ordered, outcome, segs);
    if outcome.Err? {
      return Err(outcome.error);
    }
    OpenedGeometry(ordered, opts);
    var reader := MakeReader(lib, outcome.value);
    r := Ok(reader);
  }

  /** What opening returns is what the one sort opens with. */
  lemma OutcomeOfOneSort(
    lib: Library, ext: Extractors, supplied: seq<Source>, opts: Options, parses: bool, parsed: seq<Segment>,
    ordered: seq<Segment>, outcome: Result<Opened, SetError>, segs: seq<Segment>)
    requires if parses then Parses(Parser(lib, ext), supplied, parsed) && OnlySort(parsed, ordered)
             else forall segs :: !Parses(Parser(lib, ext), supplied, segs)
    requires outcome.Ok? ==> Parses(Parser(lib, ext), supplied, segs) && ForEverySort(segs, opts, Ok(outcome.value))
    requires outcome.Err? && outcome.error.SetRefused? ==>
               Parses(Parser(lib, ext), supplied, segs) && ForEverySort(segs, opts, Err(outcome.error.refusal))
    requires outcome.Err? && outcome.error.SegmentFailed? ==>
               outcome.error.index < |supplied| && ParseSegment(lib, ext, supplied[outcome.error.index]).Err?
    ensures outcome.Ok? <==> parses && OpenSorted(ordered, opts).Ok?
    ensures outcome.Ok? ==> OpenSorted(ordered, opts) == Ok(outcome.value)
  {
    var parse := Parser(lib, ext);
    if outcome.Err? && outcome.error.SegmentFailed? {
      assert parse(supplied[outcome.error.index]).Err?;
    } else if parses {
      ParsedOnce(parse, supplied, parsed, segs);
      assert SortOf(BY_NUMBER, parsed, ordered);
    }
  }

  // ----- the tables of a set

  /** The descriptors decode to the parts of the batches that are seen. */
  ghost predicate TableShows(
    lib: Library, chunkSize: int, first: Source, table: seq<ChunkDescriptor>, batches: seq<Batch>) {
    && |table| == |SeenParts(batches)|
    && forall k :: 0 <= k < |table| ==>
         Yields(chunkSize, SeenParts(batches)[k], DecodeChunk(lib, chunkSize, first, table[k]))
  }

  lemma ShowsAppend(lib: Library, chunkSize: int, first: Source, ta: seq<ChunkDescriptor>, a: seq<Batch>,
                    tb: seq<ChunkDescriptor>, b: seq<Batch>)
    requires TableShows(lib, chunkSize, first, ta, a) && TableShows(lib, chunkSize, first, tb, b)
    ensures TableShows(lib, chunkSize, first, ta + tb, a + b)
  {
    PartsAppend(a, b);
    var table, parts := ta + tb, SeenParts(a) + SeenParts(b);
    forall k | 0 <= k < |table|
      ensures Yields(chunkSize, parts[k], DecodeChunk(lib, chunkSize, first, table[k]))
    {
      if k < |ta| {
        assert table[k] == ta[k] && parts[k] == SeenParts(a)[k];
      } else {
        assert table[k] == tb[k - |ta|] && parts[k] == SeenParts(b)[k - |ta|];
      }
    }
  }

  /** The merged table of a set shows the batches of its segments, in order. */
  lemma {:induction false} TablesShow(
    lib: Library, chunkSize: int, first: Source, segs: seq<Segment>, batches: seq<seq<Batch>>)
    requires |batches| == |segs|
    requires forall i :: 0 <= i < |segs| ==> TableShows(lib, chunkSize, first, segs[i].chunkTable, batches[i])
    ensures TableShows(lib, chunkSize, first, Tables(segs), Flatten(batches))
    decreases |segs|
  {
    if segs != [] {
      TablesShow(lib, chunkSize, first, segs[1..], batches[1..]);
      ShowsAppend(lib, chunkSize, first, segs[0].chunkTable, batches[0], Tables(segs[1..]), Flatten(batches[1..]));
    }
  }

  lemma {:induction false} TableShowsDevice(
    lib: Library, g: Geometry, first: Source, table: seq<ChunkDescriptor>, batches: seq<Batch>)
    requires TableShows(lib, g.chunkSize, first, table, batches)
    requires NoneEmpty(batches) && CutTo(Payloads(AllParts(batches)), g.chunkSize, g.logicalSize)
    ensures Shows(DeviceOf(lib, g.chunkSize, g.logicalSize, first, table), batches)
  {
  }
}
