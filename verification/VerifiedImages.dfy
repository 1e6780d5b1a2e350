/** Verifying a written image: the stored digests against the device it holds. */
module VerifiedImages {
  import opened Batches
  import opened Bytes
  import opened Chunks
  import opened CutDevices
  import opened Devices
  import opened ImageReaders
  import opened Openings
  import opened RoundTrip
  import opened SegmentRoundTrip
  import opened Segments
  import opened Verification
  import opened WrittenTables

  /** At least one digest is stored, and each stored one is the device's. */
  ghost predicate DigestsMatch(stored: Digests, hashes: Hashes, device: seq<byte>) {
    && (stored.md5.Some? || stored.sha1.Some?)
    && (stored.md5.Some? ==> stored.md5.value == hashes.md5(device))
    && (stored.sha1.Some? ==> stored.sha1.value == hashes.sha1(device))
  }

  lemma {:induction false} NoneFatal(chunkSize: int, chunks: seq<StoredChunk>)
    ensures forall k :: 0 <= k < |chunks| ==> !Mapped(PartOf(chunkSize), chunks)[k].fate.Fatal?
  {
  }

  /** Without fatal parts no chunk of the device panics. */
  lemma {:induction false} NothingPanics(d: Device, parts: seq<Part>, off: nat)
    requires 0 < d.chunkSize && AllYield(d.chunkSize, parts, d.chunks)
    requires forall k :: 0 <= k < |parts| ==> !parts[k].fate.Fatal?
    ensures !PanicsAt(d, off)
  {
    var k := off / d.chunkSize;
    if k < |d.chunks| {
      assert Yields(d.chunkSize, parts[k], d.chunks[k]);
    }
  }

  /** No chunk of a written set makes a pass panic, so only a chunk size that cannot be allocated does. */
  lemma {:induction false} WrittenPassPanicsIff(d: Device, specs: seq<SegmentSpec>, g: Geometry, maxAlloc: int)
    requires d.chunkSize == g.chunkSize && Shows(d, BatchesOf(g.chunkSize, AllGroups(specs)))
    ensures PassPanics(d, maxAlloc) <==> g.chunkSize > maxAlloc
  {
    var parts := SeenParts(BatchesOf(g.chunkSize, AllGroups(specs)));
    BatchParts(g.chunkSize, AllGroups(specs));
    NoneFatal(g.chunkSize, KeptChunks(AllGroups(specs)));
    forall off | 0 <= off < d.size
      ensures !PanicsAt(d, off)
    {
      NothingPanics(d, parts, off);
    }
  }

  /** What a verdict of OK takes. */
  ghost predicate Verifies(specs: seq<SegmentSpec>, g: Geometry, stored: Digests, hashes: Hashes) {
    && WithinLimits(g.chunkSize, AllGroups(specs)) && AllKeepACopy(AllGroups(specs))
    && DigestsMatch(stored, hashes, WrittenDevice(specs))
  }

  /** The verdict on a device that shows a written set. */
  lemma {:induction false} VerdictOnWritten(
    d: Device, specs: seq<SegmentSpec>, g: Geometry, stored: Digests, hashes: Hashes, v: VerifyResult)
    requires ReadsAsWrittenIff(d, specs, g) && VerifiedOver(d, stored, hashes, v)
    ensures v.OK() <==> Verifies(specs, g, stored, hashes)
  {
    OKMeansTrueDevice(d, stored, hashes, v);
    var whole := Read(d, 0, d.size);
    WholeReadIff(d, specs, g, whole.bytes, whole.error);
  }

  datatype ImageError = NotOpened(cause: SetError) | NotVerified(reason: VerifyError)

  /** Neither cancelled nor empty nor too large to allocate: a pass over such an image comes to a result. */
  ghost predicate PassCompletes(lib: Library, g: Geometry, cancelled: nat -> bool) {
    (forall i: nat :: !cancelled(i)) && 0 < g.logicalSize && g.chunkSize <= lib.maxAlloc
  }

  /** A pass that neither panics nor is cancelled comes to a result. */
  lemma {:induction false} PassEnds(
    d: Device, lib: Library, cancelled: nat -> bool, v: Result<VerifyResult, VerifyError>, g: Geometry)
    requires d.chunkSize == g.chunkSize && d.size == g.logicalSize
    requires v == Err(NothingToVerify) ==> d.size <= 0
    requires v == Err(Cancelled) ==> exists i: nat :: cancelled(i)
    requires v == Err(Aborted) ==> 0 < d.chunkSize && PassPanics(d, lib.maxAlloc)
    requires 0 < d.chunkSize && (PassPanics(d, lib.maxAlloc) <==> g.chunkSize > lib.maxAlloc)
    ensures PassCompletes(lib, g, cancelled) ==> v.Ok?
  {
    if v.Err? {
      match v.error {
        case NothingToVerify =>
        case Cancelled =>
        case Aborted =>
      }
    }
  }

  /** Verifying an opened image; if shown, no unverified table of it is used. */
  method VerifyShown(
    r: ImageReader, hashes: Hashes, cancelled: nat -> bool, ghost shown: bool, ghost specs: seq<SegmentSpec>,
    ghost g: Geometry) returns (v: Result<VerifyResult, VerifyError>)
    requires r.Valid() && r.Dev().chunkSize == g.chunkSize && r.Dev().size == g.logicalSize
    requires shown ==>
               Shows(r.Dev(), BatchesOf(g.chunkSize, AllGroups(specs))) && ReadsAsWrittenIff(r.Dev(), specs, g)
    modifies r.Repr()
    ensures v.Ok? && shown ==> (v.value.OK() <==> Verifies(specs, g, r.digests, hashes))
    ensures shown && PassCompletes(r.lib, g, cancelled) ==> v.Ok?
  {
    ghost var d := r.Dev();
    v := Verify(r, hashes, cancelled);
    if shown {
      WrittenPassPanicsIff(d, specs, g, r.lib.maxAlloc);
      PassEnds(d, r.lib, cancelled, v, g);
      if v.Ok? {
        VerdictOnWritten(d, specs, g, r.digests, hashes, v.value);
      }
    }
  }

  /**
   * Opening and verifying a written image, supplied in any order: the verdict is OK if and only if the digests that the
   * set stores, of which there is one, are those of the device that was written, all of which the reader's limits and
   * the damage let it see.
   */
  method VerifyImage(
    lib: Library, ext: Extractors, supplied: seq<Source>, opts: Options, hashes: Hashes, cancelled: nat -> bool,
    ghost specs: seq<SegmentSpec>, ghost sources: seq<Source>, ghost g: Geometry)
    returns (res: Result<VerifyResult, ImageError>, ghost written: seq<Segment>)
    requires WrittenSet(lib, specs, sources) && HoldsDevice(lib, specs, g)
    requires multiset(supplied) == multiset(sources)
    ensures res.Err? && res.error.NotOpened? <==>
            !AllFitCap(lib, specs) || (opts.policy == Strict && !AllKept(AllGroups(specs)))
    ensures res.Ok? ==> Parses(Parser(lib, ext), sources, written)
    ensures res.Ok? && Settled(AllGroups(specs)) ==>
              (res.value.OK() <==> Verifies(specs, g, MergeFirst(written, |written|).meta.digests, hashes))
    ensures Settled(AllGroups(specs)) && PassCompletes(lib, g, cancelled) ==>
              (res.Ok? || res.error.NotOpened?)
  {
    var r;
    r, written := OpenImage(lib, ext, supplied, opts, specs, sources, g);
    if r.Err? {
      return Err(NotOpened(r.error)), written;
    }
    var v := VerifyShown(r.value, hashes, cancelled, Settled(AllGroups(specs)), specs, g);
    res := if v.Err? then Err(NotVerified(v.error)) else Ok(v.value);
  }
}
