/** Verify: hash the whole decoded device, zero-filling and recording what cannot be decoded. */
module Verification {
  import opened Bytes
  import opened Chunks
  import opened Devices
  import opened ImageReaders

  /** What a bad range records: a reader's error, or the fallback message for a short read without one. */
  datatype Cause = Reported(error: ReadError) | ShortRead

  datatype BadRange = BadRange(offset: int, length: int, cause: Cause)

  datatype VerifyResult = VerifyResult(
    size: int,
    bytesHashed: int,
    stored: Digests,
    computedMD5: seq<byte>,
    computedSHA1: seq<byte>,
    md5Match: bool,
    sha1Match: bool,
    badRanges: seq<BadRange>)
  {
    /** OK: no span failed, some digest is stored, and every stored digest was reproduced. */
    predicate OK() {
      if |badRanges| > 0 then false
      else if stored.md5.None? && stored.sha1.None? then false
      else if stored.md5.Some? && !md5Match then false
      else if stored.sha1.Some? && !sha1Match then false
      else true
    }
  }

  /** Why there is no result. Aborted stands for a run-time panic, of the pass itself or of a read. */
  datatype VerifyError = NothingToVerify | Cancelled | Aborted

  /** The digest algorithms, applied to everything written so far; nothing is assumed about them. */
  datatype Hashes = Hashes(md5: seq<byte> -> seq<byte>, sha1: seq<byte> -> seq<byte>)

  /** The writer both hashes read from. */
  class Sink {
    var written: seq<byte>

    constructor ()
      ensures written == []
    {
      written := [];
    }

    method Write(bs: seq<byte>)
      modifies this
      ensures written == old(written) + bs
    {
      written := written + bs;
    }
  }

  const ZEROS_BLOCK: int := 32 * 1024
  const DEFAULT_STEP: int := 0x10_0000

  /** writeZeros: n zero bytes, a block at a time. */
  method WriteZeros(w: Sink, n: int)
    requires 0 <= n
    modifies w
    ensures w.written == old(w.written) + Zeros(n)
  {
    var left := n;
    while left > 0
      invariant 0 <= left <= n
      invariant w.written == old(w.written) + Zeros(n - left)
    {
      var step := ZEROS_BLOCK;
      if left < step {
        step := left;
      }
      w.Write(Zeros(step));
      assert Zeros(n - left) + Zeros(step) == Zeros(n - left + step);
      left := left - step;
    }
  }

  // ----- what the pass must account for

  function ByteOrZero(d: Device, off: int): byte {
    if Readable(d, off) then ByteAt(d, off) else 0
  }

  /** The first n device bytes, with zeros where the device cannot be read. */
  function ZeroFilled(d: Device, n: nat): (s: seq<byte>)
    ensures |s| == n
  {
    seq(n, i requires 0 <= i < n => ByteOrZero(d, i))
  }

  predicate Covers(r: BadRange, off: int) {
    r.offset <= off < r.offset + r.length
  }

  /** r is a non-empty span below upto that a read at its start reports as r does. */
  ghost predicate GoodReport(d: Device, r: BadRange, upto: int) {
    && 0 <= r.offset && 0 < r.length && r.offset + r.length <= upto
    && r.cause.Reported? && Read(d, r.offset, r.length) == ReadResult([], Some(r.cause.error))
  }

  /** The ranges are ascending and disjoint, and their union is exactly the unreadable offsets below upto. */
  ghost predicate Accounts(d: Device, ranges: seq<BadRange>, upto: int) {
    && (forall i :: 0 <= i < |ranges| ==> GoodReport(d, ranges[i], upto))
    && (forall i, j :: 0 <= i < j < |ranges| ==> ranges[i].offset + ranges[i].length <= ranges[j].offset)
    && (forall off :: 0 <= off < upto ==> (!Readable(d, off) <==> exists r :: r in ranges && Covers(r, off)))
  }

  // ----- one step of the pass

  /** A step that starts on a chunk boundary and stays in the chunk: after a short read the rest is unreadable. */
  lemma RestOfChunkUnreadable(d: Device, off: int, want: nat, n: nat, x: int)
    requires 0 < d.chunkSize && 0 <= off && off % d.chunkSize == 0 && want <= d.chunkSize
    requires n < want && off + want <= d.size && !Readable(d, off + n) && off + n <= x < off + want
    ensures !Readable(d, x)
  {
    SameChunk(off, d.chunkSize, n);
    SameChunk(off, d.chunkSize, x - off);
  }

  /** The error of a short read is the error of reading at the place where it stopped. */
  lemma ErrorWhereItStopped(d: Device, off: int, want: nat)
    requires 0 <= off < d.size && 0 < d.chunkSize
    requires |Read(d, off, want).bytes| < want
    ensures var n := |Read(d, off, want).bytes|;
            Read(d, off, want).error.Some? &&
            Read(d, off + n, want - n) == ReadResult([], Read(d, off, want).error)
  {
    var bs := Read(d, off, want).bytes;
    PrefixIsLongestRun(d, off, want, bs);
    assert !Readable(d, off + |bs|);
    assert Prefix(d, off + |bs|, want - |bs|) == [];
  }

  lemma AccountsReadable(d: Device, ranges: seq<BadRange>, off: int, want: nat)
    requires Accounts(d, ranges, off)
    requires |Read(d, off, want).bytes| == want
    ensures Accounts(d, ranges, off + want)
  {
    var bs := Read(d, off, want).bytes;
    PrefixIsLongestRun(d, off, want, bs);
    forall x | 0 <= x < off + want
      ensures !Readable(d, x) <==> exists r :: r in ranges && Covers(r, x)
    {
      if off <= x {
        var b := bs[x - off];
        assert Holds(d, off + (x - off), b);
        assert forall r :: r in ranges ==> GoodReport(d, r, off);
      }
    }
  }

  /** Below off + want, the new range covers exactly the unreadable offsets of the step. */
  lemma ShortStepSplits(d: Device, off: int, want: nat, x: int)
    requires 0 <= off && off + want <= d.size
    requires 0 < d.chunkSize && off % d.chunkSize == 0 && want <= d.chunkSize
    requires |Read(d, off, want).bytes| < want && off <= x < off + want
    ensures !Readable(d, x) <==> off + |Read(d, off, want).bytes| <= x
  {
    var bs := Read(d, off, want).bytes;
    PrefixIsLongestRun(d, off, want, bs);
    if x < off + |bs| {
      var b := bs[x - off];
      assert Holds(d, off + (x - off), b);
    } else {
      RestOfChunkUnreadable(d, off, want, |bs|, x);
    }
  }

  lemma AccountsShort(d: Device, ranges: seq<BadRange>, off: int, want: nat, e: ReadError)
    requires Accounts(d, ranges, off) && 0 <= off && off + want <= d.size
    requires 0 < d.chunkSize && off % d.chunkSize == 0 && want <= d.chunkSize
    requires |Read(d, off, want).bytes| < want && Read(d, off, want).error == Some(e)
    ensures var n := |Read(d, off, want).bytes|;
            Accounts(d, ranges + [BadRange(off + n, want - n, Reported(e))], off + want)
  {
    var n := |Read(d, off, want).bytes|;
    var bad := BadRange(off + n, want - n, Reported(e));
    var longer := ranges + [bad];
    ErrorWhereItStopped(d, off, want);
    assert GoodReport(d, bad, off + want);
    assert forall r :: r in ranges ==> GoodReport(d, r, off);
    forall x | 0 <= x < off + want
      ensures !Readable(d, x) <==> exists r :: r in longer && Covers(r, x)
    {
      assert bad in longer && forall r :: r in longer <==> r in ranges || r == bad;
      if off <= x {
        ShortStepSplits(d, off, want, x);
        assert Covers(bad, x) <==> off + n <= x;
      }
    }
  }

  lemma ZeroFilledStep(d: Device, off: nat, want: nat)
    requires 0 < d.chunkSize && off % d.chunkSize == 0 && want <= d.chunkSize && off + want <= d.size
    ensures var bs := Read(d, off, want).bytes;
            ZeroFilled(d, off) + bs + Zeros(want - |bs|) == ZeroFilled(d, off + want)
  {
    var bs := Read(d, off, want).bytes;
    PrefixIsLongestRun(d, off, want, bs);
    var parts, whole := ZeroFilled(d, off) + bs + Zeros(want - |bs|), ZeroFilled(d, off + want);
    forall i | 0 <= i < off + want
      ensures parts[i] == whole[i]
    {
      if off <= i < off + |bs| {
        var b := bs[i - off];
        assert Holds(d, off + (i - off), b);
      } else if off + |bs| <= i {
        RestOfChunkUnreadable(d, off, want, |bs|, i);
      }
    }
  }

  // ----- the pass

  /** One read of the pass, into a buffer of the wanted size. */
  method ReadSpan(r: ImageReader, off: i64, want: nat) returns (bs: seq<byte>, err: Option<ReadError>)
    requires r.Valid()
    modifies r.Repr()
    ensures r.Valid() && fresh(r.Repr() - old(r.Repr()))
    ensures ReadResult(bs, err) == Read(r.Dev(), off, want)
  {
    var buf := new byte[want];
    var n;
    n, err := r.ReadAt(buf, off);
    bs := buf[..n];
  }

  /** What a complete read adds to the account. */
  lemma FullStep(d: Device, ranges: seq<BadRange>, off: nat, want: nat, bs: seq<byte>)
    requires 0 < d.chunkSize && off % d.chunkSize == 0 && want <= d.chunkSize && off + want <= d.size
    requires bs == Read(d, off, want).bytes && |bs| == want && Accounts(d, ranges, off)
    ensures ZeroFilled(d, off) + bs == ZeroFilled(d, off + want) && Accounts(d, ranges, off + want)
  {
    ZeroFilledStep(d, off, want);
    assert bs + Zeros(0) == bs;
    AccountsReadable(d, ranges, off, want);
  }

  /** What a short read adds to the account, with its gap zero-filled and reported. */
  lemma ShortStep(d: Device, ranges: seq<BadRange>, off: nat, want: nat, bs: seq<byte>, err: Option<ReadError>)
    requires 0 < d.chunkSize && off % d.chunkSize == 0 && want <= d.chunkSize && off + want <= d.size
    requires ReadResult(bs, err) == Read(d, off, want) && |bs| < want && Accounts(d, ranges, off)
    ensures err.Some? && ZeroFilled(d, off) + bs + Zeros(want - |bs|) == ZeroFilled(d, off + want)
    ensures Accounts(d, ranges + [BadRange(off + |bs|, want - |bs|, Reported(err.value))], off + want)
  {
    ZeroFilledStep(d, off, want);
    ErrorWhereItStopped(d, off, want);
    AccountsShort(d, ranges, off, want, err.value);
  }

  /** Behind the bytes of a short read, hash zeros for the rest, which becomes a bad range. */
  method RecordGap(ghost d: Device, sink: Sink, off: i64, want: nat, bs: seq<byte>, err: Option<ReadError>,
                   badRanges: seq<BadRange>) returns (ranges: seq<BadRange>)
    requires 0 <= off && 0 < want <= d.chunkSize && off + want <= d.size && off % d.chunkSize == 0
    requires ReadResult(bs, err) == Read(d, off, want) && |bs| < want
    requires Accounts(d, badRanges, off) && sink.written == ZeroFilled(d, off) + bs
    modifies sink
    ensures sink.written == ZeroFilled(d, off + want) && Accounts(d, ranges, off + want)
  {
    ShortStep(d, badRanges, off, want, bs, err);
    var gap := want - |bs|;
    var cause := if err.Some? then Reported(err.value) else ShortRead;
    ranges := badRanges + [BadRange(off + |bs|, gap, cause)];
    WriteZeros(sink, gap);
  }

  /** Hash what a read returned, and what stands in for the rest. */
  method Record(ghost d: Device, sink: Sink, off: i64, want: nat, bs: seq<byte>, err: Option<ReadError>,
                badRanges: seq<BadRange>)
    returns (hashed: int, ranges: seq<BadRange>)
    requires 0 <= off && 0 < want <= d.chunkSize && off + want <= d.size && off % d.chunkSize == 0
    requires ReadResult(bs, err) == Read(d, off, want)
    requires Accounts(d, badRanges, off) && sink.written == ZeroFilled(d, off)
    modifies sink
    ensures hashed == want && sink.written == ZeroFilled(d, off + want)
    ensures Accounts(d, ranges, off + want)
  {
    sink.Write(bs);
    hashed := |bs|;
    ranges := badRanges;
    if |bs| < want {
      ranges := RecordGap(d, sink, off, want, bs, err, badRanges);
      hashed := hashed + (want - |bs|);
    } else {
      FullStep(d, badRanges, off, want, bs);
    }
  }

  // ----- panics

  /** Decoding the chunk at off panics. */
  predicate PanicsAt(d: Device, off: int)
    requires 0 <= off && 0 < d.chunkSize
  {
    off / d.chunkSize < |d.chunks| && Panicked(d.chunks[off / d.chunkSize])
  }

  predicate ReadPanicked(err: Option<ReadError>) {
    err.Some? && Panics(err.value)
  }

  /** A step panics exactly if its chunk does, and its chunk is that of all its offsets. */
  lemma StepPanicsIff(d: Device, off: nat, want: nat)
    requires 0 < d.chunkSize && off % d.chunkSize == 0 && 0 < want <= d.chunkSize && off + want <= d.size
    ensures ReadPanicked(Read(d, off, want).error) <==> PanicsAt(d, off)
    ensures forall o :: off <= o < off + want ==> (PanicsAt(d, o) <==> PanicsAt(d, off))
  {
    forall o | off <= o < off + want
      ensures o / d.chunkSize == off / d.chunkSize
    {
      SameChunk(off, d.chunkSize, o - off);
    }
    var n := |Read(d, off, want).bytes|;
    PrefixIsLongestRun(d, off, want, Read(d, off, want).bytes);
    assert n < want ==> (off + n) / d.chunkSize == off / d.chunkSize;
    assert n > 0 ==> Holds(d, off + 0, Read(d, off, want).bytes[0]);
  }

  lemma NextMultiple(off: int, step: int)
    requires 0 < step && off % step == 0
    ensures (off + step) % step == 0
  {
    DivModUnique(off + step, step, off / step + 1, 0);
  }

  /** The size of one step: the chunk size the geometry gives, or a default without geometry. */
  method StepSize(r: ImageReader) returns (step: int)
    requires r.Valid()
    ensures r.logicalSize > 0 ==> step == r.chunkSize > 0
  {
    step := DEFAULT_STEP;
    if r.media.Some? {
      GeometryIsExact(r.media.value);
      var cs := WrapI64(r.media.value.sectorsPerChunk * r.media.value.bytesPerSector);
      if cs > 0 {
        step := cs;
      }
    }
  }

  /** The first off bytes are hashed and accounted for, and none of their chunks panicked. */
  ghost predicate Swept(d: Device, off: int, written: seq<byte>, ranges: seq<BadRange>)
    requires 0 <= off && 0 < d.chunkSize
  {
    && written == ZeroFilled(d, off) && Accounts(d, ranges, off)
    && forall o :: 0 <= o < off ==> !PanicsAt(d, o)
  }

  /** One round of the pass: read up to one chunk, hash it, account for it; unless the read panics. */
  method Round(r: ImageReader, sink: Sink, off: i64, step: int, badRanges: seq<BadRange>)
    returns (want: int, hashed: int, ranges: seq<BadRange>, aborted: bool)
    requires r.Valid() && sink !in r.Repr()
    requires 0 <= off < r.logicalSize && step == r.chunkSize > 0 && off % step == 0
    requires Swept(r.Dev(), off, sink.written, badRanges)
    modifies r.Repr(), sink
    ensures r.Valid() && fresh(r.Repr() - old(r.Repr())) && sink !in r.Repr()
    ensures 0 < want && off + want <= r.logicalSize && (off + want < r.logicalSize ==> (off + want) % step == 0)
    ensures off + want < r.logicalSize ==> want == step
    ensures off + want == r.logicalSize ==> off + step >= r.logicalSize
    ensures aborted <==> PanicsAt(r.Dev(), off)
    ensures !aborted ==> hashed == want && Swept(r.Dev(), off + want, sink.written, ranges)
  {
    want := step;
    if r.logicalSize - off < want {
      want := r.logicalSize - off;
    }
    NextMultiple(off, step);
    StepPanicsIff(r.Dev(), off, want);
    var bs, err := ReadSpan(r, off, want);
    if ReadPanicked(err) {
      return want, 0, badRanges, true;
    }
    hashed, ranges := Record(r.Dev(), sink, off, want, bs, err, badRanges);
    aborted := false;
  }

  // ----- how a pass ends

  /** How many rounds a whole pass takes. */
  function Rounds(d: Device): nat
    requires 0 < d.chunkSize
  {
    if d.size <= 0 then 0 else (d.size - 1) / d.chunkSize + 1
  }

  lemma ProductsOrdered(a: nat, b: nat, m: nat)
    requires a <= b
    ensures a * m <= b * m
  {
  }

  /** Round k starts on the device. */
  lemma RoundStarts(d: Device, k: nat)
    requires 0 < d.chunkSize
    ensures k < Rounds(d) <==> k * d.chunkSize < d.size
  {
    if 0 < d.size {
      var m, last := d.chunkSize, d.size - 1;
      var q := last / m;
      assert last == q * m + last % m;
      if k <= q {
        ProductsOrdered(k, q, m);
      } else {
        ProductsOrdered(q + 1, k, m);
        assert (q + 1) * m == q * m + m;
      }
    } else {
      ProductsOrdered(0, k, d.chunkSize);
    }
  }

  /** Before none of the first n rounds is the pass cancelled, and none of them panics. */
  ghost predicate Passes(d: Device, cancelled: nat -> bool, n: nat)
    requires 0 < d.chunkSize
  {
    forall i: nat :: i < n ==> !cancelled(i) && !PanicsAt(d, i * d.chunkSize)
  }

  /** The pass gets as far as round k, and is cancelled before it. */
  ghost predicate CancelledBefore(d: Device, cancelled: nat -> bool, k: nat) {
    0 < d.chunkSize && k < Rounds(d) && Passes(d, cancelled, k) && cancelled(k)
  }

  /** The pass gets as far as round k, and that panics. */
  ghost predicate PanicsIn(d: Device, cancelled: nat -> bool, k: nat) {
    0 < d.chunkSize && k < Rounds(d) && Passes(d, cancelled, k) && !cancelled(k) && PanicsAt(d, k * d.chunkSize)
  }

  /** Where the loop over the device ended. */
  ghost predicate Stopped(d: Device, cancelled: nat -> bool, stopped: Option<VerifyError>) {
    match stopped
    case None => 0 < d.chunkSize && Passes(d, cancelled, Rounds(d))
    case Some(Cancelled) => exists k: nat :: CancelledBefore(d, cancelled, k)
    case Some(Aborted) => exists k: nat :: PanicsIn(d, cancelled, k)
    case Some(NothingToVerify) => false
  }

  /** A pass has one end. */
  lemma OneEnd(d: Device, cancelled: nat -> bool, a: Option<VerifyError>, b: Option<VerifyError>)
    requires Stopped(d, cancelled, a) && Stopped(d, cancelled, b)
    ensures a == b
  {
    var i := EndRound(d, cancelled, a);
    var j := EndRound(d, cancelled, b);
    if i != j {
      assert false;
    }
  }

  lemma EndRound(d: Device, cancelled: nat -> bool, stopped: Option<VerifyError>) returns (k: nat)
    requires Stopped(d, cancelled, stopped)
    ensures 0 < d.chunkSize && k <= Rounds(d) && Passes(d, cancelled, k)
    ensures match stopped
            case None => k == Rounds(d)
            case Some(Cancelled) => CancelledBefore(d, cancelled, k)
            case Some(Aborted) => PanicsIn(d, cancelled, k)
            case Some(NothingToVerify) => false
  {
    match stopped
    case None => k := Rounds(d);
    case Some(Cancelled) => k :| CancelledBefore(d, cancelled, k);
    case Some(Aborted) => k :| PanicsIn(d, cancelled, k);
  }

  /** One more round: it is round number round, it starts at off, and unless it is stopped it passes. */
  lemma RoundPasses(d: Device, cancelled: nat -> bool, off: nat, round: nat)
    requires 0 < d.chunkSize && off == round * d.chunkSize < d.size && Passes(d, cancelled, round)
    ensures round < Rounds(d)
    ensures cancelled(round) ==> CancelledBefore(d, cancelled, round)
    ensures !cancelled(round) && PanicsAt(d, off) ==> PanicsIn(d, cancelled, round)
    ensures !cancelled(round) && !PanicsAt(d, off) ==> Passes(d, cancelled, round + 1)
    ensures off + d.chunkSize == (round + 1) * d.chunkSize
    ensures off + d.chunkSize >= d.size ==> round + 1 == Rounds(d)
  {
    RoundStarts(d, round);
    RoundStarts(d, round + 1);
  }

  /** The loop over the device. cancelled(i) is what the context says before read i. */
  method Sweep(r: ImageReader, sink: Sink, step: int, cancelled: nat -> bool)
    returns (bytesHashed: int, badRanges: seq<BadRange>, stopped: Option<VerifyError>)
    requires r.Valid() && sink !in r.Repr() && sink.written == []
    requires 0 < r.logicalSize && step == r.chunkSize > 0
    modifies r.Repr(), sink
    ensures r.Valid() && fresh(r.Repr() - old(r.Repr())) && sink !in r.Repr()
    ensures Stopped(r.Dev(), cancelled, stopped)
    ensures stopped == None ==>
              bytesHashed == r.logicalSize && Swept(r.Dev(), r.logicalSize, sink.written, badRanges)
    ensures stopped == Some(Aborted) ==> exists off :: 0 <= off < r.logicalSize && PanicsAt(r.Dev(), off)
  {
    var off := 0;
    bytesHashed, badRanges := 0, [];
    var round: nat := 0;
    while off < r.logicalSize
      invariant r.Valid() && fresh(r.Repr() - old(r.Repr())) && sink !in r.Repr()
      invariant 0 <= off <= r.logicalSize && (off < r.logicalSize ==> off % step == 0)
      invariant if off < r.logicalSize then off == round * r.Dev().chunkSize else round == Rounds(r.Dev())
      invariant Passes(r.Dev(), cancelled, round)
      invariant bytesHashed == off && Swept(r.Dev(), off, sink.written, badRanges)
    {
      RoundPasses(r.Dev(), cancelled, off, round);
      if cancelled(round) {
        return bytesHashed, badRanges, Some(Cancelled);
      }
      var want, hashed, aborted;
      want, hashed, badRanges, aborted := Round(r, sink, off, step, badRanges);
      if aborted {
        return bytesHashed, badRanges, Some(Aborted);
      }
      bytesHashed := bytesHashed + hashed;
      off := off + want;
      round := round + 1;
    }
    stopped := None;
  }

  /** The pass panics: on its buffer of one chunk, or on some chunk of the device. */
  ghost predicate PassPanics(d: Device, maxAlloc: int)
    requires 0 < d.chunkSize
  {
    d.chunkSize > maxAlloc || exists off :: 0 <= off < d.size && PanicsAt(d, off)
  }

  /**
   * Verify: on success the digests were taken over exactly Size bytes, the device's own where it is readable and
   * zero elsewhere, and the bad ranges are exactly the unreadable offsets. It is cancelled exactly if the context is
   * before a round that it gets to, aborted exactly if its buffer, or a round that it gets to, panics, and else
   * succeeds.
   */
  method Verify(r: ImageReader, hashes: Hashes, cancelled: nat -> bool) returns (res: Result<VerifyResult, VerifyError>)
    requires r.Valid()
    modifies r.Repr()
    ensures r.Valid() && fresh(r.Repr() - old(r.Repr()))
    ensures res == Err(NothingToVerify) <==> r.Dev().size <= 0
    ensures res == Err(Cancelled) <==>
            && 0 < r.Dev().size && r.Dev().chunkSize <= r.lib.maxAlloc
            && exists k: nat :: CancelledBefore(r.Dev(), cancelled, k)
    ensures res == Err(Aborted) <==>
            && 0 < r.Dev().size
            && (r.Dev().chunkSize > r.lib.maxAlloc || exists k: nat :: PanicsIn(r.Dev(), cancelled, k))
    ensures res == Err(Aborted) ==> 0 < r.Dev().chunkSize && PassPanics(r.Dev(), r.lib.maxAlloc)
    ensures res.Ok? ==>
              && 0 < r.Dev().chunkSize && !PassPanics(r.Dev(), r.lib.maxAlloc)
              && VerifiedOver(r.Dev(), r.digests, hashes, res.value)
  {
    if r.logicalSize <= 0 {
      return Err(NothingToVerify);
    }
    var sink := new Sink();
    var step := StepSize(r);
    if step > r.lib.maxAlloc {
      return Err(Aborted);
    }
    var bytesHashed, badRanges, stopped := Sweep(r, sink, step, cancelled);
    EndsOnlySo(r.Dev(), cancelled, stopped);
    if stopped.Some? {
      return Err(stopped.value);
    }
    var md5, sha1 := hashes.md5(sink.written), hashes.sha1(sink.written);
    res := Ok(VerifyResult(r.logicalSize, bytesHashed, r.digests, md5, sha1,
                           r.digests.md5 == Some(md5), r.digests.sha1 == Some(sha1), badRanges));
  }

  lemma EndsOnlySo(d: Device, cancelled: nat -> bool, stopped: Option<VerifyError>)
    requires Stopped(d, cancelled, stopped)
    ensures stopped == Some(Cancelled) <==> exists k: nat :: CancelledBefore(d, cancelled, k)
    ensures stopped == Some(Aborted) <==> exists k: nat :: PanicsIn(d, cancelled, k)
  {
    if exists k: nat :: CancelledBefore(d, cancelled, k) {
      OneEnd(d, cancelled, stopped, Some(Cancelled));
    }
    if exists k: nat :: PanicsIn(d, cancelled, k) {
      OneEnd(d, cancelled, stopped, Some(Aborted));
    }
  }

  lemma NoPanicAt(lib: Library, chunkSize: i64, logicalSize: i64, first: Source, table: seq<ChunkDescriptor>, off: nat)
    requires 3 <= chunkSize <= lib.maxAlloc
    ensures !PanicsAt(DeviceOf(lib, chunkSize, logicalSize, first, table), off)
  {
    var k := off / chunkSize;
    if k < |table| {
      PanicsIff(lib, chunkSize, first, table[k]);
    }
  }

  /** With chunks of at least three bytes that can be allocated, no pass over any image panics. */
  lemma NoPassPanics(lib: Library, chunkSize: i64, logicalSize: i64, first: Source, table: seq<ChunkDescriptor>)
    requires 3 <= chunkSize <= lib.maxAlloc
    ensures !PassPanics(DeviceOf(lib, chunkSize, logicalSize, first, table), lib.maxAlloc)
  {
    var d := DeviceOf(lib, chunkSize, logicalSize, first, table);
    forall off | 0 <= off < d.size
      ensures !PanicsAt(d, off)
    {
      NoPanicAt(lib, chunkSize, logicalSize, first, table, off);
    }
  }

  /** v is a complete account of device d: every byte hashed once, and every unreadable byte reported. */
  ghost predicate VerifiedOver(d: Device, stored: Digests, hashes: Hashes, v: VerifyResult) {
    && 0 < d.size == v.size == v.bytesHashed
    && Accounts(d, v.badRanges, d.size)
    && v.stored == stored
    && v.computedMD5 == hashes.md5(ZeroFilled(d, d.size))
    && v.computedSHA1 == hashes.sha1(ZeroFilled(d, d.size))
    && v.md5Match == (stored.md5 == Some(v.computedMD5))
    && v.sha1Match == (stored.sha1 == Some(v.computedSHA1))
  }

  /** OK holds exactly when every byte was read and every stored digest, of which there is one, is the device's. */
  lemma OKMeansTrueDevice(d: Device, stored: Digests, hashes: Hashes, v: VerifyResult)
    requires VerifiedOver(d, stored, hashes, v)
    ensures v.OK() <==>
            var device := Read(d, 0, d.size).bytes;
            && |device| == d.size
            && (stored.md5.Some? || stored.sha1.Some?)
            && (stored.md5.Some? ==> stored.md5.value == hashes.md5(device))
            && (stored.sha1.Some? ==> stored.sha1.value == hashes.sha1(device))
  {
    if v.badRanges == [] {
      PrefixIsLongestRun(d, 0, d.size, Read(d, 0, d.size).bytes);
      WholeDeviceIsZeroFilled(d);
    } else {
      var bad := v.badRanges[0];
      assert GoodReport(d, bad, d.size) && Covers(bad, bad.offset);
      UnreadableShortens(d, bad.offset);
    }
  }

  lemma UnreadableShortens(d: Device, x: int)
    requires 0 <= x < d.size && !Readable(d, x)
    ensures |Read(d, 0, d.size).bytes| < d.size
  {
    var bs := Read(d, 0, d.size).bytes;
    PrefixIsLongestRun(d, 0, d.size, bs);
    var b := if x < |bs| then bs[x] else 0;
    assert x < |bs| ==> Holds(d, 0 + x, b);
  }

  lemma WholeDeviceIsZeroFilled(d: Device)
    requires 0 <= d.size && |Read(d, 0, d.size).bytes| == d.size
    ensures Read(d, 0, d.size).bytes == ZeroFilled(d, d.size)
  {
    var device, filled := Read(d, 0, d.size).bytes, ZeroFilled(d, d.size);
    PrefixIsLongestRun(d, 0, d.size, device);
    forall i | 0 <= i < d.size
      ensures device[i] == filled[i]
    {
      var b := device[i];
      assert Holds(d, 0 + i, b);
    }
  }
}
