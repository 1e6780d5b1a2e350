/**
 * Any number of goroutines inside ReadAt at once, sharing one chunk cache. A cache lookup and a cache store are
 * atomic, because each holds the lock; everything else a reader does, decoding above all, happens outside it.
 */
module ConcurrentReads {
  import opened Bytes
  import opened Devices
  import opened Lru

  /** Where one reader stands; data is the slice it shares with the cache. */
  datatype Phase =
    | Idle
    | Entering
    | AtChunk
    | Decoding(chunk: int)
    | Storing(chunk: int, data: seq<byte>)
    | Copying(chunk: int, data: seq<byte>)
    | Finished(error: Option<ReadError>)

  /** A read of len bytes at off that has copied out so far. */
  datatype Reader = Reader(off: int, len: nat, out: seq<byte>, phase: Phase)

  datatype State = State(cache: seq<Entry>, readers: seq<Reader>)

  predicate InChunkPhase(p: Phase) {
    p.Decoding? || p.Storing? || p.Copying?
  }

  function Min(a: int, b: int): int { if a < b then a else b }

  function Want(d: Device, r: Reader): int { Min(r.len, d.size - r.off) }

  /** The argument checks at the head of ReadAt. */
  function Enter(d: Device, r: Reader): Reader {
    if r.len == 0 then r.(phase := Finished(None))
    else if Refusal(d, r.off).Some? then r.(phase := Finished(Refusal(d, r.off)))
    else r.(phase := AtChunk)
  }

  /** The copy out of a decoded chunk, and the short-chunk exit. */
  function Copy(d: Device, r: Reader): Reader
    requires r.phase.Copying? && 0 < d.chunkSize && |r.out| < Want(d, r)
  {
    var at := (r.off + |r.out|) % d.chunkSize;
    var available := Min(|r.phase.data| - at, d.chunkSize - at);
    var n := Min(Want(d, r) - |r.out|, available);
    if available <= 0 then r.(phase := Finished(Some(EndOfFile)))
    else r.(out := r.out + r.phase.data[at..at + n], phase := AtChunk)
  }

  /** One step of one reader: its own code from one lock operation to the next. */
  ghost function Advance(d: Device, max: nat, cache: seq<Entry>, r: Reader): (seq<Entry>, Reader)
    requires InFlight(d, r)
  {
    match r.phase
    case Entering => (cache, Enter(d, r))
    case AtChunk =>
      if |r.out| >= Want(d, r) then
        (cache, r.(phase := Finished(if |r.out| < r.len then Some(EndOfFile) else None)))
      else
        var k := (r.off + |r.out|) / d.chunkSize;
        if k >= |d.chunks| then (cache, r.(phase := Finished(Some(EndOfFile))))
        else
          (match Lookup(cache, k)
           case Some(data) => (Touched(cache, k), r.(phase := Copying(k, data)))
           case None => (cache, r.(phase := Decoding(k))))
    case Decoding(k) =>
      (match d.chunks[k]
       case Err(e) => (cache, r.(phase := Finished(Some(e))))
       case Ok(data) => (cache, r.(phase := Storing(k, data))))
    case Storing(k, data) => (Stored(cache, max, k, data), r.(phase := Copying(k, data)))
    case Copying(_, _) => (cache, Copy(d, r))
  }

  // ----- the invariant

  /** What holds of a reader between its argument checks and its return. */
  ghost predicate InFlight(d: Device, r: Reader) {
    && !r.phase.Idle? && !r.phase.Finished?
    && if r.phase.Entering? then r.out == [] else
         && 0 <= r.off < d.size && 0 < d.chunkSize && d.chunks != []
         && 0 < r.len && |r.out| <= Want(d, r)
         && Matches(d, r.off, r.out)
         && (InChunkPhase(r.phase) ==>
               && |r.out| < Want(d, r)
               && 0 <= r.phase.chunk < |d.chunks|
               && r.phase.chunk == (r.off + |r.out|) / d.chunkSize)
         && (r.phase.Storing? || r.phase.Copying? ==> d.chunks[r.phase.chunk] == Ok(r.phase.data))
  }

  /** A reader is idle, correct so far, or has returned exactly what a cache-free sequential read returns. */
  ghost predicate ReaderOk(d: Device, r: Reader) {
    match r.phase
    case Idle => true
    case Finished(e) => ReadResult(r.out, e) == Read(d, r.off, r.len)
    case _ => InFlight(d, r)
  }

  ghost predicate Inv(d: Device, max: nat, s: State) {
    Sound(d, max, s.cache) && forall i :: 0 <= i < |s.readers| ==> ReaderOk(d, s.readers[i])
  }

  // ----- the machine

  ghost predicate Init(s: State) {
    s.cache == [] && forall i :: 0 <= i < |s.readers| ==> s.readers[i].phase == Idle
  }

  /** A caller starts a read of any length at any offset. */
  ghost predicate Begins(r: Reader, r': Reader) {
    (r.phase.Idle? || r.phase.Finished?) && r'.out == [] && r'.phase == Entering
  }

  ghost predicate StepOf(d: Device, max: nat, s: State, s': State, i: nat) {
    && i < |s.readers| == |s'.readers|
    && s'.readers == s.readers[i := s'.readers[i]]
    && var r, r' := s.readers[i], s'.readers[i];
       || (s'.cache == s.cache && Begins(r, r'))
       || (InFlight(d, r) && (s'.cache, r') == Advance(d, max, s.cache, r))
  }

  ghost predicate Next(d: Device, max: nat, s: State, s': State) {
    exists i: nat :: StepOf(d, max, s, s', i)
  }

  ghost predicate IsRun(d: Device, max: nat, run: seq<State>) {
    && |run| > 0 && Init(run[0])
    && forall n :: 0 <= n < |run| - 1 ==> Next(d, max, run[n], run[n + 1])
  }

  // ----- each step keeps the invariant

  lemma EnterOk(d: Device, r: Reader)
    requires InFlight(d, r) && r.phase.Entering?
    ensures ReaderOk(d, Enter(d, r))
  {
    if r.len > 0 && Refusal(d, r.off).Some? {
      RefusedRead(d, r.off, r.len);
    }
  }

  lemma ExitOk(d: Device, r: Reader)
    requires InFlight(d, r) && r.phase.AtChunk?
    requires |r.out| >= Want(d, r) || (r.off + |r.out|) / d.chunkSize >= |d.chunks|
    ensures var e := if |r.out| >= r.len then None else Some(EndOfFile);
            ReaderOk(d, r.(phase := Finished(e)))
  {
    StopsCorrectly(d, r.off, r.len, r.out);
  }

  lemma LookupOk(d: Device, max: nat, cache: seq<Entry>, r: Reader, k: int)
    requires Sound(d, max, cache) && InFlight(d, r) && r.phase.AtChunk? && |r.out| < Want(d, r)
    requires k == (r.off + |r.out|) / d.chunkSize < |d.chunks|
    ensures match Lookup(cache, k)
            case Some(data) => InFlight(d, r.(phase := Copying(k, data)))
            case None => InFlight(d, r.(phase := Decoding(k)))
  {
    SoundLookup(d, max, cache, k);
  }

  lemma AtChunkOk(d: Device, max: nat, cache: seq<Entry>, r: Reader)
    requires Sound(d, max, cache) && InFlight(d, r) && r.phase.AtChunk?
    ensures StepOk(d, max, Advance(d, max, cache, r))
  {
    var k := (r.off + |r.out|) / d.chunkSize;
    if |r.out| >= Want(d, r) || k >= |d.chunks| {
      ExitOk(d, r);
    } else {
      LookupOk(d, max, cache, r, k);
      SoundTouched(d, max, cache, k);
    }
  }

  lemma DecodingOk(d: Device, max: nat, cache: seq<Entry>, r: Reader)
    requires Sound(d, max, cache) && InFlight(d, r) && r.phase.Decoding?
    ensures StepOk(d, max, Advance(d, max, cache, r))
  {
    if d.chunks[r.phase.chunk].Err? {
      StopsCorrectly(d, r.off, r.len, r.out);
    }
  }

  lemma StoringOk(d: Device, max: nat, cache: seq<Entry>, r: Reader)
    requires Sound(d, max, cache) && InFlight(d, r) && r.phase.Storing?
    ensures StepOk(d, max, Advance(d, max, cache, r))
  {
    SoundStored(d, max, cache, r.phase.chunk, r.phase.data);
  }

  lemma CopyOk(d: Device, r: Reader)
    requires InFlight(d, r) && r.phase.Copying?
    ensures ReaderOk(d, Copy(d, r))
  {
    var r' := Copy(d, r);
    if r'.phase.AtChunk? {
      var n := |r'.out| - |r.out|;
      ChunkBytesMatch(d, r.off + |r.out|, n);
      MatchesAppend(d, r.off, r.out, r'.out[|r.out|..]);
      assert r'.out == r.out + r'.out[|r.out|..];
    } else {
      StopsCorrectly(d, r.off, r.len, r.out);
    }
  }

  ghost predicate StepOk(d: Device, max: nat, after: (seq<Entry>, Reader)) {
    Sound(d, max, after.0) && ReaderOk(d, after.1)
  }

  lemma AdvanceOk(d: Device, max: nat, cache: seq<Entry>, r: Reader)
    requires Sound(d, max, cache) && InFlight(d, r)
    ensures StepOk(d, max, Advance(d, max, cache, r))
  {
    match r.phase
    case Entering => EnterOk(d, r);
    case AtChunk => AtChunkOk(d, max, cache, r);
    case Decoding(_) => DecodingOk(d, max, cache, r);
    case Storing(_, _) => StoringOk(d, max, cache, r);
    case Copying(_, _) => CopyOk(d, r);
  }

  lemma NextKeepsInv(d: Device, max: nat, s: State, s': State)
    requires Inv(d, max, s) && Next(d, max, s, s')
    ensures Inv(d, max, s')
  {
    var i: nat :| StepOf(d, max, s, s', i);
    var r, r' := s.readers[i], s'.readers[i];
    if !(s'.cache == s.cache && Begins(r, r')) {
      AdvanceOk(d, max, s.cache, r);
    }
    assert ReaderOk(d, r');
  }

  // ----- safety over every run

  /** In every state of every run the cache is sound and every reader is correct. */
  lemma {:induction false} RunsAreSafe(d: Device, max: nat, run: seq<State>, n: nat)
    requires IsRun(d, max, run) && n < |run|
    ensures Inv(d, max, run[n])
  {
    if n > 0 {
      RunsAreSafe(d, max, run, n - 1);
      assert Next(d, max, run[n - 1], run[n - 1 + 1]);
      NextKeepsInv(d, max, run[n - 1], run[n]);
    }
  }

  /**
   * However readers interleave, and whatever is evicted meanwhile: a completed read returned exactly the bytes and
   * error of a cache-free sequential read, every cached entry and every buffer in flight is the decoding of its
   * chunk, and the cache never exceeds its depth.
   */
  lemma CompletedReadsAreSequential(d: Device, max: nat, run: seq<State>, n: nat, i: nat)
    requires IsRun(d, max, run) && n < |run| && i < |run[n].readers|
    ensures var r := run[n].readers[i];
            && (r.phase.Finished? ==> ReadResult(r.out, r.phase.error) == Read(d, r.off, r.len))
            && (r.phase.Storing? || r.phase.Copying? ==>
                  0 <= r.phase.chunk < |d.chunks| && d.chunks[r.phase.chunk] == Ok(r.phase.data))
    ensures |run[n].cache| <= max && forall e :: e in run[n].cache ==> Genuine(d, e)
  {
    RunsAreSafe(d, max, run, n);
    assert ReaderOk(d, run[n].readers[i]);
  }

  /** A completed read somewhere in a run: reader number reader, in state number state. */
  datatype Completion = Completion(state: nat, reader: nat)

  ghost predicate CompletesAt(run: seq<State>, c: Completion, off: int, len: nat) {
    && c.state < |run| && c.reader < |run[c.state].readers|
    && var r := run[c.state].readers[c.reader];
       r.phase.Finished? && r.off == off && r.len == len
  }

  /** Reads of the given consecutive spans complete at the given points, by whichever readers and in any order. */
  ghost predicate CompleteInPieces(run: seq<State>, off: int, lens: seq<nat>, where: seq<Completion>)
    decreases |lens|
  {
    && |where| == |lens|
    && (lens != [] ==> CompletesAt(run, where[0], off, lens[0]) &&
                       CompleteInPieces(run, off + lens[0], lens[1..], where[1..]))
  }

  ghost function Outputs(run: seq<State>, off: int, lens: seq<nat>, where: seq<Completion>): (outs: seq<seq<byte>>)
    requires CompleteInPieces(run, off, lens, where)
    ensures |outs| == |lens|
    decreases |lens|
  {
    if lens == [] then []
    else [run[where[0].state].readers[where[0].reader].out] + Outputs(run, off + lens[0], lens[1..], where[1..])
  }

  /** With any other reads and evictions in between, the pieces of a span make up the single read of it. */
  lemma {:induction false} InterleavedPiecesMakeTheSpan(
    d: Device, max: nat, run: seq<State>, off: int, lens: seq<nat>, where: seq<Completion>)
    requires IsRun(d, max, run) && CompleteInPieces(run, off, lens, where)
    ensures UpToShort(lens, Outputs(run, off, lens, where)) == Read(d, off, Sum(lens)).bytes
  {
    OutputsAreReads(d, max, run, off, lens, where);
    ReadGranularity(d, off, lens, Outputs(run, off, lens, where));
  }

  lemma {:induction false} OutputsAreReads(
    d: Device, max: nat, run: seq<State>, off: int, lens: seq<nat>, where: seq<Completion>)
    requires IsRun(d, max, run) && CompleteInPieces(run, off, lens, where)
    ensures ReadInPieces(d, off, lens, Outputs(run, off, lens, where))
    decreases |lens|
  {
    if lens != [] {
      CompletedReadsAreSequential(d, max, run, where[0].state, where[0].reader);
      OutputsAreReads(d, max, run, off + lens[0], lens[1..], where[1..]);
    }
  }

  // ----- what reading does to the cache

  /** The chunk that a reader needs next. */
  ghost function NextChunk(d: Device, r: Reader): int
    requires InFlight(d, r) && !r.phase.Entering?
  {
    (r.off + |r.out|) / d.chunkSize
  }

  /**
   * A reader left alone with the cache from its lookup to its store does to it what one access of chunkData does, and
   * goes on to copy the chunk; a chunk that does not decode leaves the cache alone, and its error is returned.
   */
  lemma UndisturbedIsAccess(d: Device, max: nat, cache: seq<Entry>, r: Reader)
    requires Sound(d, max, cache) && InFlight(d, r) && r.phase.AtChunk?
    requires |r.out| < Want(d, r) && NextChunk(d, r) < |d.chunks|
    ensures var k := NextChunk(d, r); var accessed := Access(d, max, cache, k);
            var found := Advance(d, max, cache, r);
            if Lookup(cache, k).Some? then found == (accessed.0, r.(phase := Copying(k, Lookup(cache, k).value)))
            else
              && found == (cache, r.(phase := Decoding(k))) && InFlight(d, found.1)
              && var decoded := Advance(d, max, cache, found.1);
                 match d.chunks[k]
                 case Err(e) => decoded == (accessed.0, r.(phase := Finished(Some(e))))
                 case Ok(data) =>
                   && decoded == (cache, r.(phase := Storing(k, data))) && InFlight(d, decoded.1)
                   && Advance(d, max, cache, decoded.1) == (accessed.0, r.(phase := Copying(k, data)))
  {
    LookupOk(d, max, cache, r, NextChunk(d, r));
  }

  /** No other step of a reader touches the cache. */
  lemma OnlyAccessesCount(d: Device, max: nat, cache: seq<Entry>, r: Reader)
    requires InFlight(d, r) && !r.phase.Storing?
    ensures var after := Advance(d, max, cache, r).0;
            after == cache || (r.phase.AtChunk? && after == Touched(cache, NextChunk(d, r)))
  {
  }

  /** A copy leaves nothing behind: the reader has all it wants, is past the chunk, or cannot read on. */
  lemma CopyTakesAll(d: Device, r: Reader)
    requires InFlight(d, r) && r.phase.Copying? && Copy(d, r).phase.AtChunk?
    ensures var done := |Copy(d, r).out|;
            |r.out| < done && (done == Want(d, r) || (r.off + done) / d.chunkSize == r.phase.chunk + 1 ||
                               !Readable(d, r.off + done))
  {
    var at, done := (r.off + |r.out|) % d.chunkSize, |Copy(d, r).out|;
    var n := done - |r.out|;
    if done < Want(d, r) {
      if at + n == d.chunkSize {
        DivModUnique(r.off + done, d.chunkSize, r.phase.chunk + 1, 0);
      } else {
        SameChunk(r.off + |r.out|, d.chunkSize, n);
      }
    }
  }

  // ----- no reader waits for another

  /** An upper bound on the steps a reader still has to take, whatever the others do. */
  ghost function StepsLeft(d: Device, r: Reader): nat
    requires InFlight(d, r)
  {
    match r.phase
    case Entering => 4 * r.len + 2
    case AtChunk => 4 * (Want(d, r) - |r.out|) + 1
    case Decoding(_) => 4 * (Want(d, r) - |r.out|)
    case Storing(_, _) => 4 * (Want(d, r) - |r.out|) - 1
    case Copying(_, _) => 4 * (Want(d, r) - |r.out|) - 2
  }

  /** Every step a reader takes brings it closer to returning, even when its cached chunk is evicted under it. */
  lemma ReadersMakeProgress(d: Device, max: nat, cache: seq<Entry>, r: Reader)
    requires Sound(d, max, cache) && InFlight(d, r)
    ensures var r' := Advance(d, max, cache, r).1;
            r'.phase.Finished? || (InFlight(d, r') && StepsLeft(d, r') < StepsLeft(d, r))
  {
    AdvanceOk(d, max, cache, r);
  }
}
