/** The decoded device as a flat, partial array of bytes: the meaning every read is measured against. */
module Devices {
  import opened Bytes

  /** Why a read stopped. The last two stand for run-time panics: an impossible slice, and an impossible make. */
  datatype ReadError =
    | EndOfFile
    | InvalidOffset
    | NoMediaGeometry
    | NoChunkTable
    | NegativeChunkOffset
    | ZeroStoredSize
    | StoredSizeTooLarge
    | SourceUnreadable
    | DecompressionFailed
    | EmptyPatternUnit
    | PatternWithoutChunkSize
    | SliceOutOfRange
    | MakeOutOfRange

  /** The reader did not return: the program panicked. */
  predicate Panics(e: ReadError) {
    e.SliceOutOfRange? || e.MakeOutOfRange?
  }

  type Decoded = Result<seq<byte>, ReadError>

  /** Geometry plus what each stored chunk decodes to. */
  datatype Device = Device(chunkSize: int, size: int, chunks: seq<Decoded>)

  /** Offset off lies on the device and its chunk decoded far enough to cover it. */
  predicate Readable(d: Device, off: int) {
    && 0 <= off < d.size
    && 0 < d.chunkSize
    && off / d.chunkSize < |d.chunks|
    && d.chunks[off / d.chunkSize].Ok?
    && off % d.chunkSize < |d.chunks[off / d.chunkSize].value|
  }

  function ByteAt(d: Device, off: int): byte
    requires Readable(d, off)
  {
    d.chunks[off / d.chunkSize].value[off % d.chunkSize]
  }

  /** The longest readable run of at most len bytes starting at off. */
  function Prefix(d: Device, off: int, len: nat): (bs: seq<byte>)
    ensures |bs| <= len
    decreases len
  {
    if len == 0 || !Readable(d, off) then [] else [ByteAt(d, off)] + Prefix(d, off + 1, len - 1)
  }

  ghost predicate Holds(d: Device, off: int, b: byte) {
    Readable(d, off) && b == ByteAt(d, off)
  }

  /** out holds device bytes off, off + 1, ... and nothing else. */
  ghost predicate Matches(d: Device, off: int, out: seq<byte>) {
    forall i :: 0 <= i < |out| ==> Holds(d, off + i, out[i])
  }

  /** Prefix is the one sequence that is correct, fits, and cannot be extended. */
  lemma {:induction false} PrefixIsLongestRun(d: Device, off: int, len: nat, out: seq<byte>)
    requires |out| <= len
    ensures out == Prefix(d, off, len) <==> Matches(d, off, out) && (|out| == len || !Readable(d, off + |out|))
    decreases len
  {
    if |out| > 0 {
      MatchesTail(d, off, out);
      if len > 0 && Readable(d, off) {
        PrefixIsLongestRun(d, off + 1, len - 1, out[1..]);
        assert out == [out[0]] + out[1..];
      }
    }
  }

  lemma MatchesTail(d: Device, off: int, out: seq<byte>)
    requires |out| > 0
    ensures Matches(d, off, out) <==> Holds(d, off, out[0]) && Matches(d, off + 1, out[1..])
  {
    if Holds(d, off, out[0]) && Matches(d, off + 1, out[1..]) {
      forall i | 0 <= i < |out|
        ensures Holds(d, off + i, out[i])
      {
        if i > 0 {
          var rest := out[1..][i - 1];
          assert Holds(d, off + 1 + (i - 1), rest);
        }
      }
    }
    if Matches(d, off, out) {
      var head := out[0];
      assert Holds(d, off + 0, head);
      forall i | 0 <= i < |out[1..]|
        ensures Holds(d, off + 1 + i, out[1..][i])
      {
        var next := out[i + 1];
        assert Holds(d, off + (i + 1), next);
      }
    }
  }

  /** The error a read of len bytes at off reports once it has stopped after n bytes; None means it was filled. */
  function StopError(d: Device, off: int, len: nat, n: nat): Option<ReadError> {
    if n >= len then None
    else if off < 0 then Some(InvalidOffset)
    else if d.chunkSize <= 0 || d.size <= 0 then Some(NoMediaGeometry)
    else if d.chunks == [] then Some(NoChunkTable)
    else if off + n >= d.size || (off + n) / d.chunkSize >= |d.chunks| then Some(EndOfFile)
    else match d.chunks[(off + n) / d.chunkSize]
      case Err(e) => Some(e)
      case Ok(_) => Some(EndOfFile)
  }

  datatype ReadResult = ReadResult(bytes: seq<byte>, error: Option<ReadError>)

  /** What a cache-free sequential reader returns for len bytes at off. */
  function Read(d: Device, off: int, len: nat): ReadResult {
    var bs := Prefix(d, off, len);
    ReadResult(bs, StopError(d, off, len, |bs|))
  }

  /** Nothing is wrong with the arguments, nor with what the device is made of. */
  predicate Usable(d: Device, off: int) {
    0 <= off && 0 < d.chunkSize && 0 < d.size && d.chunks != []
  }

  /** The byte at off belongs to a chunk that failed. */
  predicate FailsAt(d: Device, off: int) {
    0 <= off < d.size && 0 < d.chunkSize && off / d.chunkSize < |d.chunks| && d.chunks[off / d.chunkSize].Err?
  }

  lemma StopErrorMeans(d: Device, off: int, len: nat, n: nat)
    requires n < len && Usable(d, off)
    ensures StopError(d, off, len, n) ==
            Some(if FailsAt(d, off + n) then d.chunks[(off + n) / d.chunkSize].error else EndOfFile)
  {
  }

  lemma {:induction false} UnusableRead(d: Device, off: int, len: nat)
    requires !Usable(d, off)
    ensures Prefix(d, off, len) == []
  {
  }

  /**
   * What the error of a short read means: the first thing wrong of a negative offset, no geometry, no chunks; else the
   * error of the chunk that the first byte not read belongs to; and if that has none, the end of the device, of its
   * chunks, or of a chunk that is too short.
   */
  lemma ErrorMeans(d: Device, off: int, len: nat)
    requires 0 < len
    ensures var r := Read(d, off, len); var first := off + |r.bytes|;
            && (r.error == None <==> |r.bytes| == len)
            && (off < 0 ==> r == ReadResult([], Some(InvalidOffset)))
            && (off >= 0 && (d.chunkSize <= 0 || d.size <= 0) ==> r == ReadResult([], Some(NoMediaGeometry)))
            && (off >= 0 && d.chunkSize > 0 && d.size > 0 && d.chunks == [] ==> r == ReadResult([], Some(NoChunkTable)))
            && (Usable(d, off) && |r.bytes| < len ==>
                  r.error == Some(if FailsAt(d, first) then d.chunks[first / d.chunkSize].error else EndOfFile))
  {
    if !Usable(d, off) {
      UnusableRead(d, off, len);
    } else if |Read(d, off, len).bytes| < len {
      StopErrorMeans(d, off, len, |Read(d, off, len).bytes|);
    }
  }

  /** A correct read that is full or cannot go on is the read. */
  lemma StopsCorrectly(d: Device, off: int, len: nat, out: seq<byte>)
    requires |out| <= len && Matches(d, off, out)
    requires |out| == len || !Readable(d, off + |out|)
    ensures Read(d, off, len) == ReadResult(out, StopError(d, off, len, |out|))
  {
    PrefixIsLongestRun(d, off, len, out);
  }

  /** The argument checks at the head of ReadAt, for a non-empty buffer. */
  function Refusal(d: Device, off: int): Option<ReadError> {
    if off < 0 then Some(InvalidOffset)
    else if d.chunkSize <= 0 || d.size <= 0 then Some(NoMediaGeometry)
    else if d.chunks == [] then Some(NoChunkTable)
    else if off >= d.size then Some(EndOfFile)
    else None
  }

  lemma RefusedRead(d: Device, off: int, len: nat)
    requires 0 < len && Refusal(d, off).Some?
    ensures Read(d, off, len) == ReadResult([], Refusal(d, off))
  {
    assert !Readable(d, off);
    assert Prefix(d, off, len) == [];
  }

  // ----- read granularity

  function Sum(lens: seq<nat>): nat {
    if lens == [] then 0 else lens[0] + Sum(lens[1..])
  }

  /** outs are what consecutive reads of the given lengths return, starting at off. */
  ghost predicate ReadInPieces(d: Device, off: int, lens: seq<nat>, outs: seq<seq<byte>>)
    decreases |lens|
  {
    && |outs| == |lens|
    && (lens != [] ==> outs[0] == Read(d, off, lens[0]).bytes && ReadInPieces(d, off + lens[0], lens[1..], outs[1..]))
  }

  /** The pieces concatenated, up to and including the first short one. */
  function UpToShort(lens: seq<nat>, outs: seq<seq<byte>>): seq<byte>
    requires |outs| == |lens|
    decreases |lens|
  {
    if lens == [] then [] else if |outs[0]| < lens[0] then outs[0] else outs[0] + UpToShort(lens[1..], outs[1..])
  }

  lemma {:induction false} PrefixSplits(d: Device, off: int, a: nat, b: nat)
    ensures Prefix(d, off, a + b) ==
            if |Prefix(d, off, a)| < a then Prefix(d, off, a) else Prefix(d, off, a) + Prefix(d, off + a, b)
    decreases a
  {
    if a > 0 && Readable(d, off) {
      PrefixSplits(d, off + 1, a - 1, b);
    }
  }

  /** However a span is cut into consecutive reads, the pieces make up the single read of the whole span. */
  lemma {:induction false} ReadGranularity(d: Device, off: int, lens: seq<nat>, outs: seq<seq<byte>>)
    requires ReadInPieces(d, off, lens, outs)
    ensures UpToShort(lens, outs) == Read(d, off, Sum(lens)).bytes
    decreases |lens|
  {
    if lens != [] {
      PrefixSplits(d, off, lens[0], Sum(lens[1..]));
      ReadGranularity(d, off + lens[0], lens[1..], outs[1..]);
    }
  }

  // ----- chunk arithmetic

  /** Offsets inside one chunk share its number, and advance its position one for one. */
  lemma SameChunk(off: int, chunkSize: int, i: nat)
    requires 0 <= off && 0 < chunkSize && off % chunkSize + i < chunkSize
    ensures (off + i) / chunkSize == off / chunkSize && (off + i) % chunkSize == off % chunkSize + i
  {
    DivModUnique(off + i, chunkSize, off / chunkSize, off % chunkSize + i);
  }

  lemma DivModUnique(x: int, m: int, q: int, r: int)
    requires 0 < m && 0 <= r < m && x == q * m + r
    ensures x / m == q && x % m == r
  {
    var k := x / m - q;
    assert x == (x / m) * m + x % m;
    assert k * m == r - x % m;
    assert -m < k * m < m;
  }

  /** The bytes of a decoded chunk from an offset's position on are the device's bytes at that offset. */
  lemma ChunkBytesMatch(d: Device, o: int, n: nat)
    requires 0 <= o && 0 < d.chunkSize && o + n <= d.size
    requires var k := o / d.chunkSize; var at := o % d.chunkSize;
             && k < |d.chunks| && d.chunks[k].Ok? && at + n <= |d.chunks[k].value| && at + n <= d.chunkSize
    ensures var data := d.chunks[o / d.chunkSize].value; var at := o % d.chunkSize;
            Matches(d, o, data[at..at + n])
  {
    var data, at := d.chunks[o / d.chunkSize].value, o % d.chunkSize;
    var piece := data[at..at + n];
    forall i | 0 <= i < |piece|
      ensures Holds(d, o + i, piece[i])
    {
      SameChunk(o, d.chunkSize, i);
    }
  }

  /** The same, with the chunk's number, the position in it and its bytes at hand. */
  lemma PieceMatches(d: Device, o: int, n: nat, k: nat, at: nat, data: seq<byte>)
    requires 0 <= o && 0 < d.chunkSize && o + n <= d.size && k == o / d.chunkSize && at == o % d.chunkSize
    requires k < |d.chunks| && d.chunks[k] == Ok(data) && at + n <= |data| && at + n <= d.chunkSize
    ensures Matches(d, o, data[at..at + n])
  {
    ChunkBytesMatch(d, o, n);
  }

  lemma MatchesAppend(d: Device, off: int, a: seq<byte>, b: seq<byte>)
    requires Matches(d, off, a) && Matches(d, off + |a|, b)
    ensures Matches(d, off, a + b)
  {
    forall i | 0 <= i < |a + b|
      ensures Holds(d, off + i, (a + b)[i])
    {
      if i < |a| {
        assert (a + b)[i] == a[i];
      } else {
        var x := b[i - |a|];
        assert Holds(d, off + |a| + (i - |a|), x);
      }
    }
  }

  /** A read with nothing to copy at off + n stops there, with the error its chunk gives. */
  lemma NothingToCopy(d: Device, off: int, len: nat, n: nat)
    requires 0 <= off && n < len && 0 < d.chunkSize && off + n < d.size && d.chunks != []
    requires var o := off + n; var k := o / d.chunkSize;
             k >= |d.chunks| || d.chunks[k].Err? || |d.chunks[k].value| <= o % d.chunkSize
    ensures !Readable(d, off + n)
    ensures var k := (off + n) / d.chunkSize;
            StopError(d, off, len, n) ==
            Some(if k < |d.chunks| && d.chunks[k].Err? then d.chunks[k].error else EndOfFile)
  {
  }
}
