/** Stored chunks: how one descriptor is turned back into device bytes. */
module Chunks {
  import opened Bytes
  import opened Devices

  const CHUNK_TRAILER_SIZE: int := 4

  const CODEC_NONE: u16 := 0
  const CODEC_DEFLATE: u16 := 1
  const CODEC_BZIP2: u16 := 2

  /** The longest slice the run time makes before it panics; at least what the reader asks for in one read. */
  type AllocationLimit = x: int | 0x4000_0000 <= x witness 0x4000_0000

  /** What the reader calls but does not define; nothing else is assumed about the algorithms. */
  datatype Library = Library(
    adler32: seq<byte> -> u32,
    zlib: seq<byte> -> Option<seq<byte>>,
    bzip2: seq<byte> -> Option<seq<byte>>,
    maxAlloc: AllocationLimit)

  /** Locates and describes one stored chunk; no source of its own means the first segment. */
  datatype ChunkDescriptor = ChunkDescriptor(
    dataSource: Option<Source>,
    dataOffset: i64,
    dataSize: u32,
    compressed: bool,
    majorVersion: byte,
    compressionMethod: u16,
    pattern: bool,
    hasChecksum: bool)

  function Decompress(lib: Library, data: seq<byte>, codec: u16): Option<seq<byte>> {
    if codec == CODEC_NONE then Some(data)
    else if codec == CODEC_DEFLATE then lib.zlib(data)
    else if codec == CODEC_BZIP2 then lib.bzip2(data)
    else None
  }

  /** The largest stored size believed; an int64, so an enormous chunk size wraps it below zero. */
  function MaxStored(chunkSize: int): int {
    WrapI64(chunkSize * 2 + 4096)
  }

  /** The limit is what it was meant to be if and only if the chunk size is below 2^62 - 2048. */
  lemma LimitWrapsIff(chunkSize: i64)
    requires 0 < chunkSize
    ensures MaxStored(chunkSize) == chunkSize * 2 + 4096 <==> chunkSize < 0x4000_0000_0000_0000 - 2048
  {
  }

  /** decodeChunk: the stored bytes of a chunk, expanded, decompressed or stripped of their trailer. */
  function DecodeChunk(lib: Library, chunkSize: int, first: Source, desc: ChunkDescriptor): Decoded {
    if desc.dataOffset < 0 then Err(NegativeChunkOffset)
    else if desc.dataSize == 0 then Err(ZeroStoredSize)
    else if desc.dataSize > MaxStored(chunkSize) then Err(StoredSizeTooLarge)
    else
      var src := if desc.dataSource.None? then first else desc.dataSource.value;
      match ReadSlice(src, desc.dataOffset, desc.dataSize)
      case None => Err(SourceUnreadable)
      case Some(raw) => DecodeStored(lib, chunkSize, desc, raw)
  }

  function DecodeStored(lib: Library, chunkSize: int, desc: ChunkDescriptor, raw: seq<byte>): Decoded {
    if desc.pattern then Expanded(lib.maxAlloc, raw, chunkSize)
    else if desc.compressed then
      var codec := if desc.majorVersion == 1 then CODEC_DEFLATE else desc.compressionMethod;
      match Decompress(lib, raw, codec)
      case None => Err(DecompressionFailed)
      case Some(out) => Ok(out)
    else if desc.hasChecksum && |raw| > CHUNK_TRAILER_SIZE then Ok(raw[..|raw| - CHUNK_TRAILER_SIZE])
    else if desc.majorVersion == 1 && |raw| > chunkSize then
      if |raw| < CHUNK_TRAILER_SIZE then Err(SliceOutOfRange) else Ok(raw[..|raw| - CHUNK_TRAILER_SIZE])
    else Ok(raw)
  }

  /** From there on up to 2^63 - 2048, and for no other chunk size, every chunk of the image is refused. */
  lemma AllRefusedIff(lib: Library, chunkSize: i64)
    requires 0 < chunkSize
    ensures (forall first: Source, desc: ChunkDescriptor :: DecodeChunk(lib, chunkSize, first, desc).Err?) <==>
            0x4000_0000_0000_0000 - 2048 <= chunkSize <= 0x8000_0000_0000_0000 - 2048
  {
    if MaxStored(chunkSize) > 0 {
      assert ReadSlice(ONE_BYTE, 0, 1).Some?;
      assert DecodeChunk(lib, chunkSize, ONE_BYTE, PLAIN_BYTE).Ok?;
    }
  }

  const ONE_BYTE: Source := [7]

  const PLAIN_BYTE: ChunkDescriptor := ChunkDescriptor(None, 0, 1, false, 2, 0, false, false)

  // ----- what decoding gives

  /** The source a descriptor refers to. */
  function SourceOf(first: Source, desc: ChunkDescriptor): Source {
    if desc.dataSource.None? then first else desc.dataSource.value
  }

  /** The checks let the chunk through and its stored bytes can be read. */
  predicate Fetched(chunkSize: int, first: Source, desc: ChunkDescriptor) {
    && 0 <= desc.dataOffset && 0 < desc.dataSize <= MaxStored(chunkSize)
    && desc.dataSize <= 0x4000_0000 && desc.dataOffset + desc.dataSize <= |SourceOf(first, desc)|
  }

  /** What a codec made of the data: the data itself, or some stream that inflates to it. */
  ghost predicate Coded(lib: Library, codec: u16, stored: seq<byte>, data: seq<byte>) {
    || (codec == 0 && stored == data)
    || (codec == 1 && lib.zlib(stored) == Some(data))
    || (codec == 2 && lib.bzip2(stored) == Some(data))
  }

  /** The last four of the n bytes of a plain chunk are its checksum: flagged, or in v1 implied by their number. */
  ghost predicate HasTrailer(chunkSize: int, desc: ChunkDescriptor, n: nat) {
    (desc.hasChecksum && n > 4) || (desc.majorVersion == 1 && n > chunkSize)
  }

  /** The stored bytes mean the data: as a repeated unit, as a stream, or as themselves without their trailer. */
  ghost predicate Means(lib: Library, chunkSize: int, desc: ChunkDescriptor, raw: seq<byte>, data: seq<byte>) {
    if desc.pattern then
      && raw != [] && 0 < chunkSize <= lib.maxAlloc && |data| == chunkSize
      && forall i :: 0 <= i < chunkSize ==> data[i] == raw[i % |raw|]
    else if desc.compressed then Coded(lib, if desc.majorVersion == 1 then 1 else desc.compressionMethod, raw, data)
    else data <= raw && |raw| == |data| + if HasTrailer(chunkSize, desc, |raw|) then 4 else 0
  }

  lemma DecompressIff(lib: Library, stored: seq<byte>, codec: u16, data: seq<byte>)
    ensures Decompress(lib, stored, codec) == Some(data) <==> Coded(lib, codec, stored, data)
  {
  }

  lemma StoredMeans(lib: Library, chunkSize: int, desc: ChunkDescriptor, raw: seq<byte>, data: seq<byte>)
    ensures DecodeStored(lib, chunkSize, desc, raw) == Ok(data) <==> Means(lib, chunkSize, desc, raw, data)
  {
    if desc.pattern {
      if raw != [] && 0 < chunkSize {
        assert data == Repeated(raw, chunkSize) <==>
               |data| == chunkSize && forall i :: 0 <= i < chunkSize ==> data[i] == raw[i % |raw|];
      }
    } else if desc.compressed {
      DecompressIff(lib, raw, if desc.majorVersion == 1 then 1 else desc.compressionMethod, data);
    } else {
      assert |data| <= |raw| ==> (data <= raw <==> data == raw[..|data|]);
      assert raw[..|raw|] == raw;
    }
  }

  /** The bytes a descriptor refers to, as far as its source has them. */
  function StoredBytes(first: Source, desc: ChunkDescriptor): seq<byte> {
    var src := SourceOf(first, desc);
    if 0 <= desc.dataOffset && desc.dataOffset + desc.dataSize <= |src|
    then src[desc.dataOffset..desc.dataOffset + desc.dataSize] else []
  }

  /** Decoding gives exactly what the stored bytes mean. */
  lemma DecodesIff(lib: Library, chunkSize: int, first: Source, desc: ChunkDescriptor, data: seq<byte>)
    ensures DecodeChunk(lib, chunkSize, first, desc) == Ok(data) <==>
            Fetched(chunkSize, first, desc) && Means(lib, chunkSize, desc, StoredBytes(first, desc), data)
  {
    StoredMeans(lib, chunkSize, desc, StoredBytes(first, desc), data);
  }

  /** Why a chunk is refused: the first thing wrong with its descriptor, or its stored bytes. */
  lemma RefusedBecause(lib: Library, chunkSize: int, first: Source, desc: ChunkDescriptor)
    ensures var r := DecodeChunk(lib, chunkSize, first, desc); var size := desc.dataSize;
            && (r == Err(NegativeChunkOffset) <==> desc.dataOffset < 0)
            && (r == Err(ZeroStoredSize) <==> desc.dataOffset >= 0 && size == 0)
            && (r == Err(StoredSizeTooLarge) <==> desc.dataOffset >= 0 && size > 0 && size > MaxStored(chunkSize))
            && (r == Err(SourceUnreadable) <==>
                && desc.dataOffset >= 0 && 0 < size <= MaxStored(chunkSize) && !Fetched(chunkSize, first, desc))
            && (r == Err(DecompressionFailed) <==>
                && Fetched(chunkSize, first, desc) && !desc.pattern && desc.compressed
                && forall data :: !Means(lib, chunkSize, desc, StoredBytes(first, desc), data))
  {
    if Fetched(chunkSize, first, desc) && !desc.pattern && desc.compressed {
      forall data
        ensures DecodeStored(lib, chunkSize, desc, StoredBytes(first, desc)) == Ok(data) <==>
                Means(lib, chunkSize, desc, StoredBytes(first, desc), data)
      {
        StoredMeans(lib, chunkSize, desc, StoredBytes(first, desc), data);
      }
    }
  }

  // ----- when decoding panics

  predicate Panicked(d: Decoded) {
    d.Err? && Panics(d.error)
  }

  /** Decoding panics exactly where the strip slices below zero, or where a pattern chunk is too large to make. */
  lemma PanicsIff(lib: Library, chunkSize: i64, first: Source, desc: ChunkDescriptor)
    requires 0 < chunkSize
    ensures Panicked(DecodeChunk(lib, chunkSize, first, desc)) <==>
            && Fetched(chunkSize, first, desc)
            && if desc.pattern then chunkSize > lib.maxAlloc
               else !desc.compressed && desc.majorVersion == 1 && chunkSize < desc.dataSize < 4
  {
  }

  /**
   * No descriptor whatever makes decoding panic if and only if the chunk size is at least three and can be allocated,
   * or is one of those for which every chunk is refused anyway.
   */
  lemma NoPanicIff(lib: Library, chunkSize: i64)
    requires 0 < chunkSize
    ensures (forall first: Source, desc: ChunkDescriptor :: !Panicked(DecodeChunk(lib, chunkSize, first, desc))) <==>
            || 3 <= chunkSize <= lib.maxAlloc
            || 0x4000_0000_0000_0000 - 2048 <= chunkSize <= 0x8000_0000_0000_0000 - 2048
  {
    if chunkSize < 3 {
      var first: Source := [7, 7, 7];
      PanicsIff(lib, chunkSize, first, ChunkDescriptor(None, 0, 3, false, 1, 0, false, false));
    } else if MaxStored(chunkSize) > 0 && chunkSize > lib.maxAlloc {
      PanicsIff(lib, chunkSize, ONE_BYTE, PLAIN_BYTE.(pattern := true));
    } else {
      forall first: Source, desc: ChunkDescriptor
        ensures !Panicked(DecodeChunk(lib, chunkSize, first, desc))
      {
        PanicsIff(lib, chunkSize, first, desc);
      }
    }
  }

  // ----- pattern fill

  /** n bytes of unit repeated end to end. */
  function Repeated(unit: seq<byte>, n: nat): (s: seq<byte>)
    requires |unit| > 0
    ensures |s| == n
  {
    seq(n, i requires 0 <= i < n => unit[i % |unit|])
  }

  function Expanded(maxAlloc: AllocationLimit, unit: seq<byte>, chunkSize: int): Decoded {
    if unit == [] then Err(EmptyPatternUnit)
    else if chunkSize <= 0 then Err(PatternWithoutChunkSize)
    else if chunkSize > maxAlloc then Err(MakeOutOfRange)
    else Ok(Repeated(unit, chunkSize))
  }

  /** u doubled p times. */
  function Doubled(u: nat, p: nat): nat {
    if p == 0 then u else 2 * Doubled(u, p - 1)
  }

  lemma {:induction false} DoubledIsMultiple(u: nat, p: nat)
    requires 0 < u
    ensures exists k: nat :: Doubled(u, p) == k * u
  {
    if p == 0 {
      assert Doubled(u, p) == 1 * u;
    } else {
      DoubledIsMultiple(u, p - 1);
      var k: nat :| Doubled(u, p - 1) == k * u;
      assert Doubled(u, p) == (2 * k) * u;
    }
  }

  lemma ModOfMultiple(k: nat, u: nat, i: nat)
    requires 0 < u
    ensures (k * u + i) % u == i % u
  {
    DivModUnique(k * u + i, u, k + i / u, i % u);
  }

  /** Repetition up to a whole number of units, followed by its own start, is longer repetition. */
  lemma {:induction false} RepeatedDoubles(unit: seq<byte>, passes: nat, n: nat, m: nat)
    requires |unit| > 0 && n == Doubled(|unit|, passes) && m <= n
    ensures Repeated(unit, n + m) == Repeated(unit, n) + Repeated(unit, n)[..m]
  {
    DoubledIsMultiple(|unit|, passes);
    var k: nat :| n == k * |unit|;
    forall i | 0 <= i < m
      ensures unit[(n + i) % |unit|] == Repeated(unit, n)[i]
    {
      ModOfMultiple(k, |unit|, i);
    }
    var long, parts := Repeated(unit, n + m), Repeated(unit, n) + Repeated(unit, n)[..m];
    forall i | 0 <= i < n + m
      ensures long[i] == parts[i]
    {
      if n <= i {
        assert unit[(n + (i - n)) % |unit|] == Repeated(unit, n)[i - n];
      }
    }
  }

  /** The copy of the first m bytes of out to position n. */
  method CopyForward(out: array<byte>, n: nat, m: nat)
    requires m <= n && n + m <= out.Length
    modifies out
    ensures out[..n + m] == old(out[..n]) + old(out[..n])[..m]
  {
    forall i | 0 <= i < m {
      out[n + i] := out[i];
    }
    assert out[..n + m] == out[..n] + out[n..n + m];
  }

  /** One doubling of the filled region, or what there is room for. */
  method DoubleFilled(out: array<byte>, unit: seq<byte>, n: nat, m: nat, ghost passes: nat)
    requires |unit| > 0 && n == Doubled(|unit|, passes) && m <= n && n + m <= out.Length
    requires out[..n] == Repeated(unit, n)
    modifies out
    ensures out[..n + m] == Repeated(unit, n + m)
  {
    RepeatedDoubles(unit, passes, n, m);
    CopyForward(out, n, m);
  }

  lemma RepeatedStart(unit: seq<byte>, n: nat)
    requires 0 < n <= |unit|
    ensures Repeated(unit, n) == unit[..n]
  {
  }

  /**
   * expandPattern. Unless the chunk is too large to make, the result is plain repetition of the unit, found in the
   * fewest doublings that reach the chunk size.
   */
  method ExpandPattern(maxAlloc: AllocationLimit, unit: seq<byte>, chunkSize: i64)
    returns (r: Decoded, ghost passes: nat)
    ensures r == Expanded(maxAlloc, unit, chunkSize)
    ensures r.Ok? ==> Doubled(|unit|, passes) >= chunkSize
    ensures r.Ok? && passes > 0 ==> Doubled(|unit|, passes - 1) < chunkSize
  {
    passes := 0;
    if |unit| == 0 {
      return Err(EmptyPatternUnit), 0;
    }
    if chunkSize <= 0 {
      return Err(PatternWithoutChunkSize), 0;
    }
    if chunkSize > maxAlloc {
      return Err(MakeOutOfRange), 0;
    }
    var out := new byte[chunkSize];
    var n := if |unit| < chunkSize then |unit| else chunkSize;
    forall i | 0 <= i < n {
      out[i] := unit[i];
    }
    RepeatedStart(unit, n);
    assert out[..n] == unit[..n];
    while n < chunkSize
      invariant 0 < n <= chunkSize
      invariant n == if Doubled(|unit|, passes) < chunkSize then Doubled(|unit|, passes) else chunkSize
      invariant passes > 0 ==> Doubled(|unit|, passes - 1) < chunkSize
      invariant out[..n] == Repeated(unit, n)
      decreases chunkSize - n
    {
      var m := if chunkSize - n < n then chunkSize - n else n;
      DoubleFilled(out, unit, n, m, passes);
      n := n + m;
      passes := passes + 1;
    }
    r := Ok(out[..]);
    assert out[..] == out[..n];
  }
}
