/** The decoded-device reader: chunked storage and a chunk cache, presented as one flat device. */
module ImageReaders {
  import opened Bytes
  import opened ChunkCaches
  import opened Chunks
  import opened Devices
  import opened Lru

  // ----- geometry

  datatype Media = Media(sectorsPerChunk: u32, bytesPerSector: u32, numberOfSectors: u64)

  datatype Geometry = Geometry(chunkSize: i64, logicalSize: i64)

  datatype GeometryError = InvalidGeometry | ChunkSizeOverflows | DeviceSizeOverflows

  /** computeGeometry: the overflow tests divide, so that the products themselves never wrap. */
  function ComputeGeometry(media: Option<Media>): Result<Geometry, GeometryError> {
    match media
    case None => Ok(Geometry(0, 0))
    case Some(m) =>
      if m.bytesPerSector == 0 || m.sectorsPerChunk == 0 then Err(InvalidGeometry)
      else if m.sectorsPerChunk > MAX_INT64 / m.bytesPerSector then Err(ChunkSizeOverflows)
      else if m.numberOfSectors > MAX_INT64 / m.bytesPerSector then Err(DeviceSizeOverflows)
      else
        QuotientBound(m.sectorsPerChunk, m.bytesPerSector);
        QuotientBound(m.numberOfSectors, m.bytesPerSector);
        Ok(Geometry(m.sectorsPerChunk * m.bytesPerSector, m.numberOfSectors * m.bytesPerSector))
  }

  lemma QuotientBound(a: nat, b: nat)
    requires 0 < b
    ensures a > MAX_INT64 / b <==> a * b > MAX_INT64
  {
    var q := MAX_INT64 / b;
    assert q * b <= MAX_INT64 < (q + 1) * b;
    if a > q {
      assert a * b >= (q + 1) * b;
    } else {
      assert a * b <= q * b;
    }
  }

  /** The geometry that a volume states: the true products, which have to fit an int64; without a volume, none. */
  ghost predicate Gives(media: Option<Media>, g: Geometry) {
    match media
    case None => g == Geometry(0, 0)
    case Some(m) =>
      && 0 < m.bytesPerSector && 0 < m.sectorsPerChunk
      && g.chunkSize == m.sectorsPerChunk * m.bytesPerSector && g.logicalSize == m.numberOfSectors * m.bytesPerSector
  }

  /** Geometry is accepted exactly when both true products fit an int64, and then it is those products. */
  lemma GeometryIsExact(m: Media)
    ensures ComputeGeometry(Some(m)).Ok? <==>
            0 < m.bytesPerSector && 0 < m.sectorsPerChunk &&
            m.sectorsPerChunk * m.bytesPerSector <= MAX_INT64 && m.numberOfSectors * m.bytesPerSector <= MAX_INT64
    ensures ComputeGeometry(Some(m)).Ok? ==>
              ComputeGeometry(Some(m)).value.chunkSize == m.sectorsPerChunk * m.bytesPerSector > 0 &&
              ComputeGeometry(Some(m)).value.logicalSize == m.numberOfSectors * m.bytesPerSector >= 0
  {
    if 0 < m.bytesPerSector && 0 < m.sectorsPerChunk {
      QuotientBound(m.sectorsPerChunk, m.bytesPerSector);
      QuotientBound(m.numberOfSectors, m.bytesPerSector);
    }
  }

  /** What is wrong with a geometry that is refused: a zero, or the first product that does not fit. */
  lemma GeometryErrors(m: Media)
    ensures ComputeGeometry(Some(m)) == Err(InvalidGeometry) <==> m.bytesPerSector == 0 || m.sectorsPerChunk == 0
    ensures ComputeGeometry(Some(m)) == Err(ChunkSizeOverflows) <==> m.sectorsPerChunk * m.bytesPerSector > MAX_INT64
    ensures ComputeGeometry(Some(m)) == Err(DeviceSizeOverflows) <==>
            && 0 < m.bytesPerSector && 0 < m.sectorsPerChunk && m.sectorsPerChunk * m.bytesPerSector <= MAX_INT64
            && m.numberOfSectors * m.bytesPerSector > MAX_INT64
  {
    if 0 < m.bytesPerSector {
      QuotientBound(m.sectorsPerChunk, m.bytesPerSector);
      QuotientBound(m.numberOfSectors, m.bytesPerSector);
    }
  }

  /** A geometry is accepted exactly if it is the one that the volume states. */
  lemma GeometryIff(media: Option<Media>, g: Geometry)
    ensures ComputeGeometry(media) == Ok(g) <==> Gives(media, g)
  {
    match media
    case None =>
    case Some(m) => StatedGeometry(m, g);
  }

  lemma StatedGeometry(m: Media, g: Geometry)
    ensures ComputeGeometry(Some(m)) == Ok(g) <==> Gives(Some(m), g)
  {
    GeometryIsExact(m);
    if ComputeGeometry(Some(m)).Ok? {
      var exact := ComputeGeometry(Some(m)).value;
      assert g == exact <==> g.chunkSize == exact.chunkSize && g.logicalSize == exact.logicalSize;
    }
  }

  // ----- the reader

  /** The device a chunk table describes. */
  function DeviceOf(lib: Library, chunkSize: int, logicalSize: int, first: Source, table: seq<ChunkDescriptor>)
    : (d: Device)
    ensures d.chunkSize == chunkSize && d.size == logicalSize && |d.chunks| == |table|
    ensures forall k :: 0 <= k < |table| ==> d.chunks[k] == DecodeChunk(lib, chunkSize, first, table[k])
  {
    Device(chunkSize, logicalSize,
           seq(|table|, k requires 0 <= k < |table| => DecodeChunk(lib, chunkSize, first, table[k])))
  }

  /** The acquisition digests an image stores. */
  datatype Digests = Digests(md5: Option<seq<byte>>, sha1: Option<seq<byte>>)

  class ImageReader {
    const lib: Library
    const source: Source
    const media: Option<Media>
    const digests: Digests
    const chunkTable: seq<ChunkDescriptor>
    const chunkSize: i64
    const logicalSize: i64
    const cache: ChunkCache?  // null when caching is disabled

    ghost function Dev(): (d: Device)
      ensures d.chunkSize == chunkSize && d.size == logicalSize && |d.chunks| == |chunkTable|
    {
      DeviceOf(lib, chunkSize, logicalSize, source, chunkTable)
    }

    ghost function Repr(): set<object>
      reads cache
    {
      if cache == null then {} else {cache} + (set e: Element | e in cache.order)
    }

    ghost function Depth(): nat {
      if cache == null then 0 else cache.max
    }

    ghost function Cached(): seq<Entry>
      reads cache, Repr()
    {
      if cache == null then [] else cache.Recent()
    }

    ghost predicate Valid()
      reads cache, Repr()
    {
      && ComputeGeometry(media) == Ok(Geometry(chunkSize, logicalSize))
      && (cache != null ==> cache.Valid())
      && Sound(Dev(), Depth(), Cached())
    }

    constructor (
      lib: Library, source: Source, media: Option<Media>, digests: Digests, chunkTable: seq<ChunkDescriptor>,
      geometry: Geometry, depth: int)
      requires ComputeGeometry(media) == Ok(geometry)
      ensures Valid() && fresh(Repr()) && Cached() == []
      ensures Dev() == DeviceOf(lib, geometry.chunkSize, geometry.logicalSize, source, chunkTable)
      ensures this.lib == lib && this.media == media && this.digests == digests
      ensures Depth() == if depth <= 0 then 0 else depth
    {
      this.lib := lib;
      this.source := source;
      this.media := media;
      this.digests := digests;
      this.chunkTable := chunkTable;
      this.chunkSize := geometry.chunkSize;
      this.logicalSize := geometry.logicalSize;
      var c := NewChunkCache(depth);
      this.cache := c;
    }

    /** chunkData: what chunk k decodes to. A cached chunk is not decoded again, and a decoded one is cached. */
    method ChunkData(k: nat) returns (r: Decoded)
      requires Valid() && k < |chunkTable|
      modifies Repr()
      ensures Valid() && fresh(Repr() - old(Repr()))
      ensures r == Dev().chunks[k]
      ensures cache != null ==> Cached() == Access(Dev(), Depth(), old(Cached()), k).0
    {
      AccessIsDecode(Dev(), Depth(), Cached(), k);
      if cache != null {
        var hit := cache.Get(k);
        if hit.Some? {
          return Ok(hit.value);
        }
      }
      r := DecodeChunk(lib, chunkSize, source, chunkTable[k]);
      if r.Ok? && cache != null {
        cache.Put(k, r.value);
      }
    }

    /** The part of a chunk that ReadAt copies when n of want bytes are done, or why there is nothing to copy. */
    method NextPiece(off: i64, n: nat, want: nat, ghost len: nat) returns (r: Decoded)
      requires Valid() && 0 <= off && 0 < chunkSize && 0 < |chunkTable|
      requires n < want <= len && off + want <= logicalSize
      modifies Repr()
      ensures Valid() && fresh(Repr() - old(Repr()))
      ensures r.Ok? ==> 0 < |r.value| <= want - n && Matches(Dev(), off + n, r.value)
      ensures r.Err? ==> !Readable(Dev(), off + n) && StopError(Dev(), off, len, n) == Some(r.error)
    {
      ghost var d := Dev();
      var k := (off + n) / chunkSize;
      var chunkOff := (off + n) % chunkSize;
      if k >= |chunkTable| {
        NothingToCopy(d, off, len, n);
        return Err(EndOfFile);
      }
      var data := ChunkData(k);
      if data.Err? {
        NothingToCopy(d, off, len, n);
        return data;
      }
      var available := |data.value| - chunkOff;
      if chunkSize - chunkOff < available {
        available := chunkSize - chunkOff;
      }
      if available <= 0 {
        NothingToCopy(d, off, len, n);
        return Err(EndOfFile);
      }
      var toCopy := want - n;
      if toCopy > available {
        toCopy := available;
      }
      PieceMatches(d, off + n, toCopy, k, chunkOff, data.value);
      return Ok(data.value[chunkOff..chunkOff + toCopy]);
    }

    /** Copy one piece behind the n bytes already read. */
    method CopyPiece(p: array<byte>, off: i64, n: nat, piece: seq<byte>)
      requires Valid() && n + |piece| <= p.Length
      requires Matches(Dev(), off, p[..n]) && Matches(Dev(), off + n, piece)
      modifies p
      ensures Valid() && Matches(Dev(), off, p[..n + |piece|])
      ensures p[n + |piece|..] == old(p[n + |piece|..])
    {
      MatchesAppend(Dev(), off, p[..n], piece);
      CopyInto(p, n, piece);
    }

    /** One round of ReadAt's loop: copy the next piece, or say why there is none. */
    method CopyNext(p: array<byte>, off: i64, n: nat, want: nat) returns (copied: nat, err: Option<ReadError>)
      requires Valid() && 0 <= off && 0 < chunkSize && 0 < |chunkTable|
      requires n < want <= p.Length && off + want <= logicalSize && Matches(Dev(), off, p[..n])
      modifies p, Repr()
      ensures Valid() && fresh(Repr() - old(Repr()))
      ensures n + copied <= want && Matches(Dev(), off, p[..n + copied])
      ensures p[n + copied..] == old(p[n + copied..])
      ensures err == None ==> copied > 0
      ensures err.Some? ==> copied == 0 && !Readable(Dev(), off + n) && StopError(Dev(), off, p.Length, n) == err
    {
      ghost var contents := p[..];
      var piece := NextPiece(off, n, want, p.Length);
      assert p[..] == contents;
      if piece.Err? {
        return 0, Some(piece.error);
      }
      assert p[..n] == contents[..n];
      CopyPiece(p, off, n, piece.value);
      return |piece.value|, None;
    }

    /** ReadAt's loop over chunks: fill the first want bytes of p, or stop at the first unreadable one. */
    method CopyChunks(p: array<byte>, off: i64, want: nat) returns (n: nat, err: Option<ReadError>)
      requires Valid() && 0 <= off && 0 < chunkSize && 0 < |chunkTable|
      requires 0 < want <= p.Length && off + want <= logicalSize
      modifies p, Repr()
      ensures Valid() && fresh(Repr() - old(Repr()))
      ensures n <= want && Matches(Dev(), off, p[..n])
      ensures p[n..] == old(p[n..])
      ensures if n == want then err == None
              else !Readable(Dev(), off + n) && err == StopError(Dev(), off, p.Length, n) && err.Some?
    {
      ghost var before := p[..];
      n := 0;
      while n < want
        invariant Valid() && fresh(Repr() - old(Repr()))
        invariant n <= want && Matches(Dev(), off, p[..n])
        invariant p[n..] == before[n..]
      {
        ghost var contents := p[..];
        var copied, stop := CopyNext(p, off, n, want);
        DropDrop(contents, n, copied);
        DropDrop(before, n, copied);
        if stop.Some? {
          return n, stop;
        }
        n := n + copied;
      }
      return n, None;
    }

    /**
     * ReadAt: the longest readable prefix of the requested span, copied to the front of p. The rest of p is left
     * alone, and the error says exactly why the read stopped short; there is none iff p was filled.
     */
    method ReadAt(p: array<byte>, off: i64) returns (n: nat, err: Option<ReadError>)
      requires Valid()
      modifies p, Repr()
      ensures Valid() && fresh(Repr() - old(Repr()))
      ensures n <= p.Length && ReadResult(p[..n], err) == Read(Dev(), off, p.Length)
      ensures p[n..] == old(p[n..])
      ensures err == None <==> n == p.Length
    {
      if p.Length == 0 {
        return 0, None;
      }
      if off < 0 || chunkSize <= 0 || logicalSize <= 0 || |chunkTable| == 0 || off >= logicalSize {
        RefusedRead(Dev(), off, p.Length);
        return 0, Some(if off < 0 then InvalidOffset
                       else if chunkSize <= 0 || logicalSize <= 0 then NoMediaGeometry
                       else if |chunkTable| == 0 then NoChunkTable
                       else EndOfFile);
      }
      var want := p.Length;
      if logicalSize - off < want {
        want := logicalSize - off;
      }
      n, err := CopyChunks(p, off, want);
      if n == want && n < p.Length {
        err := Some(EndOfFile);
      }
      StopsCorrectly(Dev(), off, p.Length, p[..n]);
    }
  }

  lemma DropDrop<T>(s: seq<T>, a: nat, b: nat)
    requires a + b <= |s|
    ensures s[a..][b..] == s[a + b..]
  {
  }

  /** copy(p[at:], data) with room for all of data. */
  method CopyInto(p: array<byte>, at: nat, data: seq<byte>)
    requires at + |data| <= p.Length
    modifies p
    ensures p[..at + |data|] == old(p[..at]) + data
    ensures p[at + |data|..] == old(p[at + |data|..])
  {
    forall i | 0 <= i < |data| {
      p[at + i] := data[i];
    }
    assert p[..at + |data|] == p[..at] + p[at..at + |data|];
  }
}
