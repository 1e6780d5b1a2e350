/** One segment file: signature, header, sections, metadata and chunk table. */
module Segments {
  import opened Bytes
  import opened Chunks
  import opened ChunkTables
  import opened ImageReaders
  import opened Openings
  import opened Sections
  import opened SectionsV2
  import opened Sorting
  import opened TableGroups

  const SIGNATURE_EVF1: seq<byte> := [0x45, 0x56, 0x46, 0x09, 0x0d, 0x0a, 0xff, 0x00]
  const SIGNATURE_LVF1: seq<byte> := [0x4c, 0x56, 0x46, 0x09, 0x0d, 0x0a, 0xff, 0x00]
  const SIGNATURE_EVF2: seq<byte> := [0x45, 0x56, 0x46, 0x32, 0x0d, 0x0a, 0x81, 0x00]
  const SIGNATURE_LEF2: seq<byte> := [0x4c, 0x45, 0x46, 0x32, 0x0d, 0x0a, 0x81, 0x00]

  const VOLUME_SIZE: int := 1052
  const VOLUME_SMART_SIZE: int := 94
  const MAX_SECTION_PAYLOAD: int := 64 * 1024 * 1024

  /** Section bodies the model does not parse: digest sections, and the text sections of EWF v2. */
  datatype Extractors = Extractors(
    digests: (Source, FileHeader, seq<SectionInfo>) -> Digests,
    mediaV2: (Source, seq<SectionInfo>) -> Option<Media>)

  datatype SegmentError =
    | UnreadableFile
    | UnsupportedFormat
    | CorruptHeader
    | UnsupportedVersion
    | BadChain(error: ChainError)

  function U16(s: seq<byte>): u16
    requires |s| == 2
  {
    (s[0] as int) + (s[1] as int) * 0x100
  }

  function DetectFileType(signature: seq<byte>): Option<FileType> {
    if signature == SIGNATURE_EVF1 then Some(EWF1)
    else if signature == SIGNATURE_LVF1 then Some(EWF1Logical)
    else if signature == SIGNATURE_EVF2 then Some(EWF2)
    else if signature == SIGNATURE_LEF2 then Some(EWF2Logical)
    else None
  }

  function ParseFileHeader(src: Source, fileType: FileType): Result<FileHeader, SegmentError> {
    match fileType
    case EWF1 | EWF1Logical =>
      (match ReadSlice(src, 0, 13)
       case None => Err(UnreadableFile)
       case Some(data) =>
         if data[8] != 1 || data[11] != 0 || data[12] != 0 then Err(CorruptHeader)
         else Ok(FileHeader(1, 0, CODEC_NONE, U16(data[9..11]))))
    case EWF2 | EWF2Logical =>
      (match ReadSlice(src, 0, 32)
       case None => Err(UnreadableFile)
       case Some(data) => Ok(FileHeader(data[8], data[9], U16(data[10..12]), U32(data[12..16]))))
  }

  /** The file starts with the signature of its type. */
  ghost predicate Signed(src: Source, fileType: FileType) {
    |src| >= 8 && src[..8] ==
                  match fileType
                  case EWF1 => [0x45, 0x56, 0x46, 0x09, 0x0d, 0x0a, 0xff, 0x00]
                  case EWF1Logical => [0x4c, 0x56, 0x46, 0x09, 0x0d, 0x0a, 0xff, 0x00]
                  case EWF2 => [0x45, 0x56, 0x46, 0x32, 0x0d, 0x0a, 0x81, 0x00]
                  case EWF2Logical => [0x4c, 0x45, 0x46, 0x32, 0x0d, 0x0a, 0x81, 0x00]
  }

  predicate IsV1(fileType: FileType) {
    fileType.EWF1? || fileType.EWF1Logical?
  }

  /** What the bytes behind the signature say. */
  ghost predicate Headed(src: Source, fileType: FileType, header: FileHeader) {
    if IsV1(fileType) then
      |src| >= 13 && src[8] == 1 && src[11] == src[12] == 0 &&
      header == FileHeader(1, 0, 0, src[9] as int + 0x100 * src[10] as int)
    else
      |src| >= 32 &&
      header == FileHeader(src[8], src[9], src[10] as int + 0x100 * src[11] as int, U32(src[12..16]))
  }

  lemma SignatureIff(src: Source, fileType: FileType)
    ensures ReadSlice(src, 0, 8).Some? && DetectFileType(ReadSlice(src, 0, 8).value) == Some(fileType) <==>
            Signed(src, fileType)
  {
    if |src| >= 8 {
      assert src[0..8] == src[..8];
      SignaturesDiffer();
    }
  }

  lemma SignaturesDiffer()
    ensures SIGNATURE_EVF1[0] != SIGNATURE_LVF1[0] && SIGNATURE_EVF1[3] != SIGNATURE_EVF2[3]
    ensures SIGNATURE_EVF1[0] != SIGNATURE_LEF2[0] && SIGNATURE_LVF1[0] != SIGNATURE_EVF2[0]
    ensures SIGNATURE_LVF1[3] != SIGNATURE_LEF2[3] && SIGNATURE_EVF2[0] != SIGNATURE_LEF2[0]
  {
  }

  lemma HeaderV1Iff(src: Source, header: FileHeader)
    ensures ParseFileHeader(src, EWF1) == Ok(header) <==> Headed(src, EWF1, header)
  {
    if |src| >= 13 {
      var data := src[0..13];
      assert data[9..11] == [src[9], src[10]];
    }
  }

  lemma HeaderV2Iff(src: Source, header: FileHeader)
    ensures ParseFileHeader(src, EWF2) == Ok(header) <==> Headed(src, EWF2, header)
  {
    if |src| >= 32 {
      var data := src[0..32];
      assert data[10..12] == [src[10], src[11]];
      SliceOfSlice(src, 0, 32, 12, 16);
    }
  }

  lemma HeaderIff(src: Source, fileType: FileType, header: FileHeader)
    ensures ParseFileHeader(src, fileType) == Ok(header) <==> Headed(src, fileType, header)
  {
    if IsV1(fileType) {
      HeaderV1Iff(src, header);
    } else {
      HeaderV2Iff(src, header);
    }
  }

  function ParseSections(src: Source, majorVersion: byte): Result<seq<SectionInfo>, SegmentError> {
    if majorVersion == 1 then Wrapped(WalkV1(src))
    else if majorVersion == 2 then Wrapped(WalkV2(src))
    else Err(UnsupportedVersion)
  }

  function Wrapped(c: Chain): Result<seq<SectionInfo>, SegmentError> {
    match c
    case Err(e) => Err(BadChain(e))
    case Ok(ss) => Ok(ss)
  }

  /** The sections of the file: a chain forward from its header, or where its links lead back from its end. */
  ghost predicate HasSections(src: Source, majorVersion: byte, ss: seq<SectionInfo>) {
    if majorVersion == 1 then IsChain(DescriptorsV1(src), 13, ss) && |ss| <= 0x1_0000
    else majorVersion == 2 && LinkedSections(src, ss)
  }

  lemma SectionsIff(src: Source, majorVersion: byte, ss: seq<SectionInfo>)
    ensures ParseSections(src, majorVersion) == Ok(ss) <==> HasSections(src, majorVersion, ss)
  {
    WalkFindsChain(DescriptorsV1(src), FILE_HEADER_V1_SIZE, MAX_SECTIONS, ss);
    WalkV2FindsLinked(src, ss);
  }

  // ----- metadata

  /** The bytes of a section's body that are not padding. */
  function PayloadSize(s: SectionInfo): int {
    if s.paddingSize > 0 && s.dataSize > s.paddingSize then s.dataSize - s.paddingSize else s.dataSize
  }

  /** A v1 volume section overwrites the geometry met so far; a body too short for one leaves it. */
  function VolumeMedia(src: Source, s: SectionInfo, soFar: Option<Media>): Option<Media> {
    var size := PayloadSize(s);
    if s.typ != TYPE_DEVICE_INFORMATION || size == 0 || size > MAX_SECTION_PAYLOAD then soFar
    else match ReadSlice(src, s.dataOffset, size)
      case None => soFar
      case Some(data) =>
        if |data| >= VOLUME_SIZE then Some(Media(U32(data[8..12]), U32(data[12..16]), U64(data[16..24])))
        else if |data| >= VOLUME_SMART_SIZE then Some(Media(U32(data[8..12]), U32(data[12..16]), U32(data[16..20])))
        else soFar
  }

  function MediaV1(src: Source, sections: seq<SectionInfo>, soFar: Option<Media>): Option<Media>
    decreases |sections|
  {
    if sections == [] then soFar else MediaV1(src, sections[1..], VolumeMedia(src, sections[0], soFar))
  }

  /** By its bytes, the body of a volume section states the geometry m; the short form counts sectors in 32 bits. */
  ghost predicate Volume(src: Source, s: SectionInfo, m: Media) {
    var at := s.dataOffset;
    var n := if 0 < s.paddingSize < s.dataSize then s.dataSize - s.paddingSize else s.dataSize;
    && s.typ == 0x01 && 94 <= n <= 64 * 1024 * 1024 && at + n <= |src|
    && m.sectorsPerChunk == U32(src[at + 8..at + 12]) && m.bytesPerSector == U32(src[at + 12..at + 16])
    && m.numberOfSectors == if n >= 1052 then U64(src[at + 16..at + 24]) else U32(src[at + 16..at + 20])
  }

  lemma StatedVolumeRead(src: Source, s: SectionInfo, soFar: Option<Media>, m: Media)
    requires Volume(src, s, m)
    ensures VolumeMedia(src, s, soFar) == Some(m)
  {
    var at, n := s.dataOffset, PayloadSize(s);
    SliceOfSlice(src, at, at + n, 8, 12);
    SliceOfSlice(src, at, at + n, 12, 16);
    SliceOfSlice(src, at, at + n, 16, 20);
    SliceOfSlice(src, at, at + n, 16, 24);
  }

  lemma OtherVolumeIgnored(src: Source, s: SectionInfo, soFar: Option<Media>)
    requires forall m :: !Volume(src, s, m)
    ensures VolumeMedia(src, s, soFar) == soFar
  {
    var at, n := s.dataOffset, PayloadSize(s);
    if s.typ == 0x01 && 94 <= n <= 64 * 1024 * 1024 && at + n <= |src| {
      assert Volume(src, s, Media(U32(src[at + 8..at + 12]), U32(src[at + 12..at + 16]),
                                  if n >= 1052 then U64(src[at + 16..at + 24]) else U32(src[at + 16..at + 20])));
    }
  }

  /** A volume section that states a geometry replaces the one met so far; any other section leaves it. */
  lemma VolumeRead(src: Source, s: SectionInfo, soFar: Option<Media>)
    ensures forall m :: Volume(src, s, m) ==> VolumeMedia(src, s, soFar) == Some(m)
    ensures (forall m :: !Volume(src, s, m)) ==> VolumeMedia(src, s, soFar) == soFar
  {
    forall m | Volume(src, s, m)
      ensures VolumeMedia(src, s, soFar) == Some(m)
    {
      StatedVolumeRead(src, s, soFar, m);
    }
    if forall m :: !Volume(src, s, m) {
      OtherVolumeIgnored(src, s, soFar);
    }
  }

  /** Section i states the geometry m, and no later one states any. */
  ghost predicate LastVolume(src: Source, sections: seq<SectionInfo>, i: nat, m: Media) {
    && i < |sections| && Volume(src, sections[i], m)
    && forall j, later :: i < j < |sections| ==> !Volume(src, sections[j], later)
  }

  /** The geometry of a v1 segment is that of its last volume section that states one. */
  lemma {:induction false} MediaIsLastVolume(src: Source, sections: seq<SectionInfo>, soFar: Option<Media>)
    ensures forall i: nat, m :: LastVolume(src, sections, i, m) ==> MediaV1(src, sections, soFar) == Some(m)
    ensures (forall i, m :: 0 <= i < |sections| ==> !Volume(src, sections[i], m)) ==>
              MediaV1(src, sections, soFar) == soFar
    decreases |sections|
  {
    if sections != [] {
      var rest := sections[1..];
      VolumeRead(src, sections[0], soFar);
      MediaIsLastVolume(src, rest, VolumeMedia(src, sections[0], soFar));
      assert forall i :: 0 <= i < |rest| ==> rest[i] == sections[i + 1];
      forall i: nat, m | LastVolume(src, sections, i, m)
        ensures MediaV1(src, sections, soFar) == Some(m)
      {
        if i > 0 {
          assert LastVolume(src, rest, i - 1, m);
        }
      }
    }
  }

  predicate SignalsEncryption(s: SectionInfo) {
    s.typ == TYPE_ENCRYPTION_KEYS || s.dataFlags / 2 % 2 == 1
  }

  function MetaOf(ext: Extractors, src: Source, header: FileHeader, sections: seq<SectionInfo>): SegmentMeta {
    SegmentMeta(exists i :: 0 <= i < |sections| && sections[i].typ == TYPE_DONE,
                exists i :: 0 <= i < |sections| && SignalsEncryption(sections[i]),
                if header.majorVersion == 1 then MediaV1(src, sections, None) else ext.mediaV2(src, sections),
                ext.digests(src, header, sections))
  }

  /** No section is an encryption-keys section, and none carries the encrypted flag. */
  ghost predicate Unencrypted(sections: seq<SectionInfo>) {
    forall s :: s in sections ==> s.typ != 0x0b && s.dataFlags / 2 % 2 == 0
  }

  ghost predicate HasDone(sections: seq<SectionInfo>) {
    exists s :: s in sections && s.typ == 0x0f
  }

  lemma MetaOfSections(ext: Extractors, src: Source, header: FileHeader, sections: seq<SectionInfo>)
    ensures var meta := MetaOf(ext, src, header, sections);
            (meta.encrypted <==> !Unencrypted(sections)) && (meta.hasDone <==> HasDone(sections))
  {
  }

  // ----- parsing a segment

  /** parseSegment. */
  function ParseSegment(lib: Library, ext: Extractors, src: Source): Result<Segment, SegmentError> {
    match ReadSlice(src, 0, 8)
    case None => Err(UnreadableFile)
    case Some(signature) =>
      match DetectFileType(signature)
      case None => Err(UnsupportedFormat)
      case Some(fileType) =>
        match ParseFileHeader(src, fileType)
        case Err(e) => Err(e)
        case Ok(header) =>
          match ParseSections(src, header.majorVersion)
          case Err(e) => Err(e)
          case Ok(sections) => Ok(SegmentOf(lib, ext, src, fileType, header, sections))
  }

  function SegmentOf(lib: Library, ext: Extractors, src: Source, fileType: FileType, header: FileHeader,
                     sections: seq<SectionInfo>): Segment {
    var built := BuildTable(lib, src, header, sections);
    Segment(src, fileType, header, sections, MetaOf(ext, src, header, sections), built.table, built.stats)
  }

  /** A source parses exactly if its signature, its header and its sections are in order, and to what they say. */
  lemma ParsesIff(lib: Library, ext: Extractors, src: Source, s: Segment)
    ensures ParseSegment(lib, ext, src) == Ok(s) <==>
            && Signed(src, s.fileType) && Headed(src, s.fileType, s.header)
            && HasSections(src, s.header.majorVersion, s.sections)
            && s == SegmentOf(lib, ext, src, s.fileType, s.header, s.sections)
  {
    SignatureIff(src, s.fileType);
    HeaderIff(src, s.fileType, s.header);
    SectionsIff(src, s.header.majorVersion, s.sections);
  }

  /** Why a source does not parse although its sections would be in order. */
  lemma UnparsedBecause(lib: Library, ext: Extractors, src: Source)
    ensures var r := ParseSegment(lib, ext, src);
            && (r == Err(UnsupportedFormat) <==> |src| >= 8 && forall t :: !Signed(src, t))
            && (r == Err(CorruptHeader) <==>
                && (Signed(src, EWF1) || Signed(src, EWF1Logical)) && |src| >= 13
                && !(src[8] == 1 && src[11] == src[12] == 0))
            && (r == Err(UnsupportedVersion) <==>
                && (Signed(src, EWF2) || Signed(src, EWF2Logical)) && |src| >= 32 && src[8] != 1 && src[8] != 2)
            && (r == Err(UnreadableFile) <==>
                || |src| < 8
                || (|src| < 13 && (Signed(src, EWF1) || Signed(src, EWF1Logical)))
                || (|src| < 32 && (Signed(src, EWF2) || Signed(src, EWF2Logical))))
  {
    SignatureIff(src, EWF1);
    SignatureIff(src, EWF1Logical);
    SignatureIff(src, EWF2);
    SignatureIff(src, EWF2Logical);
  }

  lemma V1Sections(src: Source, ss: seq<SectionInfo>)
    requires HasSections(src, 1, ss)
    ensures forall s :: s in ss ==> s.descriptorSize == 76
  {
    var read := DescriptorsV1(src);
    assert forall i :: 0 <= i < |ss| ==> read(ss[i].offset) == Some(ss[i]);
  }

  /** What a parsed segment says of itself, by its sections: encryption, its end, and in v1 its geometry. */
  lemma ParsedMeta(lib: Library, ext: Extractors, src: Source)
    requires ParseSegment(lib, ext, src).Ok?
    ensures var s := ParseSegment(lib, ext, src).value;
            && (s.meta.encrypted <==> !Unencrypted(s.sections)) && (s.meta.hasDone <==> HasDone(s.sections))
            && (s.header.majorVersion == 1 ==>
                  && (forall i: nat, m :: LastVolume(src, s.sections, i, m) ==> s.meta.media == Some(m))
                  && ((forall i, m :: 0 <= i < |s.sections| ==> !Volume(src, s.sections[i], m)) ==>
                        s.meta.media == None))
  {
    var s := ParseSegment(lib, ext, src).value;
    ParsesIff(lib, ext, src, s);
    MetaOfSections(ext, src, s.header, s.sections);
    if s.header.majorVersion == 1 {
      MediaIsLastVolume(src, s.sections, None);
    }
  }

  /** The chunk table of a parsed segment is empty only if no table section of it holds entries. */
  lemma ParsedTableEmptyIff(lib: Library, ext: Extractors, src: Source)
    requires ParseSegment(lib, ext, src).Ok?
    ensures var s := ParseSegment(lib, ext, src).value;
            s.chunkTable == [] <==> forall t :: t in s.sections && t.typ == 0x04 ==> !Holds(src, t)
  {
    var s := ParseSegment(lib, ext, src).value;
    ParsesIff(lib, ext, src, s);
    if s.header.majorVersion == 1 {
      V1Sections(src, s.sections);
    } else {
      V2Sections(src, s.sections);
    }
    TablesAmong(s.sections);
    TableEmptyIff(lib, src, s.header, SectorTables(s.sections));
  }

  lemma V2Sections(src: Source, ss: seq<SectionInfo>)
    requires LinkedSections(src, ss)
    ensures forall s :: s in ss ==> s.descriptorSize == 64
  {
    assert forall i :: 0 <= i < |ss| ==> ReadDescriptorV2(src, ss[i].offset) == Ok(ss[i]);
  }

  lemma {:induction false} TablesAmong(sections: seq<SectionInfo>)
    ensures forall t :: t in SectorTables(sections) <==> t in sections && t.typ == 0x04
    decreases |sections|
  {
    if sections != [] {
      TablesAmong(sections[1..]);
      assert sections == [sections[0]] + sections[1..];
    }
  }

  lemma ParsedTableIsBuilt(lib: Library, ext: Extractors, src: Source)
    requires ParseSegment(lib, ext, src).Ok?
    ensures TableBuilt(lib, ParseSegment(lib, ext, src).value)
  {
  }

  datatype SetError = SegmentFailed(index: nat, error: SegmentError) | SetRefused(refusal: OpenError)

  function Parser(lib: Library, ext: Extractors): Source -> Result<Segment, SegmentError> {
    (src: Source) => ParseSegment(lib, ext, src)
  }

  /** segs are the sources, parsed. */
  ghost predicate Parses(parse: Source -> Result<Segment, SegmentError>, sources: seq<Source>, segs: seq<Segment>) {
    |segs| == |sources| && forall i :: 0 <= i < |sources| ==> parse(sources[i]) == Ok(segs[i])
  }

  method ParseAll(parse: Source -> Result<Segment, SegmentError>, sources: seq<Source>)
    returns (r: Result<seq<Segment>, SetError>)
    ensures r.Ok? ==> Parses(parse, sources, r.value)
    ensures r.Err? ==>
              && r.error.SegmentFailed? && r.error.index < |sources|
              && parse(sources[r.error.index]) == Err(r.error.error)
              && forall i :: 0 <= i < r.error.index ==> parse(sources[i]).Ok?
  {
    var segs: seq<Segment> := [];
    for i := 0 to |sources|
      invariant |segs| == i && forall k :: 0 <= k < i ==> parse(sources[k]) == Ok(segs[k])
    {
      var s := parse(sources[i]);
      if s.Err? {
        return Err(SegmentFailed(i, s.error));
      }
      segs := segs + [s.value];
    }
    return Ok(segs);
  }

  lemma AllTablesBuilt(lib: Library, ext: Extractors, sources: seq<Source>, segs: seq<Segment>)
    requires Parses(Parser(lib, ext), sources, segs)
    ensures forall s :: s in segs ==> TableBuilt(lib, s)
  {
    var parse := Parser(lib, ext);
    forall i | 0 <= i < |segs|
      ensures TableBuilt(lib, segs[i])
    {
      assert parse(sources[i]) == Ok(segs[i]);
      ParsedTableIsBuilt(lib, ext, sources[i]);
    }
  }

  lemma {:induction false} StrictMembers(lib: Library, segs: seq<Segment>, sorted: seq<Segment>, opts: Options)
    requires opts.policy == Warn && SortOf(BY_NUMBER, segs, sorted) && forall s :: s in segs ==> TableBuilt(lib, s)
    ensures OpenSorted(sorted, opts.(policy := Strict)).Ok? <==>
            OpenSorted(sorted, opts).Ok? && forall s :: s in segs ==> AllGroupsVerified(lib, s)
  {
    SameElements(sorted, segs);
    StrictPolicyIsEndToEnd(lib, sorted, opts);
  }

  /** Of sources that parse, however sorted, the strict policy opens what the default does with every group verified. */
  lemma StrictSources(
    lib: Library, ext: Extractors, sources: seq<Source>, segs: seq<Segment>, sorted: seq<Segment>, opts: Options)
    requires opts.policy == Warn && Parses(Parser(lib, ext), sources, segs) && SortOf(BY_NUMBER, segs, sorted)
    ensures OpenSorted(sorted, opts.(policy := Strict)).Ok? <==>
            OpenSorted(sorted, opts).Ok? && forall s :: s in segs ==> AllGroupsVerified(lib, s)
  {
    AllTablesBuilt(lib, ext, sources, segs);
    StrictMembers(lib, segs, sorted, opts);
  }

  /** Somehow ordered, the segments are one family, numbered 1, 2, ... up to one with a done section. */
  ghost predicate CompleteSet(segs: seq<Segment>) {
    exists order :: SortOf(BY_NUMBER, segs, order) && OneFamily(order) && Complete(order)
  }

  /** The segments have opened as o, in the order of their numbers. */
  ghost predicate OpenedFrom(segs: seq<Segment>, opts: Options, o: Opened) {
    exists order :: SortOf(BY_NUMBER, segs, order) && OpensAs(order, opts, o)
  }

  lemma {:induction false} CompleteSetSorts(segs: seq<Segment>, sorted: seq<Segment>, opts: Options)
    requires CompleteSet(segs) && SortOf(BY_NUMBER, segs, sorted)
    ensures ValidSet(sorted, opts)
  {
    var order :| SortOf(BY_NUMBER, segs, order) && OneFamily(order) && Complete(order);
    assert StrictlySorted(BY_NUMBER, order);
    SortIsUnique(BY_NUMBER, order, sorted);
  }

  lemma AllMeta(lib: Library, ext: Extractors, sources: seq<Source>, segs: seq<Segment>)
    requires Parses(Parser(lib, ext), sources, segs)
    ensures forall s :: s in segs ==> (s.meta.encrypted <==> !Unencrypted(s.sections))
  {
    var parse := Parser(lib, ext);
    forall i | 0 <= i < |segs|
      ensures segs[i].meta.encrypted <==> !Unencrypted(segs[i].sections)
    {
      assert parse(sources[i]) == Ok(segs[i]);
      ParsedMeta(lib, ext, sources[i]);
    }
  }

  /** Of parsed segments: nothing of a set that opens is encrypted, and a complete set is refused if anything is. */
  lemma {:induction false} EncryptionRefused(
    lib: Library, ext: Extractors, sources: seq<Source>, segs: seq<Segment>, sorted: seq<Segment>, opts: Options)
    requires Parses(Parser(lib, ext), sources, segs) && SortOf(BY_NUMBER, segs, sorted)
    ensures OpenSorted(sorted, opts).Ok? ==> forall s :: s in segs ==> Unencrypted(s.sections)
    ensures CompleteSet(segs) ==>
              (OpenSorted(sorted, opts) == Err(EncryptedImage) <==> exists s :: s in segs && !Unencrypted(s.sections))
  {
    AllMeta(lib, ext, sources, segs);
    SameElements(sorted, segs);
    if OpenSorted(sorted, opts).Ok? {
      OpensIff(sorted, opts, OpenSorted(sorted, opts).value);
    }
    if CompleteSet(segs) {
      CompleteSetSorts(segs, sorted, opts);
      RefusedFor(sorted, opts);
    }
  }

  /**
   * OpenSegmentsWithOptions: the first source that does not parse, or whatever opening makes of the segments, whichever
   * way the sort falls. What the strict policy opens consists of verified tables alone, and no policy opens anything
   * encrypted.
   */
  method OpenSources(lib: Library, ext: Extractors, sources: seq<Source>, opts: Options)
    returns (r: Result<Opened, SetError>, ghost segs: seq<Segment>)
    ensures sources == [] ==> r == Err(SetRefused(NoSources))
    ensures r.Ok? ==> Parses(Parser(lib, ext), sources, segs) && ForEverySort(segs, opts, Ok(r.value))
    ensures r.Ok? ==> OpenedFrom(segs, opts, r.value) && forall s :: s in segs ==> Unencrypted(s.sections)
    ensures CompleteSet(segs) && (exists s :: s in segs && !Unencrypted(s.sections)) ==>
              r == Err(SetRefused(EncryptedImage))
    ensures r.Err? && r.error.SetRefused? && sources != [] ==>
              Parses(Parser(lib, ext), sources, segs) && ForEverySort(segs, opts, Err(r.error.refusal))
    ensures r.Err? && r.error.SegmentFailed? ==>
              && r.error.index < |sources| && ParseSegment(lib, ext, sources[r.error.index]) == Err(r.error.error)
              && forall i :: 0 <= i < r.error.index ==> ParseSegment(lib, ext, sources[i]).Ok?
    ensures r.Ok? && opts.policy == Strict ==> forall s :: s in segs ==> AllGroupsVerified(lib, s)
  {
    segs := [];
    if |sources| == 0 {
      return Err(SetRefused(NoSources)), segs;
    }
    var parse := Parser(lib, ext);
    var parsed := ParseAll(parse, sources);
    if parsed.Err? {
      assert forall i :: 0 <= i < |sources| ==> parse(sources[i]) == ParseSegment(lib, ext, sources[i]);
      return Err(parsed.error), segs;
    }
    segs := parsed.value;
    var outcome;
    ghost var order;
    outcome, order := OpenSegments(parsed.value, opts);
    EncryptionRefused(lib, ext, sources, segs, order, opts);
    match outcome {
      case Err(e) => r := Err(SetRefused(e));
      case Ok(o) =>
        r := Ok(o);
        StrictSources(lib, ext, sources, segs, order, opts.(policy := Warn));
    }
  }
}
