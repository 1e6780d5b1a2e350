/** Opening a segment set: sort, validate, merge, apply the checksum policy, derive the geometry. */
module Openings {
  import opened Bytes
  import opened ChunkCaches
  import opened Chunks
  import opened ChunkTables
  import opened ImageReaders
  import opened Sections
  import opened Sorting
  import opened TableGroups
  import opened TableProperties

  datatype FileType = EWF1 | EWF1Logical | EWF2 | EWF2Logical

  /** The parts of a segment's metadata that opening looks at. */
  datatype SegmentMeta = SegmentMeta(hasDone: bool, encrypted: bool, media: Option<Media>, digests: Digests)

  datatype Segment = Segment(
    source: Source,
    fileType: FileType,
    header: FileHeader,
    sections: seq<SectionInfo>,
    meta: SegmentMeta,
    chunkTable: seq<ChunkDescriptor>,
    stats: Stats)

  datatype ChecksumPolicy = Warn | Ignore | Strict

  datatype Options = Options(allowIncomplete: bool, policy: ChecksumPolicy, cacheChunks: int)

  datatype OpenError =
    | NoSources
    | Corrupt
    | MissingSegment
    | IncompleteSet
    | EncryptedImage
    | ChecksumMismatch
    | BadGeometry(error: GeometryError)

  /** The merged metadata, with the counters of checksum failures. */
  datatype Merged = Merged(meta: SegmentMeta, recovered: nat, invalid: nat)

  /** Everything a reader is made from. */
  datatype Opened = Opened(
    first: Segment, merged: Merged, chunkTable: seq<ChunkDescriptor>, geometry: Geometry, depth: int)

  function Number(s: Segment): u32 { s.header.segmentNumber }

  const BY_NUMBER: Segment -> int := s => Number(s)

  ghost predicate InOrder(segs: seq<Segment>) {
    Sorted(BY_NUMBER, segs)
  }

  // ----- validation

  /** The checks on segment i of a sorted set. */
  function CheckSegment(segs: seq<Segment>, i: nat, opts: Options): Option<OpenError>
    requires i < |segs|
  {
    var want := (i + 1) % 0x1_0000_0000;
    if segs[i].header.majorVersion != segs[0].header.majorVersion then Some(Corrupt)
    else if segs[i].fileType != segs[0].fileType then Some(Corrupt)
    else if exists j :: 0 <= j < i && Number(segs[j]) == Number(segs[i]) then Some(Corrupt)
    else if Number(segs[i]) != want && !opts.allowIncomplete then
      Some(if Number(segs[i]) > want then MissingSegment else IncompleteSet)
    else None
  }

  /** The first complaint about segments i, i + 1, ... of a sorted set, or about its end. */
  function Complaint(segs: seq<Segment>, i: nat, opts: Options): Option<OpenError>
    requires i <= |segs| && segs != []
    decreases |segs| - i
  {
    if i == |segs| then
      if !opts.allowIncomplete && !segs[|segs| - 1].meta.hasDone then Some(IncompleteSet) else None
    else
      var c := CheckSegment(segs, i, opts);
      if c.Some? then c else Complaint(segs, i + 1, opts)
  }

  /** validateSegmentSet, with the set of numbers it has seen. */
  method ValidateSegmentSet(segs: seq<Segment>, opts: Options) returns (r: Option<OpenError>)
    requires segs != []
    ensures r == Complaint(segs, 0, opts)
  {
    var first := segs[0];
    var seen: set<u32> := {};
    for i := 0 to |segs|
      invariant Complaint(segs, 0, opts) == Complaint(segs, i, opts)
      invariant forall n :: n in seen <==> exists j :: 0 <= j < i && Number(segs[j]) == n
    {
      var segment := segs[i];
      if segment.header.majorVersion != first.header.majorVersion {
        return Some(Corrupt);
      }
      if segment.fileType != first.fileType {
        return Some(Corrupt);
      }
      if Number(segment) in seen {
        return Some(Corrupt);
      }
      seen := seen + {Number(segment)};
      var want := (i + 1) % 0x1_0000_0000;
      if Number(segment) != want {
        if opts.allowIncomplete {
          continue;
        }
        if Number(segment) > want {
          return Some(MissingSegment);
        }
        return Some(IncompleteSet);
      }
    }
    if !opts.allowIncomplete && !segs[|segs| - 1].meta.hasDone {
      return Some(IncompleteSet);
    }
    return None;
  }

  ghost predicate OneFamily(segs: seq<Segment>) {
    forall i :: 0 <= i < |segs| ==>
      segs[i].header.majorVersion == segs[0].header.majorVersion && segs[i].fileType == segs[0].fileType
  }

  /** Numbered 1, 2, ... without a hole, and closed by a done section. */
  ghost predicate Complete(segs: seq<Segment>) {
    && segs != []
    && (forall i :: 0 <= i < |segs| ==> Number(segs[i]) == i + 1)
    && segs[|segs| - 1].meta.hasDone
  }

  lemma {:induction false} NoComplaintFrom(segs: seq<Segment>, i: nat, opts: Options)
    requires i <= |segs| && segs != []
    ensures Complaint(segs, i, opts) == None <==>
            && (forall k :: i <= k < |segs| ==> CheckSegment(segs, k, opts) == None)
            && (!opts.allowIncomplete ==> segs[|segs| - 1].meta.hasDone)
    decreases |segs| - i
  {
    if i < |segs| {
      NoComplaintFrom(segs, i + 1, opts);
    }
  }

  /** A sorted set without complaint has distinct numbers, so its order is the only sorted one. */
  lemma {:induction false} ValidIsStrict(segs: seq<Segment>, opts: Options)
    requires segs != [] && InOrder(segs) && Complaint(segs, 0, opts) == None
    ensures StrictlySorted(BY_NUMBER, segs)
  {
    NoComplaintFrom(segs, 0, opts);
    forall i, j | 0 <= i < j < |segs|
      ensures Number(segs[i]) < Number(segs[j])
    {
      assert CheckSegment(segs, j, opts) == None;
    }
  }

  /** In strict mode a sorted set is valid if and only if it is one family numbered exactly 1..n and closed by done. */
  lemma {:induction false} StrictlyValidIff(segs: seq<Segment>, opts: Options)
    requires segs != [] && InOrder(segs) && !opts.allowIncomplete
    ensures Complaint(segs, 0, opts) == None <==> OneFamily(segs) && Complete(segs)
  {
    NoComplaintFrom(segs, 0, opts);
    if |segs| >= TWO_32 {
      LongSetComplains(segs, opts);
    }
    if Complaint(segs, 0, opts) == None {
      forall i | 0 <= i < |segs|
        ensures Number(segs[i]) == i + 1
        ensures segs[i].header.majorVersion == segs[0].header.majorVersion && segs[i].fileType == segs[0].fileType
      {
        assert CheckSegment(segs, i, opts) == None;
      }
    }
  }

  /** A set longer than the 32-bit numbers allow is never valid: the wanted number wraps to zero. */
  lemma LongSetComplains(segs: seq<Segment>, opts: Options)
    requires InOrder(segs) && !opts.allowIncomplete && |segs| >= TWO_32
    ensures CheckSegment(segs, TWO_32 - 2, opts).Some? || CheckSegment(segs, TWO_32 - 1, opts).Some?
  {
    assert Number(segs[TWO_32 - 2]) <= Number(segs[TWO_32 - 1]);
  }

  /** One family with distinct numbers, and unless the set may be incomplete, all of them up to a done section. */
  ghost predicate ValidSet(segs: seq<Segment>, opts: Options) {
    OneFamily(segs) && StrictlySorted(BY_NUMBER, segs) && (opts.allowIncomplete || Complete(segs))
  }

  /** A set that may be incomplete has nothing to complain about but a mix of families or a number used twice. */
  lemma {:induction false} LenientlyValidIff(segs: seq<Segment>, opts: Options)
    requires segs != [] && InOrder(segs) && opts.allowIncomplete
    ensures Complaint(segs, 0, opts) == if ValidSet(segs, opts) then None else Some(Corrupt)
  {
    NoComplaintFrom(segs, 0, opts);
    OnlyCorrupt(segs, 0, opts);
    if ValidSet(segs, opts) {
      forall k | 0 <= k < |segs|
        ensures CheckSegment(segs, k, opts) == None
      {
        assert forall j :: 0 <= j < k ==> BY_NUMBER(segs[j]) < BY_NUMBER(segs[k]);
      }
    } else if Complaint(segs, 0, opts) == None {
      ValidIsStrict(segs, opts);
      forall k | 0 <= k < |segs|
        ensures segs[k].header.majorVersion == segs[0].header.majorVersion && segs[k].fileType == segs[0].fileType
      {
        assert CheckSegment(segs, k, opts) == None;
      }
    }
  }

  lemma {:induction false} OnlyCorrupt(segs: seq<Segment>, i: nat, opts: Options)
    requires i <= |segs| && segs != [] && opts.allowIncomplete
    ensures Complaint(segs, i, opts) == None || Complaint(segs, i, opts) == Some(Corrupt)
    decreases |segs| - i
  {
    if i < |segs| {
      OnlyCorrupt(segs, i + 1, opts);
    }
  }

  lemma {:induction false} ValidIff(segs: seq<Segment>, opts: Options)
    requires segs != [] && InOrder(segs)
    ensures Complaint(segs, 0, opts) == None <==> ValidSet(segs, opts)
  {
    if opts.allowIncomplete {
      LenientlyValidIff(segs, opts);
    } else {
      StrictlyValidIff(segs, opts);
      if Complaint(segs, 0, opts) == None {
        ValidIsStrict(segs, opts);
      }
    }
  }

  ghost predicate HasSegment(segs: seq<Segment>, n: int) {
    exists i :: 0 <= i < |segs| && Number(segs[i]) == n
  }

  /** A number below the last one that no segment has. */
  ghost predicate HasHole(segs: seq<Segment>)
    requires segs != []
  {
    exists n: nat :: 1 <= n < Number(segs[|segs| - 1]) && !HasSegment(segs, n)
  }

  lemma {:induction false} NumbersReach(segs: seq<Segment>, i: nat)
    requires StrictlySorted(BY_NUMBER, segs) && i < |segs|
    ensures Number(segs[i]) >= Number(segs[0]) + i
  {
    if i > 0 {
      NumbersReach(segs, i - 1);
      assert BY_NUMBER(segs[i - 1]) < BY_NUMBER(segs[i]);
    }
  }

  /** The first segment whose number is not its place: the complaint is about it. */
  lemma {:induction false} ComplaintAt(segs: seq<Segment>, i: nat, at: nat, opts: Options)
    requires OneFamily(segs) && StrictlySorted(BY_NUMBER, segs) && !opts.allowIncomplete
    requires i <= at < |segs| && Number(segs[at]) != at + 1
    requires forall k :: 0 <= k < at ==> Number(segs[k]) == k + 1
    ensures Complaint(segs, i, opts) == Some(if Number(segs[at]) > at + 1 then MissingSegment else IncompleteSet)
    decreases at - i
  {
    assert forall j :: 0 <= j < i ==> BY_NUMBER(segs[j]) < BY_NUMBER(segs[i]);
    NumbersReach(segs, at);
    if i < at {
      ComplaintAt(segs, i + 1, at, opts);
    }
  }

  lemma {:induction false} FirstMisplaced(segs: seq<Segment>, from: nat) returns (at: nat)
    requires from <= |segs| && forall k :: 0 <= k < from ==> Number(segs[k]) == k + 1
    ensures at <= |segs| && (at < |segs| ==> Number(segs[at]) != at + 1)
    ensures forall k :: 0 <= k < at ==> Number(segs[k]) == k + 1
    decreases |segs| - from
  {
    if from == |segs| || Number(segs[from]) != from + 1 {
      at := from;
    } else {
      at := FirstMisplaced(segs, from + 1);
    }
  }

  /**
   * What else is wrong with a set of one family with distinct numbers: a segment is missing if a number below the last
   * one is; else the set is incomplete, because it starts at number zero or has no done section at its end.
   */
  lemma {:induction false} ComplaintMeans(segs: seq<Segment>, opts: Options)
    requires segs != [] && OneFamily(segs) && StrictlySorted(BY_NUMBER, segs) && !opts.allowIncomplete
    ensures Complaint(segs, 0, opts) ==
            if Number(segs[0]) == 0 then Some(IncompleteSet)
            else if HasHole(segs) then Some(MissingSegment)
            else if !segs[|segs| - 1].meta.hasDone then Some(IncompleteSet)
            else None
  {
    var at := FirstMisplaced(segs, 0);
    NumbersReach(segs, |segs| - 1);
    if at < |segs| {
      ComplaintAt(segs, 0, at, opts);
      NumbersReach(segs, at);
      if Number(segs[0]) > 0 {
        HoleAt(segs, at);
      }
    } else {
      NoneMisplaced(segs, opts);
    }
  }

  lemma {:induction false} HoleAt(segs: seq<Segment>, at: nat)
    requires StrictlySorted(BY_NUMBER, segs) && at < |segs| && Number(segs[at]) > at + 1
    requires forall k :: 0 <= k < at ==> Number(segs[k]) == k + 1
    ensures HasHole(segs)
  {
    forall i | 0 <= i < |segs|
      ensures Number(segs[i]) != at + 1
    {
      assert at < i ==> BY_NUMBER(segs[at]) < BY_NUMBER(segs[i]);
    }
    assert at < |segs| - 1 ==> BY_NUMBER(segs[at]) < BY_NUMBER(segs[|segs| - 1]);
    assert !HasSegment(segs, at + 1);
  }

  lemma {:induction false} NoneMisplaced(segs: seq<Segment>, opts: Options)
    requires segs != [] && OneFamily(segs) && !opts.allowIncomplete && |segs| < TWO_32
    requires forall k :: 0 <= k < |segs| ==> Number(segs[k]) == k + 1
    ensures !HasHole(segs)
    ensures Complaint(segs, 0, opts) == if segs[|segs| - 1].meta.hasDone then None else Some(IncompleteSet)
  {
    forall n: nat | 1 <= n < Number(segs[|segs| - 1])
      ensures HasSegment(segs, n)
    {
      assert Number(segs[n - 1]) == n;
    }
    OnlyDoneMissing(segs, 0, opts);
  }

  lemma {:induction false} OnlyDoneMissing(segs: seq<Segment>, i: nat, opts: Options)
    requires segs != [] && OneFamily(segs) && !opts.allowIncomplete && i <= |segs| < TWO_32
    requires forall k :: 0 <= k < |segs| ==> Number(segs[k]) == k + 1
    ensures Complaint(segs, i, opts) == if segs[|segs| - 1].meta.hasDone then None else Some(IncompleteSet)
    decreases |segs| - i
  {
    if i < |segs| {
      OnlyDoneMissing(segs, i + 1, opts);
    }
  }

  // ----- merging

  function FirstOf<T>(a: Option<T>, b: Option<T>): Option<T> {
    if a.Some? then a else b
  }

  function MergeTwo(m: Merged, s: Segment): Merged {
    Merged(SegmentMeta(m.meta.hasDone || s.meta.hasDone, m.meta.encrypted || s.meta.encrypted,
                       FirstOf(m.meta.media, s.meta.media),
                       Digests(FirstOf(m.meta.digests.md5, s.meta.digests.md5),
                               FirstOf(m.meta.digests.sha1, s.meta.digests.sha1))),
           m.recovered + s.stats.recovered, m.invalid + s.stats.invalid)
  }

  /** mergeSegmentMetadata over the first n segments. */
  function MergeFirst(segs: seq<Segment>, n: nat): Merged
    requires 1 <= n <= |segs|
  {
    if n == 1 then Merged(segs[0].meta, segs[0].stats.recovered, segs[0].stats.invalid)
    else MergeTwo(MergeFirst(segs, n - 1), segs[n - 1])
  }

  ghost predicate IsFirstMedia(segs: seq<Segment>, i: nat)
    requires i < |segs|
  {
    segs[i].meta.media.Some? && forall j :: 0 <= j < i ==> segs[j].meta.media == None
  }

  ghost predicate IsFirstMD5(segs: seq<Segment>, i: nat)
    requires i < |segs|
  {
    segs[i].meta.digests.md5.Some? && forall j :: 0 <= j < i ==> segs[j].meta.digests.md5 == None
  }

  ghost predicate IsFirstSHA1(segs: seq<Segment>, i: nat)
    requires i < |segs|
  {
    segs[i].meta.digests.sha1.Some? && forall j :: 0 <= j < i ==> segs[j].meta.digests.sha1 == None
  }

  /** The digests of a set are the first ones its segments store. */
  lemma {:induction false} MergedDigestsAreFirst(segs: seq<Segment>, n: nat)
    requires 1 <= n <= |segs|
    ensures var d := MergeFirst(segs, n).meta.digests;
            && (d.md5 == None <==> forall i :: 0 <= i < n ==> segs[i].meta.digests.md5 == None)
            && (d.sha1 == None <==> forall i :: 0 <= i < n ==> segs[i].meta.digests.sha1 == None)
            && (forall i :: 0 <= i < n && IsFirstMD5(segs, i) ==> d.md5 == segs[i].meta.digests.md5)
            && (forall i :: 0 <= i < n && IsFirstSHA1(segs, i) ==> d.sha1 == segs[i].meta.digests.sha1)
    decreases n
  {
    if n > 1 {
      MergedDigestsAreFirst(segs, n - 1);
    }
  }

  /**
   * What merging amounts to: a set is encrypted, or has a done section, if any segment says so, and its geometry is
   * that of the first segment which has one.
   */
  lemma {:induction false} MergedIsSummary(segs: seq<Segment>, n: nat)
    requires 1 <= n <= |segs|
    ensures var m := MergeFirst(segs, n).meta;
            && (m.encrypted <==> exists i :: 0 <= i < n && segs[i].meta.encrypted)
            && (m.hasDone <==> exists i :: 0 <= i < n && segs[i].meta.hasDone)
            && (m.media == None <==> forall i :: 0 <= i < n ==> segs[i].meta.media == None)
            && forall i :: 0 <= i < n && IsFirstMedia(segs, i) ==> m.media == segs[i].meta.media
    decreases n
  {
    if n > 1 {
      MergedIsSummary(segs, n - 1);
    }
  }

  /** The statistics of the first n segments. */
  function StatsOfFirst(segs: seq<Segment>, n: nat): (r: seq<Stats>)
    requires n <= |segs|
    ensures |r| == n
  {
    seq(n, i requires 0 <= i < n => segs[i].stats)
  }

  lemma StatsOfOneMore(segs: seq<Segment>, n: nat)
    requires n < |segs|
    ensures SumStats(StatsOfFirst(segs, n + 1)) == AddStats(SumStats(StatsOfFirst(segs, n)), segs[n].stats)
  {
    assert StatsOfFirst(segs, n + 1) == StatsOfFirst(segs, n) + [segs[n].stats];
    SumStatsAppend(StatsOfFirst(segs, n), [segs[n].stats]);
    assert [segs[n].stats][1..] == [];
  }

  ghost predicate Counts(m: Merged, s: Stats) {
    m.recovered == s.recovered && m.invalid == s.invalid
  }

  lemma CountsGrow(m: Merged, s: Segment, before: Stats)
    requires Counts(m, before)
    ensures Counts(MergeTwo(m, s), AddStats(before, s.stats))
  {
  }

  /** The counters of a set are the sums of those of its segments. */
  lemma {:induction false} MergedCounts(segs: seq<Segment>, n: nat)
    requires 1 <= n <= |segs|
    ensures Counts(MergeFirst(segs, n), SumStats(StatsOfFirst(segs, n)))
    decreases n
  {
    StatsOfOneMore(segs, n - 1);
    if n > 1 {
      MergedCounts(segs, n - 1);
      CountsGrow(MergeFirst(segs, n - 1), segs[n - 1], SumStats(StatsOfFirst(segs, n - 1)));
    } else {
      assert StatsOfFirst(segs, 0) == [];
    }
  }

  function Tables(segs: seq<Segment>): seq<ChunkDescriptor> {
    if segs == [] then [] else segs[0].chunkTable + Tables(segs[1..])
  }

  method MergeTables(segs: seq<Segment>) returns (table: seq<ChunkDescriptor>)
    ensures table == Tables(segs)
  {
    table := [];
    for i := 0 to |segs|
      invariant table + Tables(segs[i..]) == Tables(segs)
    {
      assert segs[i..][1..] == segs[i + 1..];
      assert table + (segs[i].chunkTable + Tables(segs[i + 1..])) == table + segs[i].chunkTable + Tables(segs[i + 1..]);
      table := table + segs[i].chunkTable;
    }
  }

  method MergeMetadata(segs: seq<Segment>) returns (merged: Merged)
    requires segs != []
    ensures merged == MergeFirst(segs, |segs|)
  {
    merged := Merged(segs[0].meta, segs[0].stats.recovered, segs[0].stats.invalid);
    for i := 1 to |segs|
      invariant merged == MergeFirst(segs, i)
    {
      merged := MergeTwo(merged, segs[i]);
    }
  }

  // ----- sets that open

  /** One family, numbered 1..n, closed by done, and nothing of it encrypted. */
  ghost predicate OpenSet(segs: seq<Segment>) {
    OneFamily(segs) && Complete(segs) && forall i :: 0 <= i < |segs| ==> !segs[i].meta.encrypted
  }

  lemma {:induction false} CompleteIsValid(segs: seq<Segment>, opts: Options)
    requires OneFamily(segs) && Complete(segs) && |segs| < TWO_32
    ensures StrictlySorted(BY_NUMBER, segs) && Complaint(segs, 0, opts) == None
  {
    NoComplaintFrom(segs, 0, opts);
    forall k | 0 <= k < |segs|
      ensures CheckSegment(segs, k, opts) == None
    {
    }
  }

  // ----- opening

  /** The outcome once the segments are sorted. */
  function OpenSorted(segs: seq<Segment>, opts: Options): Result<Opened, OpenError> {
    if segs == [] then Err(NoSources)
    else
      var complaint := Complaint(segs, 0, opts);
      if complaint.Some? then Err(complaint.value)
      else
        var merged := MergeFirst(segs, |segs|);
        if merged.meta.encrypted then Err(EncryptedImage)
        else if opts.policy == Strict && merged.invalid > 0 then Err(ChecksumMismatch)
        else match ComputeGeometry(merged.meta.media)
          case Err(e) => Err(BadGeometry(e))
          case Ok(g) =>
            var reported := if opts.policy == Ignore then merged.(recovered := 0, invalid := 0) else merged;
            Ok(Opened(segs[0], reported, Tables(segs), g, EffectiveCacheChunks(opts.cacheChunks, g.chunkSize)))
  }

  /**
   * Such a set is refused only for the sake of invalid tables, and only by the strict policy; opened, it is the tables
   * of its segments.
   */
  lemma {:induction false} OpenSetOpens(segs: seq<Segment>, g: Geometry, opts: Options)
    requires OpenSet(segs) && |segs| < TWO_32
    requires ComputeGeometry(MergeFirst(segs, |segs|).meta.media) == Ok(g)
    ensures var merged := MergeFirst(segs, |segs|);
            if opts.policy == Strict && merged.invalid > 0 then OpenSorted(segs, opts) == Err(ChecksumMismatch)
            else
              var r := OpenSorted(segs, opts);
              && r.Ok? && r.value.geometry == g && r.value.chunkTable == Tables(segs) && r.value.first == segs[0]
              && r.value.merged ==
                 if opts.policy == Ignore then merged.(recovered := 0, invalid := 0) else merged
  {
    CompleteIsValid(segs, opts);
    MergedIsSummary(segs, |segs|);
  }

  // ----- what opens, and as what

  /** The set's geometry is the one that the first volume states, if any segment has a volume. */
  ghost predicate SetGives(segs: seq<Segment>, g: Geometry) {
    || (g == Geometry(0, 0) && forall i :: 0 <= i < |segs| ==> segs[i].meta.media == None)
    || exists i :: 0 <= i < |segs| && IsFirstMedia(segs, i) && Gives(segs[i].meta.media, g)
  }

  lemma {:induction false} FirstMedia(segs: seq<Segment>, from: nat) returns (i: nat)
    requires from <= |segs| && forall j :: 0 <= j < from ==> segs[j].meta.media == None
    ensures i <= |segs| && forall j :: 0 <= j < i ==> segs[j].meta.media == None
    ensures i < |segs| ==> IsFirstMedia(segs, i)
    decreases |segs| - from
  {
    if from == |segs| || segs[from].meta.media.Some? {
      i := from;
    } else {
      i := FirstMedia(segs, from + 1);
    }
  }

  lemma {:induction false} SetGivesIff(segs: seq<Segment>, g: Geometry)
    requires segs != []
    ensures ComputeGeometry(MergeFirst(segs, |segs|).meta.media) == Ok(g) <==> SetGives(segs, g)
  {
    var media := MergeFirst(segs, |segs|).meta.media;
    GeometryIff(media, g);
    MergedIsSummary(segs, |segs|);
    var i := FirstMedia(segs, 0);
    if i < |segs| {
      assert media == segs[i].meta.media;
    }
  }

  ghost predicate NoneEncrypted(segs: seq<Segment>) {
    forall i :: 0 <= i < |segs| ==> !segs[i].meta.encrypted
  }

  ghost predicate NoneInvalidIn(segs: seq<Segment>) {
    forall i :: 0 <= i < |segs| ==> segs[i].stats.invalid == 0
  }

  /** What the policy reports of the damage that was counted; the lenient one reports none. */
  ghost predicate Reports(segs: seq<Segment>, policy: ChecksumPolicy, m: Merged) {
    Counts(m, if policy == Ignore then Stats(0, 0, 0) else SumStats(StatsOfFirst(segs, |segs|)))
  }

  /** A valid set, of which nothing is encrypted and under the strict policy no table invalid, has opened as o. */
  ghost predicate OpensAs(segs: seq<Segment>, opts: Options, o: Opened) {
    && segs != [] && ValidSet(segs, opts) && NoneEncrypted(segs) && (opts.policy == Strict ==> NoneInvalidIn(segs))
    && SetGives(segs, o.geometry) && ComputeGeometry(o.merged.meta.media) == Ok(o.geometry)
    && o.first == segs[0] && o.chunkTable == Tables(segs) && Reports(segs, opts.policy, o.merged)
    && o.merged.meta == MergeFirst(segs, |segs|).meta
    && o.depth == EffectiveCacheChunks(opts.cacheChunks, o.geometry.chunkSize)
  }

  /** Opening succeeds exactly with what such a set opens as. */
  lemma {:induction false} OpensIff(segs: seq<Segment>, opts: Options, o: Opened)
    requires InOrder(segs)
    ensures OpenSorted(segs, opts) == Ok(o) <==> OpensAs(segs, opts, o)
  {
    if segs != [] {
      ValidIff(segs, opts);
      MergedIsSummary(segs, |segs|);
      MergedInvalidZero(segs, |segs|);
      MergedCounts(segs, |segs|);
      SetGivesIff(segs, o.geometry);
    }
  }

  /** A valid set is refused as encrypted if any of it is, before its checksums and its geometry are looked at. */
  lemma {:induction false} RefusedFor(segs: seq<Segment>, opts: Options)
    requires segs != [] && InOrder(segs) && ValidSet(segs, opts)
    ensures var r := OpenSorted(segs, opts);
            && (r == Err(EncryptedImage) <==> !NoneEncrypted(segs))
            && (r == Err(ChecksumMismatch) <==>
                NoneEncrypted(segs) && opts.policy == Strict && !NoneInvalidIn(segs))
            && (r.Err? && r.error.BadGeometry? <==>
                && NoneEncrypted(segs) && (opts.policy == Strict ==> NoneInvalidIn(segs))
                && !exists g :: SetGives(segs, g))
  {
    ValidIff(segs, opts);
    MergedIsSummary(segs, |segs|);
    MergedInvalidZero(segs, |segs|);
    var geometry := ComputeGeometry(MergeFirst(segs, |segs|).meta.media);
    forall g
      ensures geometry == Ok(g) <==> SetGives(segs, g)
    {
      SetGivesIff(segs, g);
    }
  }

  /** The result every order of supply leads to: a common success, or failure throughout. */
  ghost predicate ForEverySort(segs: seq<Segment>, opts: Options, r: Result<Opened, OpenError>) {
    forall sorted :: SortOf(BY_NUMBER, segs, sorted) ==>
      if r.Ok? then OpenSorted(sorted, opts) == r else OpenSorted(sorted, opts).Err?
  }

  /**
   * Opening depends only on which segments are supplied: if one order opens, after whatever the unstable sort made of
   * it, every order opens, with the same chunk table and everything else alike.
   */
  lemma OrderOfSupplyIsIrrelevant(a: seq<Segment>, b: seq<Segment>, sa: seq<Segment>, sb: seq<Segment>, opts: Options)
    requires multiset(a) == multiset(b) && SortOf(BY_NUMBER, a, sa) && SortOf(BY_NUMBER, b, sb)
    ensures OpenSorted(sa, opts).Ok? <==> OpenSorted(sb, opts).Ok?
    ensures OpenSorted(sa, opts).Ok? ==> OpenSorted(sa, opts) == OpenSorted(sb, opts)
  {
    if OpenSorted(sa, opts).Ok? {
      ValidIsStrict(sa, opts);
      SortIsUnique(BY_NUMBER, sa, sb);
    }
    if OpenSorted(sb, opts).Ok? {
      ValidIsStrict(sb, opts);
      SortIsUnique(BY_NUMBER, sb, sa);
    }
  }

  /** OpenSegmentsWithOptions from its sort on; order is the way its own sort fell. */
  method OpenSegments(segs: seq<Segment>, opts: Options)
    returns (r: Result<Opened, OpenError>, ghost order: seq<Segment>)
    ensures SortOf(BY_NUMBER, segs, order) && r == OpenSorted(order, opts)
    ensures r.Ok? ==> OpensAs(order, opts, r.value)
    ensures ForEverySort(segs, opts, r)
  {
    if |segs| == 0 {
      return Err(NoSources), segs;
    }
    var sorted := Sort(BY_NUMBER, segs);
    order := sorted;
    assert |sorted| == |multiset(sorted)| == |segs|;
    r := OpenInOrder(sorted, opts);
    forall other | SortOf(BY_NUMBER, segs, other)
      ensures if r.Ok? then OpenSorted(other, opts) == r else OpenSorted(other, opts).Err?
    {
      OrderOfSupplyIsIrrelevant(segs, segs, sorted, other, opts);
    }
  }

  /** Validation, merging, encryption, checksum policy and geometry, in that order, over segments that are sorted. */
  method OpenInOrder(sorted: seq<Segment>, opts: Options) returns (r: Result<Opened, OpenError>)
    requires sorted != [] && InOrder(sorted)
    ensures r == OpenSorted(sorted, opts)
    ensures r.Ok? ==> OpensAs(sorted, opts, r.value)
    ensures ValidSet(sorted, opts) ==> (r == Err(EncryptedImage) <==> !NoneEncrypted(sorted))
  {
    forall o
      ensures OpenSorted(sorted, opts) == Ok(o) <==> OpensAs(sorted, opts, o)
    {
      OpensIff(sorted, opts, o);
    }
    if ValidSet(sorted, opts) {
      RefusedFor(sorted, opts);
    }
    var complaint := ValidateSegmentSet(sorted, opts);
    if complaint.Some? {
      return Err(complaint.value);
    }
    var chunks := MergeTables(sorted);
    var merged := MergeMetadata(sorted);
    if merged.meta.encrypted {
      return Err(EncryptedImage);
    }
    match opts.policy {
      case Strict =>
        if merged.invalid > 0 {
          return Err(ChecksumMismatch);
        }
      case Ignore =>
        merged := merged.(recovered := 0, invalid := 0);
      case Warn =>
    }
    var geometry := ComputeGeometry(merged.meta.media);
    if geometry.Err? {
      return Err(BadGeometry(geometry.error));
    }
    r := Ok(Opened(sorted[0], merged, chunks, geometry.value,
                   EffectiveCacheChunks(opts.cacheChunks, geometry.value.chunkSize)));
  }

  /** The reader over an opened set. */
  method MakeReader(lib: Library, o: Opened) returns (reader: ImageReader)
    requires ComputeGeometry(o.merged.meta.media) == Ok(o.geometry)
    ensures reader.Valid() && fresh(reader) && fresh(reader.Repr())
    ensures reader.Dev() == DeviceOf(lib, o.geometry.chunkSize, o.geometry.logicalSize, o.first.source, o.chunkTable)
    ensures reader.lib == lib && reader.media == o.merged.meta.media && reader.digests == o.merged.meta.digests
    ensures reader.Depth() == (if o.depth <= 0 then 0 else o.depth) && reader.Cached() == []
  {
    reader := new ImageReader(lib, o.first.source, o.merged.meta.media, o.merged.meta.digests, o.chunkTable,
                              o.geometry, o.depth);
  }

  // ----- the strict checksum policy

  /** The segment's chunk table is the one built from its own sections. */
  ghost predicate TableBuilt(lib: Library, s: Segment) {
    Built(s.chunkTable, s.stats) == BuildTable(lib, s.source, s.header, s.sections)
  }

  /** Every v1 table group of the segment was decoded from a copy that validated. */
  ghost predicate AllGroupsVerified(lib: Library, s: Segment) {
    forall g :: g in Pair(SectorTables(s.sections)) && g.Copies? ==> FromValidCopy(lib, s.source, s.header, g)
  }

  lemma {:induction false} MergedInvalidZero(segs: seq<Segment>, n: nat)
    requires 1 <= n <= |segs|
    ensures MergeFirst(segs, n).invalid == 0 <==> forall i :: 0 <= i < n ==> segs[i].stats.invalid == 0
    decreases n
  {
    if n > 1 {
      MergedInvalidZero(segs, n - 1);
    }
  }

  /** The counter of invalid tables is all that the strict policy adds. */
  lemma {:induction false} StrictOpensIff(segs: seq<Segment>, opts: Options)
    requires opts.policy == Warn && segs != []
    ensures OpenSorted(segs, opts.(policy := Strict)).Ok? <==>
            OpenSorted(segs, opts).Ok? && MergeFirst(segs, |segs|).invalid == 0
  {
    ComplaintIgnoresPolicy(segs, 0, opts, opts.(policy := Strict));
  }

  /**
   * The strict policy is end to end: it opens exactly what the default policy opens with every v1 table group of every
   * segment decoded from a copy whose checksums all matched and which yielded entries.
   */
  lemma StrictPolicyIsEndToEnd(lib: Library, segs: seq<Segment>, opts: Options)
    requires opts.policy == Warn && forall i :: 0 <= i < |segs| ==> TableBuilt(lib, segs[i])
    ensures OpenSorted(segs, opts.(policy := Strict)).Ok? <==>
            OpenSorted(segs, opts).Ok? && forall i :: 0 <= i < |segs| ==> AllGroupsVerified(lib, segs[i])
  {
    if segs != [] {
      StrictOpensIff(segs, opts);
      MergedInvalidZero(segs, |segs|);
      forall i | 0 <= i < |segs|
        ensures segs[i].stats.invalid == 0 <==> AllGroupsVerified(lib, segs[i])
      {
        CounterTellsVerified(lib, segs[i]);
      }
    }
  }

  lemma CounterTellsVerified(lib: Library, s: Segment)
    requires TableBuilt(lib, s)
    ensures s.stats.invalid == 0 <==> AllGroupsVerified(lib, s)
  {
    NoneInvalidIffAllVerified(lib, s.source, s.header, Pair(SectorTables(s.sections)));
  }

  lemma {:induction false} ComplaintIgnoresPolicy(segs: seq<Segment>, i: nat, a: Options, b: Options)
    requires i <= |segs| && segs != [] && a.allowIncomplete == b.allowIncomplete
    ensures Complaint(segs, i, a) == Complaint(segs, i, b)
    decreases |segs| - i
  {
    if i < |segs| {
      ComplaintIgnoresPolicy(segs, i + 1, a, b);
    }
  }
}
