/** What the chunk-table builder guarantees: backups stand in for primaries, and nothing is counted twice. */
module TableProperties {
  import opened Bytes
  import opened Chunks
  import opened ChunkTables
  import opened Devices
  import opened Sections
  import opened TableGroups

  // ----- a table is a function of its body

  /** The body of a section, if all of it is in the source. */
  ghost predicate HasBody(src: Source, section: SectionInfo, body: seq<byte>) {
    section.dataSize == |body| && Placed(src, section.dataOffset, body)
  }

  lemma SameWindow(
    src: Source, section: SectionInfo, src': Source, section': SectionInfo, body: seq<byte>, from: nat, n: nat)
    requires HasBody(src, section, body) && HasBody(src', section', body) && from + n <= |body|
    ensures ReadSlice(src, section.dataOffset + from, n) == ReadSlice(src', section'.dataOffset + from, n)
  {
    if n <= MAX_READ_SIZE {
      PlacedRead(src, section.dataOffset, body, from, n);
      PlacedRead(src', section'.dataOffset, body, from, n);
    }
  }

  /** Two sections with the same body hold the same table, wherever they stand. */
  lemma BodyDeterminesTable(lib: Library, src: Source, section: SectionInfo, src': Source, section': SectionInfo,
                            body: seq<byte>)
    requires HasBody(src, section, body) && HasBody(src', section', body)
    ensures ReadTable(lib, src, section) == ReadTable(lib, src', section')
  {
    if |body| >= TABLE_HEADER_V1_SIZE {
      SameWindow(src, section, src', section', body, 0, TABLE_HEADER_V1_SIZE);
      var header := ReadSlice(src, section.dataOffset, TABLE_HEADER_V1_SIZE);
      if header.Some? {
        var n: int := U32(header.value[0..4]);
        if 0 < n <= MAX_TABLE_ENTRIES && n * 4 <= |body| - TABLE_HEADER_V1_SIZE {
          SameWindow(src, section, src', section', body, TABLE_HEADER_V1_SIZE, n * 4);
          if |body| == TABLE_HEADER_V1_SIZE + n * 4 + TABLE_CHECKSUM_SIZE {
            SameWindow(src, section, src', section', body, TABLE_HEADER_V1_SIZE + n * 4, TABLE_CHECKSUM_SIZE);
          }
        }
      }
    }
  }

  /** A body on its own. */
  function Bare(body: Source): SectionInfo {
    SectionInfo(0, DESCRIPTOR_V1_SIZE, TYPE_SECTOR_TABLE, "", 0, 0, 0, |body|, 0)
  }

  /** The body states some entries, no more than the reader takes, and has room for them. */
  predicate BodyReadable(body: Source) {
    |body| >= 24 && 1 <= U32(body[0..4]) <= 0x100_0000 && 24 + 4 * U32(body[0..4]) <= |body|
  }

  /** The body is a readable table whose checksums all match. */
  predicate BodyValid(lib: Library, body: Source) {
    BodyReadable(body) &&
    var end := 24 + 4 * U32(body[0..4]);
    && lib.adler32(body[0..20]) == U32(body[20..24])
    && (|body| == end + 4 ==> lib.adler32(body[24..end]) == U32(body[end..end + 4]))
  }

  lemma BareTable(lib: Library, body: Source)
    ensures (exists n :: HoldsEntries(body, Bare(body), n)) <==> BodyReadable(body)
    ensures SoundTable(lib, body, Bare(body)) <==> BodyValid(lib, body)
  {
    assert BodyReadable(body) ==> HoldsEntries(body, Bare(body), U32(body[0..4]));
  }

  /** A table is read if its body is readable, and validates if and only if its body does. */
  lemma VerdictOfBody(lib: Library, src: Source, header: FileHeader, section: SectionInfo, body: Source)
    requires HasBody(src, section, body)
    ensures ParseTableV1(lib, src, header, section).0 != [] <==> BodyReadable(body)
    ensures ParseTableV1(lib, src, header, section).1 <==> BodyValid(lib, body)
  {
    assert body[0..|body|] == body;
    BodyDeterminesTable(lib, src, section, body, Bare(body), body);
    ParsedByItsBytes(lib, body, header, Bare(body));
    BareTable(lib, body);
  }

  // ----- backup equivalence

  /**
   * A table and the byte-identical table2 directly after it parse to the same descriptors and verdict, although they
   * derive the last chunk's size differently.
   */
  lemma BackupParsesAlike(lib: Library, src: Source, header: FileHeader, primary: SectionInfo, backup: SectionInfo,
                          body: seq<byte>)
    requires DirectlyAfter(primary, backup) && HasBody(src, primary, body) && HasBody(src, backup, body)
    ensures ParseTableV1(lib, src, header, primary) == ParseTableV1(lib, src, header, backup)
  {
    BodyDeterminesTable(lib, src, primary, src, backup, body);
    var table := ReadTable(lib, src, primary);
    if table.Some? {
      LastSizesAgree(primary, backup);
      DecodeDependsOnLastSizes(table.value.raw, table.value.base, LastSizeIn(primary), LastSizeIn(backup));
    }
  }

  /** The same descriptors, reading from another source. */
  function Moved(table: seq<ChunkDescriptor>, src: Source): (r: seq<ChunkDescriptor>)
    ensures |r| == |table|
  {
    seq(|table|, i requires 0 <= i < |table| => table[i].(dataSource := Some(src)))
  }

  lemma MovedAppend(a: seq<ChunkDescriptor>, b: seq<ChunkDescriptor>, src: Source)
    ensures Moved(a + b, src) == Moved(a, src) + Moved(b, src)
  {
  }

  lemma MovedTable(lib: Library, src: Source, src': Source, header: FileHeader, section: SectionInfo)
    requires ReadTable(lib, src, section) == ReadTable(lib, src', section)
    ensures ParseTableV1(lib, src', header, section).0 == Moved(ParseTableV1(lib, src, header, section).0, src')
    ensures ParseTableV1(lib, src', header, section).1 == ParseTableV1(lib, src, header, section).1
  {
  }

  /** In src the group's two copies are byte-identical, adjacent and valid; in src' at least the backup still is. */
  ghost predicate BackedUp(lib: Library, src: Source, src': Source, header: FileHeader, g: Group, body: seq<byte>) {
    && g.Copies? && g.backup.Some? && DirectlyAfter(g.primary, g.backup.value)
    && HasBody(src, g.primary, body) && HasBody(src, g.backup.value, body) && HasBody(src', g.backup.value, body)
    && ParseTableV1(lib, src, header, g.backup.value).1
  }

  /** src' holds the primary's body as it was, or something that fails its checksum. */
  ghost predicate IntactOrDetected(lib: Library, src': Source, header: FileHeader, g: Group, body: seq<byte>)
    requires g.Copies?
  {
    HasBody(src', g.primary, body) || !ParseTableV1(lib, src', header, g.primary).1
  }

  /** Damage to a primary that its checksum detects changes no descriptor of the group. */
  lemma GroupSurvivesDamage(lib: Library, src: Source, src': Source, header: FileHeader, g: Group, body: seq<byte>)
    requires BackedUp(lib, src, src', header, g, body) && IntactOrDetected(lib, src', header, g, body)
    ensures ParseGroup(lib, src, header, g.primary, g.backup).1 == UsedPrimary
    ensures ParseGroup(lib, src', header, g.primary, g.backup).0 ==
            Moved(ParseGroup(lib, src, header, g.primary, g.backup).0, src')
    ensures ParseGroup(lib, src', header, g.primary, g.backup).1 ==
            if ParseTableV1(lib, src', header, g.primary).1 then UsedPrimary else UsedBackup
  {
    var b := g.backup.value;
    BackupParsesAlike(lib, src, header, g.primary, b, body);
    BodyDeterminesTable(lib, src, b, src', b, body);
    MovedTable(lib, src, src', header, b);
    if HasBody(src', g.primary, body) {
      BackupParsesAlike(lib, src', header, g.primary, b, body);
    }
  }

  /** The group is built alike in both sources. */
  ghost predicate BuildsAlike(lib: Library, src: Source, src': Source, header: FileHeader, g: Group) {
    var built, built' := BuildGroup(lib, src, header, g), BuildGroup(lib, src', header, g);
    built'.table == Moved(built.table, src') && built'.stats == built.stats
  }

  /** A v1 group is, with or without a backup, where its tables have stayed the same. */
  lemma SameTablesBuildAlike(lib: Library, src: Source, src': Source, header: FileHeader, g: Group)
    requires g.Copies? && forall s :: s in Members(g) ==> ReadTable(lib, src, s) == ReadTable(lib, src', s)
    ensures BuildsAlike(lib, src, src', header, g)
  {
    MovedTable(lib, src, src', header, g.primary);
    if g.backup.Some? {
      assert g.backup.value in Members(g);
      MovedTable(lib, src, src', header, g.backup.value);
    }
  }

  /** A group either is built alike, or is backed up by copies of the given body and its damage detected. */
  ghost predicate Withstands(
    lib: Library, src: Source, src': Source, header: FileHeader, g: Group, body: Option<seq<byte>>)
  {
    match body
    case None => BuildsAlike(lib, src, src', header, g)
    case Some(b) => BackedUp(lib, src, src', header, g, b) && IntactOrDetected(lib, src', header, g, b)
  }

  /** b is built from another source: the same chunks, no less valid, and damage recoveries more. */
  ghost predicate Survives(a: Built, b: Built, src': Source, damage: nat) {
    && b.table == Moved(a.table, src')
    && b.stats.invalid == a.stats.invalid && b.stats.recovered == a.stats.recovered + damage
  }

  /** 1 for a backed-up group whose primary does not validate in src', else 0. */
  function DamageOf(lib: Library, src': Source, header: FileHeader, g: Group, body: Option<seq<byte>>): nat {
    if body.Some? && g.Copies? && !ParseTableV1(lib, src', header, g.primary).1 then 1 else 0
  }

  function Damages(
    lib: Library, src': Source, header: FileHeader, groups: seq<Group>, bodies: seq<Option<seq<byte>>>): (r: seq<nat>)
    requires |bodies| == |groups|
    ensures |r| == |groups|
  {
    seq(|groups|, i requires 0 <= i < |groups| => DamageOf(lib, src', header, groups[i], bodies[i]))
  }

  lemma GroupWithstands(
    lib: Library, src: Source, src': Source, header: FileHeader, g: Group, body: Option<seq<byte>>)
    requires Withstands(lib, src, src', header, g, body)
    ensures Survives(BuildGroup(lib, src, header, g), BuildGroup(lib, src', header, g), src',
                     DamageOf(lib, src', header, g, body))
  {
    if body.Some? {
      GroupSurvivesDamage(lib, src, src', header, g, body.value);
    }
  }

  lemma {:induction false} TotalSurvives(
    build: Group -> Built, build': Group -> Built, src': Source, groups: seq<Group>, damages: seq<nat>)
    requires |damages| == |groups|
    requires forall i :: 0 <= i < |groups| ==> Survives(build(groups[i]), build'(groups[i]), src', damages[i])
    ensures Survives(Total(build, groups), Total(build', groups), src', Sum(damages))
    decreases |groups|
  {
    if groups != [] {
      TotalSurvives(build, build', src', groups[1..], damages[1..]);
      MovedAppend(build(groups[0]).table, Total(build, groups[1..]).table, src');
    }
  }

  /**
   * So a table in which every damaged primary is backed up and its damage detected is the table of the undamaged
   * file; no group turns invalid, and exactly the damaged primaries count as recovered.
   */
  lemma {:induction false} TableSurvivesDamage(
    lib: Library, src: Source, src': Source, header: FileHeader, groups: seq<Group>, bodies: seq<Option<seq<byte>>>)
    requires |bodies| == |groups|
    requires forall i :: 0 <= i < |groups| ==> Withstands(lib, src, src', header, groups[i], bodies[i])
    ensures var build, build' := GroupBuilder(lib, src, header), GroupBuilder(lib, src', header);
            Survives(Total(build, groups), Total(build', groups), src',
                     Sum(Damages(lib, src', header, groups, bodies)))
  {
    var build, build' := GroupBuilder(lib, src, header), GroupBuilder(lib, src', header);
    var damages := Damages(lib, src', header, groups, bodies);
    forall i | 0 <= i < |groups|
      ensures Survives(build(groups[i]), build'(groups[i]), src', damages[i])
    {
      GroupWithstands(lib, src, src', header, groups[i], bodies[i]);
    }
    TotalSurvives(build, build', src', groups, damages);
  }

  // ----- backups are never a second source of chunks

  /** No table2 stands alone: each directly follows the table it backs up. */
  ghost predicate NoLooseBackups(groups: seq<Group>) {
    forall i :: 0 <= i < |groups| ==> groups[i].Copies? ==> groups[i].primary.typeString != "table2"
  }

  function Primary(g: Group): SectionInfo {
    if g.Standalone? then g.table else g.primary
  }

  function Primaries(groups: seq<Group>): seq<SectionInfo> {
    if groups == [] then [] else [Primary(groups[0])] + Primaries(groups[1..])
  }

  /** The primary of every group that has a backup validates. */
  ghost predicate PrimariesValid(lib: Library, src: Source, header: FileHeader, groups: seq<Group>) {
    forall i :: 0 <= i < |groups| ==> PrimaryValid(lib, src, header, groups[i])
  }

  ghost predicate PrimaryValid(lib: Library, src: Source, header: FileHeader, g: Group) {
    g.Copies? && g.backup.Some? ==> ParseTableV1(lib, src, header, g.primary).1
  }

  function WithoutBackup(g: Group): Group {
    if g.Standalone? then g else Copies(g.primary, None)
  }

  lemma BareBuildsAlike(lib: Library, src: Source, header: FileHeader, g: Group)
    requires PrimaryValid(lib, src, header, g)
    ensures BuildGroup(lib, src, header, WithoutBackup(g)) == BuildGroup(lib, src, header, g)
  {
  }

  /** A list that pairing produces: standalone tables are v2, groups of copies v1. */
  ghost predicate Paired(groups: seq<Group>) {
    forall i :: 0 <= i < |groups| ==>
      (groups[i].Standalone? <==> Primary(groups[i]).descriptorSize != DESCRIPTOR_V1_SIZE)
  }

  lemma {:induction false} PairIsPaired(tables: seq<SectionInfo>)
    ensures Paired(Pair(tables))
    decreases |tables|
  {
    if |tables| > 1 {
      PairIsPaired(tables[2..]);
    }
    if tables != [] {
      PairIsPaired(tables[1..]);
    }
  }

  /** Without its backups a list pairs into the same groups, each without one. */
  lemma {:induction false} BareGroups(groups: seq<Group>)
    requires Paired(groups) && NoLooseBackups(groups)
    requires forall i :: 0 <= i < |groups| && groups[i].Standalone? ==> groups[i].table.typeString != "table2"
    ensures |Pair(Primaries(groups))| == |groups|
    ensures forall i :: 0 <= i < |groups| ==>
              Pair(Primaries(groups))[i] == WithoutBackup(groups[i])
    decreases |groups|
  {
    if groups != [] {
      var rest := groups[1..];
      assert forall i :: 0 <= i < |rest| ==> rest[i] == groups[i + 1];
      BareGroups(rest);
      var tables := Primaries(groups);
      assert tables[1..] == Primaries(rest);
      assert !TakesBackup(tables) by {
        if |tables| > 1 {
          assert tables[1] == Primary(rest[0]) == Primary(groups[1]);
        }
      }
    }
  }

  lemma {:induction false} TotalDependsOnGroups(build: Group -> Built, a: seq<Group>, b: seq<Group>)
    requires |a| == |b| && forall i :: 0 <= i < |a| ==> build(a[i]) == build(b[i])
    ensures Total(build, a) == Total(build, b)
    decreases |a|
  {
    if a != [] {
      assert forall i :: 0 <= i < |a[1..]| ==> a[1..][i] == a[i + 1] && b[1..][i] == b[i + 1];
      TotalDependsOnGroups(build, a[1..], b[1..]);
    }
  }

  /** With valid primaries, deleting every backup yields the very same chunk table: no chunk was counted twice. */
  lemma {:induction false} BackupsAddNothing(lib: Library, src: Source, header: FileHeader, tables: seq<SectionInfo>)
    requires var groups := Pair(tables);
             && NoLooseBackups(groups) && PrimariesValid(lib, src, header, groups)
             && forall i :: 0 <= i < |groups| && groups[i].Standalone? ==> groups[i].table.typeString != "table2"
    ensures var build := GroupBuilder(lib, src, header);
            Total(build, Pair(Primaries(Pair(tables)))) == Total(build, Pair(tables))
  {
    PairIsPaired(tables);
    BareGroups(Pair(tables));
    var groups, bare := Pair(tables), Pair(Primaries(Pair(tables)));
    var build := GroupBuilder(lib, src, header);
    forall i | 0 <= i < |groups|
      ensures build(bare[i]) == build(groups[i])
    {
      BareBuildsAlike(lib, src, header, groups[i]);
    }
    TotalDependsOnGroups(build, bare, groups);
  }

  /** Sections of any other type, anywhere in between, change nothing. */
  lemma {:induction false} OtherSectionsIgnored(before: seq<SectionInfo>, other: SectionInfo, after: seq<SectionInfo>)
    requires other.typ != TYPE_SECTOR_TABLE
    ensures SectorTables(before + [other] + after) == SectorTables(before + after)
    decreases |before|
  {
    if before == [] {
      assert ([other] + after)[1..] == after;
      assert before + [other] + after == [other] + after && before + after == after;
    } else {
      OtherSectionsIgnored(before[1..], other, after);
      assert (before + [other] + after)[1..] == before[1..] + [other] + after;
      assert (before + after)[1..] == before[1..] + after;
    }
  }

  // ----- checksum verdicts

  /** The descriptors of a v1 group came from a copy that holds entries and whose stored checksums all match. */
  ghost predicate FromValidCopy(lib: Library, src: Source, header: FileHeader, g: Group) {
    exists copy :: copy in Members(g) && SoundTable(lib, src, copy) &&
                   BuildGroup(lib, src, header, g).table == ParseTableV1(lib, src, header, copy).0 != []
  }

  lemma VerifiedIffValidCopy(lib: Library, src: Source, header: FileHeader, g: Group)
    requires g.Copies?
    ensures BuildGroup(lib, src, header, g).stats.invalid == 0 <==> FromValidCopy(lib, src, header, g)
  {
    forall copy | copy in Members(g)
      ensures ParseTableV1(lib, src, header, copy).1 <==> SoundTable(lib, src, copy)
    {
      ParsedByItsBytes(lib, src, header, copy);
    }
    if BuildGroup(lib, src, header, g).stats.invalid == 0 {
      var copy := if ParseTableV1(lib, src, header, g.primary).1 then g.primary else g.backup.value;
      assert copy in Members(g);
    } else {
      assert !ParseTableV1(lib, src, header, g.primary).1;
      assert g.backup.Some? ==> !ParseTableV1(lib, src, header, g.backup.value).1;
    }
  }

  ghost predicate VerifiedOrV2(lib: Library, src: Source, header: FileHeader, g: Group) {
    g.Copies? ==> FromValidCopy(lib, src, header, g)
  }

  lemma GroupVerifiedIff(lib: Library, src: Source, header: FileHeader, g: Group)
    ensures BuildGroup(lib, src, header, g).stats.invalid == 0 <==> VerifiedOrV2(lib, src, header, g)
  {
    if g.Copies? {
      VerifiedIffValidCopy(lib, src, header, g);
    }
  }

  lemma {:induction false} TotalInvalidZero(build: Group -> Built, groups: seq<Group>)
    ensures Total(build, groups).stats.invalid == 0 <==> forall g :: g in groups ==> build(g).stats.invalid == 0
    decreases |groups|
  {
    if groups != [] {
      TotalInvalidZero(build, groups[1..]);
      assert groups == [groups[0]] + groups[1..];
    }
  }

  /** The invalid counter is zero exactly when every v1 group was decoded from a valid copy. */
  lemma {:induction false} NoneInvalidIffAllVerified(lib: Library, src: Source, header: FileHeader, groups: seq<Group>)
    ensures Total(GroupBuilder(lib, src, header), groups).stats.invalid == 0 <==>
            forall g :: g in groups && g.Copies? ==> FromValidCopy(lib, src, header, g)
  {
    var build := GroupBuilder(lib, src, header);
    TotalInvalidZero(build, groups);
    forall g | g in groups
      ensures build(g).stats.invalid == 0 <==> VerifiedOrV2(lib, src, header, g)
    {
      GroupVerifiedIff(lib, src, header, g);
    }
  }
}
