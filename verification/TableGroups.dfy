/** Building the chunk table: each table is consumed once, as a group's primary or as the backup right after it. */
module TableGroups {
  import opened Bytes
  import opened Chunks
  import opened ChunkTables
  import opened Sections

  const BLANK: ChunkDescriptor := ChunkDescriptor(None, 0, 0, false, 0, 0, false, false)

  // ----- parsing one table section

  /** One round of the entry loop: what entry i says, and the mode for the next. */
  method DecodeEntry(raw: seq<u32>, base: u64, section: SectionInfo, i: nat, overflow: bool)
    returns (slot: Slot, after: bool)
    requires i < |raw|
    ensures i < |raw| - 1 ==> slot == SlotAt(raw, base, i, overflow) && after == ModeAfter(slot, overflow)
    ensures i == |raw| - 1 ==> slot == LastSlot(raw[i], base, LastSizeIn(section), overflow)
  {
    after := overflow;
    var compressed := !overflow && raw[i] >= FLAG_BIT;
    var rel := Masked(raw[i], overflow);
    var abs := WrapI64(base + rel);
    var size: u32;
    if i < |raw| - 1 {
      size := EntrySize(raw[i + 1], rel, overflow);
      if !overflow && WrapI64(abs + size) > MAX_INT32 {
        after := true;
      }
    } else {
      size := LastChunkSize(section, section.typeString == "table2", abs);
    }
    slot := Slot(abs, size, compressed);
  }

  /** The entry loop of parseTableSectionV1, with its sticky overflow flag. */
  method FillChunks(src: Source, header: FileHeader, raw: seq<u32>, base: u64, section: SectionInfo)
    returns (r: seq<ChunkDescriptor>)
    ensures r == DescribeAll(src, header, DecodeEntries(raw, base, LastSizeIn(section), 0, false))
  {
    var chunks := new ChunkDescriptor[|raw|](_ => BLANK);
    var overflow := false;
    ghost var slots := DecodeEntries(raw, base, LastSizeIn(section), 0, false);
    for i := 0 to |raw|
      invariant DecodeEntries(raw, base, LastSizeIn(section), i, overflow) == slots[i..]
      invariant forall k :: 0 <= k < i ==> chunks[k] == Describe(src, header, slots[k])
    {
      var slot;
      slot, overflow := DecodeEntry(raw, base, section, i, overflow);
      assert slots[i..][0] == slot && slots[i..][1..] == slots[i + 1..];
      chunks[i] := ChunkDescriptor(Some(src), slot.offset, slot.size, slot.compressed,
                                   header.majorVersion, header.compressionMethod, false, false);
    }
    r := chunks[..];
  }

  /** parseTableSectionV1: as many chunks as the section holds entries, verified exactly if its checksums match. */
  method ParseTableSectionV1(lib: Library, src: Source, header: FileHeader, section: SectionInfo)
    returns (chunks: seq<ChunkDescriptor>, valid: bool)
    ensures (chunks, valid) == ParseTableV1(lib, src, header, section)
    ensures chunks != [] <==> exists n :: HoldsEntries(src, section, n)
    ensures forall n :: HoldsEntries(src, section, n) ==>
              |chunks| == n && (valid <==> ChecksumsMatch(lib, src, section, n))
    ensures valid ==> chunks != []
  {
    ParsedByItsBytes(lib, src, header, section);
    var table := ReadTable(lib, src, section);
    if table.None? {
      return [], false;
    }
    chunks := FillChunks(src, header, table.value.raw, table.value.base, section);
    valid := table.value.valid;
  }

  /** A flag of a v2 chunk entry. */
  predicate HasFlag(flags: u32, bit: int)
    requires bit == 1 || bit == 2 || bit == 4
  {
    (if bit == 1 then flags else if bit == 2 then flags / 2 else flags / 4) % 2 == 1
  }

  /** Of the flags, bit 4 means a pattern, bit 1 compressed unless it is one, and bit 2 that a checksum follows. */
  ghost predicate FlagsMean(d: ChunkDescriptor, flags: u32) {
    && (d.pattern <==> flags / 4 % 2 == 1)
    && (d.compressed <==> flags % 2 == 1 && flags / 4 % 2 == 0)
    && (d.hasChecksum <==> flags / 2 % 2 == 1)
  }

  /** One v2 entry: absolute offset, size and flags; a pattern chunk is never a compressed one. */
  function DescribeV2(src: Source, header: FileHeader, entry: seq<byte>): (d: ChunkDescriptor)
    requires |entry| == TABLE_ENTRY_V2_SIZE
    ensures FlagsMean(d, U32(entry[12..16]))
  {
    var flags := U32(entry[12..16]);
    var pattern := HasFlag(flags, 4);
    ChunkDescriptor(Some(src), WrapI64(U64(entry[0..8])), U32(entry[8..12]), !pattern && HasFlag(flags, 1),
                    header.majorVersion, header.compressionMethod, pattern, HasFlag(flags, 2))
  }

  function DescribeAllV2(src: Source, header: FileHeader, entries: seq<byte>): (r: seq<ChunkDescriptor>)
    ensures |r| == |entries| / 16
  {
    seq(|entries| / 16, i requires 0 <= i < |entries| / 16 => DescribeV2(src, header, entries[i * 16..i * 16 + 16]))
  }

  /** What parseTableSectionV2 returns. */
  function ParseTableV2(src: Source, header: FileHeader, section: SectionInfo): seq<ChunkDescriptor> {
    if section.dataSize < TABLE_HEADER_V2_SIZE then []
    else match ReadSlice(src, section.dataOffset, TABLE_HEADER_V2_SIZE)
      case None => []
      case Some(head) =>
        var n: int := U32(head[8..12]);
        if n <= 0 || n > MAX_TABLE_ENTRIES || n * 16 > section.dataSize - TABLE_HEADER_V2_SIZE then []
        else match ReadSlice(src, section.dataOffset + TABLE_HEADER_V2_SIZE, n * 16)
          case None => []
          case Some(entries) => DescribeAllV2(src, header, entries)
  }

  /** The v2 section states n entries, no more than the reader takes, and they lie in the section and in the source. */
  ghost predicate HoldsEntriesV2(src: Source, section: SectionInfo, n: int) {
    var at := section.dataOffset;
    && 1 <= n <= 0x100_0000 && 32 + 16 * n <= section.dataSize && at + 32 + 16 * n <= |src|
    && n == U32(src[at + 8..at + 12])
  }

  /** A v2 table section gives one chunk for each entry it holds, described by the 16 bytes of that entry. */
  lemma ParsedByItsBytesV2(src: Source, header: FileHeader, section: SectionInfo)
    ensures var chunks := ParseTableV2(src, header, section); var at := section.dataOffset + 32;
            && (chunks != [] <==> exists n :: HoldsEntriesV2(src, section, n))
            && (forall n :: HoldsEntriesV2(src, section, n) ==>
                  |chunks| == n &&
                  forall i :: 0 <= i < n ==> chunks[i] == DescribeV2(src, header, src[at + 16 * i..at + 16 * i + 16]))
  {
    var chunks, at := ParseTableV2(src, header, section), section.dataOffset + 32;
    if at <= |src| {
      SliceOfSlice(src, at - 32, at, 8, 12);
    }
    assert chunks != [] ==> HoldsEntriesV2(src, section, |chunks|);
    forall n, i | HoldsEntriesV2(src, section, n) && 0 <= i < n
      ensures |chunks| == n && chunks[i] == DescribeV2(src, header, src[at + 16 * i..at + 16 * i + 16])
    {
      SliceOfSlice(src, at, at + n * 16, i * 16, i * 16 + 16);
    }
  }

  // ----- groups

  /** A v2 table, or a v1 table with the backup consumed along with it. */
  datatype Group = Standalone(table: SectionInfo) | Copies(primary: SectionInfo, backup: Option<SectionInfo>)

  function SectorTables(sections: seq<SectionInfo>): (tables: seq<SectionInfo>)
    ensures |tables| <= |sections|
  {
    if sections == [] then []
    else (if sections[0].typ == TYPE_SECTOR_TABLE then [sections[0]] else []) + SectorTables(sections[1..])
  }

  predicate TakesBackup(tables: seq<SectionInfo>) {
    |tables| > 1 && tables[0].typeString == "table" && tables[1].typeString == "table2"
  }

  /** How the builder's loop carves the tables into groups. */
  function Pair(tables: seq<SectionInfo>): seq<Group> {
    if tables == [] then []
    else if tables[0].descriptorSize != DESCRIPTOR_V1_SIZE then [Standalone(tables[0])] + Pair(tables[1..])
    else if TakesBackup(tables) then [Copies(tables[0], Some(tables[1]))] + Pair(tables[2..])
    else [Copies(tables[0], None)] + Pair(tables[1..])
  }

  function Members(g: Group): seq<SectionInfo> {
    match g
    case Standalone(t) => [t]
    case Copies(p, None) => [p]
    case Copies(p, Some(b)) => [p, b]
  }

  function AllMembers(groups: seq<Group>): seq<SectionInfo> {
    if groups == [] then [] else Members(groups[0]) + AllMembers(groups[1..])
  }

  /** A backup is a table2 right behind the table it backs up. */
  predicate ProperBackup(g: Group) {
    g.Copies? && g.backup.Some? ==> g.primary.typeString == "table" && g.backup.value.typeString == "table2"
  }

  /** The first group takes the first one or two tables, and pairing goes on behind them. */
  lemma FirstPaired(tables: seq<SectionInfo>) returns (g: Group, rest: seq<SectionInfo>)
    requires tables != []
    ensures |rest| < |tables| && tables == Members(g) + rest && ProperBackup(g)
    ensures Pair(tables) == [g] + Pair(rest)
  {
    if tables[0].descriptorSize != DESCRIPTOR_V1_SIZE {
      g, rest := Standalone(tables[0]), tables[1..];
    } else if TakesBackup(tables) {
      g, rest := Copies(tables[0], Some(tables[1])), tables[2..];
    } else {
      g, rest := Copies(tables[0], None), tables[1..];
    }
  }

  /** Every table section is consumed exactly once and in order, as a primary or as the backup right after it. */
  lemma {:induction false} PairingConserves(tables: seq<SectionInfo>)
    ensures AllMembers(Pair(tables)) == tables
    ensures forall i :: 0 <= i < |Pair(tables)| ==> ProperBackup(Pair(tables)[i])
    decreases |tables|
  {
    if tables != [] {
      var g, rest := FirstPaired(tables);
      PairingConserves(rest);
      assert ([g] + Pair(rest))[1..] == Pair(rest);
    }
  }

  /** Tables stand alone exactly if they are v2 tables, and a v1 table takes the table2 that follows it, if one does. */
  ghost predicate TakesAll(groups: seq<Group>) {
    && (forall g :: g in groups ==> ProperBackup(g) && (g.Standalone? <==> Members(g)[0].descriptorSize != 76))
    && forall i :: 0 <= i < |groups| - 1 ==> !LeavesBackup(groups[i], groups[i + 1])
  }

  /** g is a table without a backup, and the next group starts with a table2. */
  predicate LeavesBackup(g: Group, next: Group) {
    && g.Copies? && g.primary.typeString == "table" && g.backup == None
    && Members(next)[0].typeString == "table2"
  }

  lemma {:induction false} PairTakesAll(tables: seq<SectionInfo>)
    ensures TakesAll(Pair(tables))
    ensures tables != [] ==> Pair(tables) != [] && Members(Pair(tables)[0])[0] == tables[0]
    decreases |tables|
  {
    if tables != [] {
      var g, rest := FirstPaired(tables);
      PairTakesAll(rest);
      var groups := Pair(tables);
      assert groups[0] == g && groups[1..] == Pair(rest);
      assert forall i :: 0 < i < |groups| ==> groups[i] == Pair(rest)[i - 1];
    }
  }

  lemma {:induction false} FirstMember(groups: seq<Group>)
    ensures groups == [] <==> AllMembers(groups) == []
    ensures groups != [] ==> AllMembers(groups)[0] == Members(groups[0])[0]
  {
  }

  /** A group in front of other tables, the first of which it would not take. */
  lemma {:induction false} PairedInFront(g: Group, others: seq<SectionInfo>)
    requires ProperBackup(g) && (g.Standalone? <==> Members(g)[0].descriptorSize != 76)
    requires g.Copies? && g.primary.typeString == "table" && g.backup == None && others != [] ==>
               others[0].typeString != "table2"
    ensures Pair(Members(g) + others) == [g] + Pair(others)
  {
    var tables := Members(g) + others;
    assert tables[|Members(g)|..] == others;
  }

  lemma RestTakesAll(groups: seq<Group>)
    requires groups != [] && TakesAll(groups)
    ensures TakesAll(groups[1..])
  {
    var rest := groups[1..];
    assert forall i :: 0 <= i < |rest| ==> rest[i] == groups[i + 1];
  }

  lemma {:induction false} FirstTaken(groups: seq<Group>)
    requires groups != [] && TakesAll(groups)
    ensures Pair(AllMembers(groups)) == [groups[0]] + Pair(AllMembers(groups[1..]))
  {
    FirstMember(groups[1..]);
    assert groups[0] in groups;
    assert |groups| > 1 ==> !LeavesBackup(groups[0], groups[0 + 1]);
    PairedInFront(groups[0], AllMembers(groups[1..]));
  }

  /** Pairing is the one way to take each table section exactly once, in order, so that every table gets its backup. */
  lemma {:induction false} PairingIsUnique(tables: seq<SectionInfo>, groups: seq<Group>)
    ensures groups == Pair(tables) <==> AllMembers(groups) == tables && TakesAll(groups)
    decreases |groups|
  {
    PairingConserves(tables);
    PairTakesAll(tables);
    if AllMembers(groups) == tables && TakesAll(groups) && groups != [] {
      FirstTaken(groups);
      RestTakesAll(groups);
      PairingIsUnique(AllMembers(groups[1..]), groups[1..]);
      assert groups == [groups[0]] + groups[1..];
    }
  }

  datatype Outcome = UsedPrimary | UsedBackup | Unverified

  /** parseTableGroupV1: prefer whichever copy validates, then whichever yields anything. */
  function ParseGroup(lib: Library, src: Source, header: FileHeader, primary: SectionInfo, backup: Option<SectionInfo>)
    : (seq<ChunkDescriptor>, Outcome)
  {
    var p := ParseTableV1(lib, src, header, primary);
    if p.1 && |p.0| > 0 then (p.0, UsedPrimary)
    else match backup
      case None => (p.0, Unverified)
      case Some(section) =>
        var b := ParseTableV1(lib, src, header, section);
        if b.1 && |b.0| > 0 then (b.0, UsedBackup)
        else if |p.0| == 0 && |b.0| > 0 then (b.0, Unverified)
        else (p.0, Unverified)
  }

  datatype Stats = Stats(total: nat, recovered: nat, invalid: nat)

  datatype Built = Built(table: seq<ChunkDescriptor>, stats: Stats)

  const NOTHING: Built := Built([], Stats(0, 0, 0))

  function AddStats(a: Stats, b: Stats): Stats {
    Stats(a.total + b.total, a.recovered + b.recovered, a.invalid + b.invalid)
  }

  function SumStats(stats: seq<Stats>): Stats {
    if stats == [] then Stats(0, 0, 0) else AddStats(stats[0], SumStats(stats[1..]))
  }

  lemma {:induction false} SumStatsAppend(a: seq<Stats>, b: seq<Stats>)
    ensures SumStats(a + b) == AddStats(SumStats(a), SumStats(b))
    decreases |a|
  {
    if a == [] {
      assert a + b == b;
    } else {
      assert (a + b)[1..] == a[1..] + b;
      SumStatsAppend(a[1..], b);
    }
  }

  lemma {:induction false} NoneInvalid(stats: seq<Stats>)
    ensures SumStats(stats).invalid == 0 <==> forall i :: 0 <= i < |stats| ==> stats[i].invalid == 0
    decreases |stats|
  {
    if stats != [] {
      NoneInvalid(stats[1..]);
      assert stats == [stats[0]] + stats[1..];
    }
  }

  function Append(a: Built, b: Built): Built {
    Built(a.table + b.table, AddStats(a.stats, b.stats))
  }

  function BuildGroup(lib: Library, src: Source, header: FileHeader, g: Group): Built {
    match g
    case Standalone(t) => Built(ParseTableV2(src, header, t), Stats(1, 0, 0))
    case Copies(p, b) =>
      var (chunks, outcome) := ParseGroup(lib, src, header, p, b);
      Built(chunks, Stats(1, if outcome == UsedBackup then 1 else 0, if outcome == Unverified then 1 else 0))
  }

  /** The table holds entries that reach the reader. */
  ghost predicate Holds(src: Source, table: SectionInfo) {
    if table.descriptorSize == 76 then exists n :: HoldsEntries(src, table, n)
    else exists n :: HoldsEntriesV2(src, table, n)
  }

  /** A group of v1 tables, or a v2 table. */
  ghost predicate OneFormat(g: Group) {
    forall table :: table in Members(g) ==> (g.Standalone? <==> table.descriptorSize != 76)
  }

  /**
   * Which copy a group of v1 tables is built from: a sound one, the primary before the backup; without one, and then
   * counted as invalid, whichever holds entries, again the primary first.
   */
  lemma GroupUses(lib: Library, src: Source, header: FileHeader, primary: SectionInfo, backup: Option<SectionInfo>)
    ensures var built := BuildGroup(lib, src, header, Copies(primary, backup));
            var fromPrimary := built.table == ParseTableV1(lib, src, header, primary).0;
            var fromBackup := backup.Some? && built.table == ParseTableV1(lib, src, header, backup.value).0;
            if SoundTable(lib, src, primary) then fromPrimary && built.stats == Stats(1, 0, 0)
            else if backup.Some? && SoundTable(lib, src, backup.value) then fromBackup && built.stats == Stats(1, 1, 0)
            else
              && built.stats == Stats(1, 0, 1)
              && ((exists n :: HoldsEntries(src, primary, n)) ==> fromPrimary)
              && (!(exists n :: HoldsEntries(src, primary, n)) && backup.Some? ==> fromBackup)
  {
    ParsedByItsBytes(lib, src, header, primary);
    if backup.Some? {
      ParsedByItsBytes(lib, src, header, backup.value);
    }
  }

  /** A group comes to nothing only if none of its tables holds entries. */
  lemma GroupEmptyIff(lib: Library, src: Source, header: FileHeader, g: Group)
    requires OneFormat(g)
    ensures BuildGroup(lib, src, header, g).table == [] <==> forall table :: table in Members(g) ==> !Holds(src, table)
  {
    match g
    case Standalone(t) =>
      assert t in Members(g);
      ParsedByItsBytesV2(src, header, t);
    case Copies(p, b) =>
      assert p in Members(g);
      ParsedByItsBytes(lib, src, header, p);
      if b.Some? {
        assert b.value in Members(g);
        ParsedByItsBytes(lib, src, header, b.value);
      }
  }

  /** Contributions of the groups, in order. */
  function Total(build: Group -> Built, groups: seq<Group>): Built {
    if groups == [] then NOTHING else Append(build(groups[0]), Total(build, groups[1..]))
  }

  function GroupBuilder(lib: Library, src: Source, header: FileHeader): Group -> Built {
    (g: Group) => BuildGroup(lib, src, header, g)
  }

  /** What buildChunkTable returns. */
  function BuildTable(lib: Library, src: Source, header: FileHeader, sections: seq<SectionInfo>): Built {
    Total(GroupBuilder(lib, src, header), Pair(SectorTables(sections)))
  }

  /** Collecting the sector tables, as the builder's first loop does. */
  method CollectTables(sections: seq<SectionInfo>) returns (tables: seq<SectionInfo>)
    ensures tables == SectorTables(sections)
  {
    tables := [];
    for i := 0 to |sections|
      invariant tables + SectorTables(sections[i..]) == SectorTables(sections)
    {
      if sections[i].typ == TYPE_SECTOR_TABLE {
        tables := tables + [sections[i]];
      }
      assert sections[i..][1..] == sections[i + 1..];
    }
  }

  /** The group that starts at table i, and how many tables it takes. */
  method NextGroup(tables: seq<SectionInfo>, i: nat) returns (g: Group, taken: nat)
    requires i < |tables|
    ensures 1 <= taken <= 2 && i + taken <= |tables|
    ensures Pair(tables[i..]) == [g] + Pair(tables[i + taken..])
  {
    var primary := tables[i];
    ghost var rest := tables[i..];
    assert rest[1..] == tables[i + 1..];
    if primary.descriptorSize != DESCRIPTOR_V1_SIZE {
      return Standalone(primary), 1;
    }
    if primary.typeString == "table" && i + 1 < |tables| && tables[i + 1].typeString == "table2" {
      assert rest[2..] == tables[i + 2..];
      return Copies(primary, Some(tables[i + 1])), 2;
    }
    return Copies(primary, None), 1;
  }

  /** One more group adds its contribution. */
  lemma {:induction false} TotalOneMore(build: Group -> Built, done: seq<Group>, g: Group)
    ensures Total(build, done + [g]) == Append(Total(build, done), build(g))
    decreases |done|
  {
    if done == [] {
      assert [] + [g] == [g] && [g][1..] == [];
      AppendNothing(build(g));
    } else {
      assert (done + [g])[1..] == done[1..] + [g];
      TotalOneMore(build, done[1..], g);
      AppendAssociates(build(done[0]), Total(build, done[1..]), build(g));
    }
  }

  /** The builder's loop, for any way of building one group; done are the groups built so far. */
  method BuildAll(build: Group -> Built, tables: seq<SectionInfo>) returns (built: Built)
    ensures built == Total(build, Pair(tables))
  {
    built := NOTHING;
    ghost var done: seq<Group> := [];
    assert tables[0..] == tables;
    var i := 0;
    while i < |tables|
      invariant 0 <= i <= |tables|
      invariant Pair(tables) == done + Pair(tables[i..])
      invariant built == Total(build, done)
    {
      var g, taken := NextGroup(tables, i);
      TotalOneMore(build, done, g);
      JoinAssociates(done, [g], Pair(tables[i + taken..]));
      built := Append(built, build(g));
      done := done + [g];
      i := i + taken;
    }
    assert tables[i..] == [] && done + [] == done;
  }

  lemma {:induction false} TotalEmptyIff(build: Group -> Built, groups: seq<Group>)
    ensures Total(build, groups).table == [] <==> forall g :: g in groups ==> build(g).table == []
    decreases |groups|
  {
    if groups != [] {
      TotalEmptyIff(build, groups[1..]);
      assert groups == [groups[0]] + groups[1..];
    }
  }

  lemma {:induction false} MembersOfAll(groups: seq<Group>)
    ensures forall table :: table in AllMembers(groups) <==> exists g :: g in groups && table in Members(g)
    decreases |groups|
  {
    if groups != [] {
      MembersOfAll(groups[1..]);
      assert groups == [groups[0]] + groups[1..];
    }
  }

  /** v1 and v2 descriptors differ in size, and no file mixes them. */
  ghost predicate SameFormat(tables: seq<SectionInfo>) {
    forall a, b :: a in tables && b in tables ==> (a.descriptorSize == 76 <==> b.descriptorSize == 76)
  }

  /** No table that holds entries is dropped: the chunk table is empty only if no table section holds any. */
  lemma {:induction false} TableEmptyIff(lib: Library, src: Source, header: FileHeader, tables: seq<SectionInfo>)
    requires SameFormat(tables)
    ensures Total(GroupBuilder(lib, src, header), Pair(tables)).table == [] <==>
            forall table :: table in tables ==> !Holds(src, table)
  {
    var build, groups := GroupBuilder(lib, src, header), Pair(tables);
    PairingConserves(tables);
    PairTakesAll(tables);
    MembersOfAll(groups);
    TotalEmptyIff(build, groups);
    forall g | g in groups
      ensures build(g).table == [] <==> forall table :: table in Members(g) ==> !Holds(src, table)
    {
      assert Members(g)[0] in Members(g) && Members(g)[0] in tables;
      GroupEmptyIff(lib, src, header, g);
    }
  }

  /**
   * buildChunkTable: one pass over the tables, skipping a backup along with its primary. Nothing comes of it only if
   * no table section holds entries.
   */
  method BuildChunkTable(lib: Library, src: Source, header: FileHeader, sections: seq<SectionInfo>)
    returns (built: Built)
    ensures built == BuildTable(lib, src, header, sections)
    ensures SameFormat(SectorTables(sections)) ==>
              (built.table == [] <==> forall table :: table in SectorTables(sections) ==> !Holds(src, table))
  {
    if SameFormat(SectorTables(sections)) {
      TableEmptyIff(lib, src, header, SectorTables(sections));
    }
    var tables := CollectTables(sections);
    built := BuildAll(GroupBuilder(lib, src, header), tables);
  }

  lemma AppendNothing(b: Built)
    ensures Append(NOTHING, b) == b == Append(b, NOTHING)
  {
    assert [] + b.table == b.table == b.table + [];
  }

  lemma AppendAssociates(a: Built, b: Built, c: Built)
    ensures Append(a, Append(b, c)) == Append(Append(a, b), c)
  {
    assert a.table + (b.table + c.table) == a.table + b.table + c.table;
  }

  lemma {:induction false} TotalStep(build: Group -> Built, g: Group, rest: seq<Group>)
    ensures Total(build, [g] + rest) == Append(build(g), Total(build, rest))
  {
    assert ([g] + rest)[1..] == rest;
  }
}
