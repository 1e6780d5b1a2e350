/** Chunk tables: pairing a table with its backup, and turning table entries into chunk descriptors. */
module ChunkTables {
  import opened Bytes
  import opened Chunks
  import opened Sections

  const TABLE_HEADER_V1_SIZE: int := 24
  const TABLE_HEADER_V2_SIZE: int := 32
  const TABLE_ENTRY_V2_SIZE: int := 16
  const TABLE_CHECKSUM_SIZE: int := 4
  const MAX_TABLE_ENTRIES: int := 0x100_0000

  const FLAG_BIT: int := 0x8000_0000

  /** The file-header fields that table parsing passes on to every chunk. */
  datatype FileHeader = FileHeader(majorVersion: byte, minorVersion: byte, compressionMethod: u16, segmentNumber: u32)

  // ----- v1 entries

  /** What one v1 entry says about its chunk. */
  datatype Slot = Slot(offset: i64, size: u32, compressed: bool)

  /** The offset part of an entry: 31 bits below the flag, or in overflow mode all 32. */
  function Masked(entry: u32, overflow: bool): u32 {
    if overflow then entry else entry % 0x8000_0000
  }

  /** The stored size of a chunk from the entry after it. */
  function EntrySize(next: u32, rel: u32, overflow: bool): u32 {
    var nextRel := Masked(next, overflow);
    if nextRel < rel then (next - rel) % 0x1_0000_0000 else nextRel - rel
  }

  /** lastChunkSizeV1: a group's final chunk ends where the table, or for a backup its primary, begins. */
  function LastChunkSize(section: SectionInfo, isBackup: bool, abs: i64): u32
  {
    var start := section.offset;
    var end := if section.size <= MAX_INT64 - start then start + section.size else start;
    var dataEnd :=
      if isBackup then
        var primary := if section.size <= start then start - section.size else 0;
        if primary <= abs < start then start else primary
      else if abs < start then start
      else if abs < end then end
      else 0;
    if dataEnd <= abs then 0
    else
      var last := WrapI64(dataEnd - abs);
      if last > MAX_UINT32 then MAX_UINT32 else last % 0x1_0000_0000
  }

  /** What entry i, which is not the last, says with the one after it. */
  function SlotAt(raw: seq<u32>, base: u64, i: nat, overflow: bool): Slot
    requires i + 1 < |raw|
  {
    var rel := Masked(raw[i], overflow);
    Slot(WrapI64(base + rel), EntrySize(raw[i + 1], rel, overflow), !overflow && raw[i] >= FLAG_BIT)
  }

  /** Overflow mode is sticky, and entered once a chunk ends beyond 2 GiB. */
  predicate ModeAfter(slot: Slot, overflow: bool) {
    overflow || WrapI64(slot.offset + slot.size) > MAX_INT32
  }

  function LastSlot(entry: u32, base: u64, lastSize: i64 -> u32, overflow: bool): Slot {
    var abs := WrapI64(base + Masked(entry, overflow));
    Slot(abs, lastSize(abs), !overflow && entry >= FLAG_BIT)
  }

  /** Entries i.. decoded. */
  function DecodeEntries(raw: seq<u32>, base: u64, lastSize: i64 -> u32, i: nat, overflow: bool): (slots: seq<Slot>)
    requires i <= |raw|
    ensures |slots| == |raw| - i
    decreases |raw| - i
  {
    if i == |raw| then []
    else if i == |raw| - 1 then [LastSlot(raw[i], base, lastSize, overflow)]
    else
      var slot := SlotAt(raw, base, i, overflow);
      [slot] + DecodeEntries(raw, base, lastSize, i + 1, ModeAfter(slot, overflow))
  }

  // ----- decoding inverts encoding

  /** A chunk as the writer of a table sees it. */
  datatype Extent = Extent(size: nat, compressed: bool)

  /** The relative offset of chunk i: the sizes before it. */
  ghost function Rel(chunks: seq<Extent>, i: nat): nat
    requires i <= |chunks|
  {
    if i == 0 then 0 else Rel(chunks, i - 1) + chunks[i - 1].size
  }

  /** Chunk i is written as a plain 32-bit offset: some chunk before it ended beyond 2 GiB. */
  ghost predicate Plain(chunks: seq<Extent>, base: int, i: nat)
    requires i <= |chunks|
  {
    i > 0 && base + Rel(chunks, i) > MAX_INT32
  }

  /** A table the format can express: small chunks, 32-bit relative offsets, positions within int64. */
  ghost predicate Encodable(chunks: seq<Extent>, base: int) {
    && 0 <= base && base + Rel(chunks, |chunks|) <= MAX_INT64
    && (forall i :: 0 <= i < |chunks| ==> chunks[i].size < FLAG_BIT)
    && (chunks != [] ==> Rel(chunks, |chunks| - 1) < TWO_32)
  }

  lemma {:induction false} RelMonotone(chunks: seq<Extent>, i: nat, j: nat)
    requires i <= j <= |chunks|
    ensures Rel(chunks, i) <= Rel(chunks, j)
    decreases j
  {
    if i < j {
      RelMonotone(chunks, i, j - 1);
    }
  }

  function Flagged(rel: nat, compressed: bool): u32
    requires rel < FLAG_BIT
  {
    if compressed then rel + FLAG_BIT else rel
  }

  /** The writer's entry for chunk i: a flagged 31-bit offset, or after the switch a plain 32-bit one. */
  ghost function RawEntry(chunks: seq<Extent>, base: int, i: nat): u32
    requires Encodable(chunks, base) && i < |chunks|
  {
    RelMonotone(chunks, i, |chunks| - 1);
    if Plain(chunks, base, i) then Rel(chunks, i)
    else Flagged(Rel(chunks, i), chunks[i].compressed)
  }

  ghost function Encode(chunks: seq<Extent>, base: int): (raw: seq<u32>)
    requires Encodable(chunks, base)
    ensures |raw| == |chunks|
  {
    seq(|chunks|, i requires 0 <= i < |chunks| => RawEntry(chunks, base, i))
  }

  /** What chunk i is: its true position and size, and its flag where the format can carry one. */
  ghost function TrueSlot(chunks: seq<Extent>, base: int, i: nat): Slot
    requires Encodable(chunks, base) && i < |chunks|
  {
    RelMonotone(chunks, i, |chunks|);
    Slot(base + Rel(chunks, i), chunks[i].size, chunks[i].compressed && !Plain(chunks, base, i))
  }

  ghost function TrueSlots(chunks: seq<Extent>, base: int, from: nat): (slots: seq<Slot>)
    requires Encodable(chunks, base) && from <= |chunks|
    ensures |slots| == |chunks| - from
  {
    seq(|chunks| - from, k requires 0 <= k < |chunks| - from => TrueSlot(chunks, base, from + k))
  }

  lemma MaskDropsFlag(rel: nat, compressed: bool)
    requires rel < FLAG_BIT
    ensures Masked(Flagged(rel, compressed), false) == rel
    ensures Flagged(rel, compressed) >= FLAG_BIT <==> compressed
  {
  }

  /** Masking recovers the relative offset, and the flag bit of an unmasked entry is the flag. */
  lemma {:induction false} EntryRel(chunks: seq<Extent>, base: int, i: nat)
    requires Encodable(chunks, base) && i < |chunks|
    ensures Rel(chunks, i) < TWO_32
    ensures !Plain(chunks, base, i) ==> Rel(chunks, i) < FLAG_BIT
    ensures Masked(RawEntry(chunks, base, i), Plain(chunks, base, i)) == Rel(chunks, i)
    ensures !Plain(chunks, base, i) ==> (RawEntry(chunks, base, i) >= FLAG_BIT <==> chunks[i].compressed)
  {
    RelMonotone(chunks, i, |chunks| - 1);
    if !Plain(chunks, base, i) {
      MaskDropsFlag(Rel(chunks, i), chunks[i].compressed);
    }
  }

  /** The entry after chunk i gives its size, on either side of the switch and across it. */
  lemma EntrySizeInverts(chunks: seq<Extent>, base: int, i: nat)
    requires Encodable(chunks, base) && i + 1 < |chunks|
    ensures EntrySize(RawEntry(chunks, base, i + 1), Rel(chunks, i), Plain(chunks, base, i)) == chunks[i].size
    ensures Plain(chunks, base, i) ==> Plain(chunks, base, i + 1)
  {
    EntryRel(chunks, base, i);
    EntryRel(chunks, base, i + 1);
  }

  lemma TrueSlotsCons(chunks: seq<Extent>, base: int, i: nat)
    requires Encodable(chunks, base) && i < |chunks|
    ensures TrueSlots(chunks, base, i) == [TrueSlot(chunks, base, i)] + TrueSlots(chunks, base, i + 1)
  {
    var all, rest := TrueSlots(chunks, base, i), TrueSlots(chunks, base, i + 1);
    forall k | 0 <= k < |rest|
      ensures all[k + 1] == rest[k]
    {
      assert i + (k + 1) == i + 1 + k;
    }
  }

  /** The positions of an encodable table lie within int64, so nothing wraps. */
  lemma {:induction false} PositionsFit(chunks: seq<Extent>, base: int, i: nat)
    requires Encodable(chunks, base) && i <= |chunks|
    ensures WrapI64(base + Rel(chunks, i)) == base + Rel(chunks, i)
  {
    RelMonotone(chunks, i, |chunks|);
  }

  /** An entry that is not the last says what is true of its chunk. */
  lemma DecodeStep(chunks: seq<Extent>, base: int, i: nat)
    requires Encodable(chunks, base) && i < |chunks| - 1
    ensures SlotAt(Encode(chunks, base), base, i, Plain(chunks, base, i)) == TrueSlot(chunks, base, i)
  {
    EntryRel(chunks, base, i);
    EntrySizeInverts(chunks, base, i);
    PositionsFit(chunks, base, i);
  }

  /** Overflow mode starts when the writer switches. */
  lemma ModeStep(chunks: seq<Extent>, base: int, i: nat)
    requires Encodable(chunks, base) && i < |chunks| - 1
    ensures ModeAfter(TrueSlot(chunks, base, i), Plain(chunks, base, i)) == Plain(chunks, base, i + 1)
  {
    RelMonotone(chunks, i, i + 1);
    PositionsFit(chunks, base, i + 1);
  }

  lemma LastStep(chunks: seq<Extent>, base: int, lastSize: i64 -> u32)
    requires Encodable(chunks, base) && chunks != []
    ensures var last := |chunks| - 1;
            var slot := TrueSlot(chunks, base, last);
            LastSlot(Encode(chunks, base)[last], base, lastSize, Plain(chunks, base, last)) ==
            slot.(size := lastSize(slot.offset))
  {
    EntryRel(chunks, base, |chunks| - 1);
    PositionsFit(chunks, base, |chunks| - 1);
  }

  /** Decoding from chunk i on recovers every chunk from i on. */
  lemma {:induction false} DecodeInverts(
    chunks: seq<Extent>, raw: seq<u32>, base: int, lastSize: i64 -> u32, i: nat)
    requires Encodable(chunks, base) && i <= |chunks| && raw == Encode(chunks, base)
    requires chunks != [] ==>
               lastSize(TrueSlot(chunks, base, |chunks| - 1).offset) == chunks[|chunks| - 1].size
    ensures DecodeEntries(raw, base, lastSize, i, Plain(chunks, base, i)) == TrueSlots(chunks, base, i)
    decreases |chunks| - i
  {
    if i < |chunks| {
      TrueSlotsCons(chunks, base, i);
      if i < |chunks| - 1 {
        DecodeStep(chunks, base, i);
        ModeStep(chunks, base, i);
        DecodeInverts(chunks, raw, base, lastSize, i + 1);
      } else {
        LastStep(chunks, base, lastSize);
      }
    }
  }

  /** The slot has chunk i's position and flag, and its size unless it is the last. */
  ghost predicate DecodedAs(chunks: seq<Extent>, base: int, i: nat, slot: Slot)
    requires Encodable(chunks, base) && i < |chunks|
  {
    var truth := TrueSlot(chunks, base, i);
    slot.offset == truth.offset && slot.compressed == truth.compressed && (i < |chunks| - 1 ==> slot.size == truth.size)
  }

  /** Alike but for the last size, which in sa is what lastSize says. */
  ghost predicate AlikeButLast(sa: seq<Slot>, sb: seq<Slot>, lastSize: i64 -> u32) {
    && |sa| == |sb| > 0
    && (forall k :: 0 <= k < |sa| - 1 ==> sa[k] == sb[k])
    && sa[|sa| - 1] == sb[|sa| - 1].(size := lastSize(sa[|sa| - 1].offset))
  }

  lemma AlikeGrows(slot: Slot, sa: seq<Slot>, sb: seq<Slot>, lastSize: i64 -> u32)
    requires AlikeButLast(sa, sb, lastSize)
    ensures AlikeButLast([slot] + sa, [slot] + sb, lastSize)
  {
  }

  /** The last chunk's size is all that depends on how it is derived. */
  lemma {:induction false} DecodedButLast(
    raw: seq<u32>, base: u64, a: i64 -> u32, b: i64 -> u32, i: nat, overflow: bool)
    requires i < |raw|
    ensures AlikeButLast(DecodeEntries(raw, base, a, i, overflow), DecodeEntries(raw, base, b, i, overflow), a)
    decreases |raw| - i
  {
    if i < |raw| - 1 {
      var slot := SlotAt(raw, base, i, overflow);
      var after := ModeAfter(slot, overflow);
      DecodedButLast(raw, base, a, b, i + 1, after);
      AlikeGrows(slot, DecodeEntries(raw, base, a, i + 1, after), DecodeEntries(raw, base, b, i + 1, after), a);
    }
  }

  /** Decoding gives every chunk back but for the last size, which is whatever it is taken to be. */
  lemma {:induction false} AllDecoded(chunks: seq<Extent>, base: int, lastSize: i64 -> u32)
    requires Encodable(chunks, base) && chunks != []
    ensures var slots := DecodeEntries(Encode(chunks, base), base, lastSize, 0, false);
            && (forall i :: 0 <= i < |chunks| ==> DecodedAs(chunks, base, i, slots[i]))
            && slots[|chunks| - 1].size == lastSize(slots[|chunks| - 1].offset)
  {
    var raw, last := Encode(chunks, base), chunks[|chunks| - 1].size;
    var known: i64 -> u32 := (abs: i64) => last;
    DecodeInverts(chunks, raw, base, known, 0);
    DecodedButLast(raw, base, lastSize, known, 0, false);
    var slots := DecodeEntries(raw, base, lastSize, 0, false);
    forall i | 0 <= i < |chunks|
      ensures DecodedAs(chunks, base, i, slots[i])
    {
      assert TrueSlots(chunks, base, 0)[i] == TrueSlot(chunks, base, 0 + i);
    }
  }

  // ----- where a group's last chunk ends

  function LastSizeIn(section: SectionInfo): i64 -> u32
  {
    (abs: i64) => LastChunkSize(section, section.typeString == "table2", abs)
  }

  /**
   * A table that starts where its chunk data ends gives back every offset, size and flag, on both sides of the
   * overflow switch, if and only if its last chunk is not empty.
   */
  lemma {:induction false} TableInverts(chunks: seq<Extent>, base: int, section: SectionInfo)
    requires Encodable(chunks, base) && chunks != [] && section.typeString != "table2"
    requires section.offset == base + Rel(chunks, |chunks|)
    requires 0 < section.size < FLAG_BIT && section.offset + section.size <= MAX_INT64
    ensures DecodeEntries(Encode(chunks, base), base, LastSizeIn(section), 0, false) == TrueSlots(chunks, base, 0) <==>
            chunks[|chunks| - 1].size > 0
  {
    var last := |chunks| - 1;
    var abs := TrueSlot(chunks, base, last).offset;
    assert Rel(chunks, |chunks|) == Rel(chunks, last) + chunks[last].size;
    if chunks[last].size > 0 {
      DecodeInverts(chunks, Encode(chunks, base), base, LastSizeIn(section), 0);
    } else {
      assert LastSizeIn(section)(abs) == section.size;
      AllDecoded(chunks, base, LastSizeIn(section));
      assert TrueSlots(chunks, base, 0)[last] == TrueSlot(chunks, base, 0 + last);
    }
  }

  lemma NeighboursTile(chunks: seq<Extent>, base: int, i: nat, before: Slot, slot: Slot)
    requires Encodable(chunks, base) && 0 < i < |chunks|
    requires DecodedAs(chunks, base, i - 1, before) && DecodedAs(chunks, base, i, slot)
    ensures slot.offset == before.offset + before.size
  {
  }

  lemma {:induction false} LastReachesEnd(chunks: seq<Extent>, base: int, section: SectionInfo, slot: Slot)
    requires Encodable(chunks, base) && chunks != [] && section.typeString != "table2"
    requires section.offset == base + Rel(chunks, |chunks|)
    requires 0 < section.size < FLAG_BIT && section.offset + section.size <= MAX_INT64
    requires DecodedAs(chunks, base, |chunks| - 1, slot) && slot.size == LastSizeIn(section)(slot.offset)
    ensures slot.offset + slot.size == section.offset <==> chunks[|chunks| - 1].size > 0
  {
  }

  /** The decoded chunks tile the data from the base on; they end where it ends if and only if the last is not empty. */
  lemma {:induction false} SlotsTile(chunks: seq<Extent>, base: int, section: SectionInfo)
    requires Encodable(chunks, base) && chunks != [] && section.typeString != "table2"
    requires section.offset == base + Rel(chunks, |chunks|)
    requires 0 < section.size < FLAG_BIT && section.offset + section.size <= MAX_INT64
    ensures var slots := DecodeEntries(Encode(chunks, base), base, LastSizeIn(section), 0, false);
            && slots[0].offset == base
            && (forall i :: 0 < i < |slots| ==> slots[i].offset == slots[i - 1].offset + slots[i - 1].size)
            && (slots[|slots| - 1].offset + slots[|slots| - 1].size == section.offset <==>
                chunks[|chunks| - 1].size > 0)
  {
    AllDecoded(chunks, base, LastSizeIn(section));
    var slots := DecodeEntries(Encode(chunks, base), base, LastSizeIn(section), 0, false);
    forall i | 0 < i < |slots|
      ensures slots[i].offset == slots[i - 1].offset + slots[i - 1].size
    {
      NeighboursTile(chunks, base, i, slots[i - 1], slots[i]);
    }
    LastReachesEnd(chunks, base, section, slots[|slots| - 1]);
    assert DecodedAs(chunks, base, 0, slots[0]);
  }

  /** Every compressed flag is decoded if and only if no chunk written after the switch is compressed. */
  lemma {:induction false} FlagsSurviveIff(chunks: seq<Extent>, base: int, lastSize: i64 -> u32)
    requires Encodable(chunks, base) && chunks != []
    ensures var slots := DecodeEntries(Encode(chunks, base), base, lastSize, 0, false);
            (forall i :: 0 <= i < |chunks| ==> slots[i].compressed == chunks[i].compressed) <==>
            forall i :: 0 <= i < |chunks| && Plain(chunks, base, i) ==> !chunks[i].compressed
  {
    var slots := DecodeEntries(Encode(chunks, base), base, lastSize, 0, false);
    AllDecoded(chunks, base, lastSize);
    forall i | 0 <= i < |chunks|
      ensures slots[i].compressed == (chunks[i].compressed && !Plain(chunks, base, i))
    {
      assert DecodedAs(chunks, base, i, slots[i]);
    }
  }

  /** section is directly after primary, with the same size. */
  ghost predicate DirectlyAfter(primary: SectionInfo, backup: SectionInfo) {
    && backup.offset == primary.offset + primary.size && backup.size == primary.size
    && primary.typeString != "table2" && backup.typeString == "table2"
  }

  /** Where a section ends, unless that lies beyond int64. */
  function EndOf(s: SectionInfo): pos {
    if s.size <= MAX_INT64 - s.offset then s.offset + s.size else s.offset
  }

  /** Where a backup takes its primary to start. */
  function PrimaryBefore(backup: SectionInfo): pos {
    if backup.size <= backup.offset then backup.offset - backup.size else 0
  }

  /** The backup starts where the primary ends, and finds the primary's start by its own size. */
  ghost predicate Adjoins(primary: SectionInfo, backup: SectionInfo) {
    backup.offset == EndOf(primary) && PrimaryBefore(backup) == primary.offset
  }

  /** The distance, as far as 32 bits allow. */
  function UpTo(abs: int, bound: int): u32
    requires abs <= bound
  {
    if bound - abs <= 0xFFFF_FFFF then bound - abs else 0xFFFF_FFFF
  }

  lemma TableSizeReaches(section: SectionInfo, abs: pos)
    ensures var lower, upper := section.offset, EndOf(section);
            LastChunkSize(section, false, abs) ==
            if abs < lower then UpTo(abs, lower) else if abs < upper then UpTo(abs, upper) else 0
  {
  }

  lemma BackupSizeReaches(section: SectionInfo, abs: pos)
    ensures var lower, upper := PrimaryBefore(section), section.offset;
            LastChunkSize(section, true, abs) ==
            if abs < lower then UpTo(abs, lower) else if abs < upper then UpTo(abs, upper) else 0
  {
  }

  /** A table seen from just below where its data, or the table itself, ends. */
  lemma LastSizeBelowEnd(section: SectionInfo)
    requires section.typeString != "table2"
    ensures forall abs: i64 :: EndOf(section) <= abs ==> LastSizeIn(section)(abs) == 0
    ensures EndOf(section) > 0 ==> LastSizeIn(section)(EndOf(section) - 1) == 1
    ensures LastSizeIn(section)(section.offset - 1) == 1
  {
  }

  lemma BackupSizeBelowEnd(section: SectionInfo)
    requires section.typeString == "table2"
    ensures forall abs: i64 :: section.offset <= abs ==> LastSizeIn(section)(abs) == 0
    ensures section.offset > 0 ==> LastSizeIn(section)(section.offset - 1) == 1
    ensures LastSizeIn(section)(PrimaryBefore(section) - 1) == 1
  {
  }

  /** Two places for the primary give different sizes right below the lower one. */
  lemma PlacesDiffer(primary: SectionInfo, backup: SectionInfo)
    requires primary.typeString != "table2" && backup.typeString == "table2"
    requires PrimaryBefore(backup) != primary.offset
    ensures var abs := (if primary.offset < PrimaryBefore(backup) then primary.offset else PrimaryBefore(backup)) - 1;
            LastSizeIn(primary)(abs) != LastSizeIn(backup)(abs)
  {
    var abs := (if primary.offset < PrimaryBefore(backup) then primary.offset else PrimaryBefore(backup)) - 1;
    if 0 <= abs {
      TableSizeReaches(primary, abs);
      BackupSizeReaches(backup, abs);
    } else {
      LastSizeBelowEnd(primary);
      BackupSizeBelowEnd(backup);
    }
  }

  /**
   * The two derivations of the last chunk's size agree at every position, even beyond the primary, if and only if the
   * backup adjoins the primary.
   */
  lemma LastSizesAgreeIff(primary: SectionInfo, backup: SectionInfo)
    requires primary.typeString != "table2" && backup.typeString == "table2"
    ensures (forall abs: i64 :: LastSizeIn(primary)(abs) == LastSizeIn(backup)(abs)) <==> Adjoins(primary, backup)
  {
    LastSizeBelowEnd(primary);
    BackupSizeBelowEnd(backup);
    if backup.offset != EndOf(primary) {
      var end := if backup.offset < EndOf(primary) then EndOf(primary) else backup.offset;
      assert LastSizeIn(primary)(end - 1) != LastSizeIn(backup)(end - 1);
    } else if PrimaryBefore(backup) != primary.offset {
      PlacesDiffer(primary, backup);
    }
  }

  /** The two places where the data of a group may end, as one of its tables sees them: its start, and another. */
  function Bounds(section: SectionInfo): (pos, pos) {
    if section.typeString == "table2" then (PrimaryBefore(section), section.offset)
    else (section.offset, EndOf(section))
  }

  /**
   * The last chunk reaches up to the first of the two bounds that lies behind its start, as far as 32 bits allow; the
   * second one counts for data that lies inside the table section. Behind both nothing is left of it.
   */
  lemma LastSizeReaches(section: SectionInfo, abs: pos)
    ensures var (lower, upper) := Bounds(section);
            LastSizeIn(section)(abs) ==
            if abs < lower then UpTo(abs, lower) else if abs < upper then UpTo(abs, upper) else 0
  {
    TableSizeReaches(section, abs);
    BackupSizeReaches(section, abs);
  }

  /** With a gap in between, the backup makes the last chunk of the group longer by just that gap. */
  lemma GapLengthensLast(primary: SectionInfo, backup: SectionInfo, abs: i64)
    requires primary.typeString != "table2" && backup.typeString == "table2" && backup.size == primary.size
    requires primary.offset + primary.size <= backup.offset && 0 <= abs < primary.offset
    requires PrimaryBefore(backup) - abs <= MAX_UINT32
    ensures LastSizeIn(backup)(abs) ==
            LastSizeIn(primary)(abs) + (backup.offset - (primary.offset + primary.size))
  {
    LastSizeReaches(primary, abs);
    LastSizeReaches(backup, abs);
  }

  /** So they do in a table and the table2 directly after it. */
  lemma LastSizesAgree(primary: SectionInfo, backup: SectionInfo)
    requires DirectlyAfter(primary, backup)
    ensures forall abs: i64 :: LastSizeIn(primary)(abs) == LastSizeIn(backup)(abs)
  {
    LastSizesAgreeIff(primary, backup);
  }

  /** So ways of deriving it that agree everywhere decode alike. */
  lemma {:induction false} DecodeDependsOnLastSizes(raw: seq<u32>, base: u64, a: i64 -> u32, b: i64 -> u32)
    requires raw != [] && forall abs: i64 :: a(abs) == b(abs)
    ensures DecodeEntries(raw, base, a, 0, false) == DecodeEntries(raw, base, b, 0, false)
  {
    DecodedButLast(raw, base, a, b, 0, false);
    DecodedButLast(raw, base, b, b, 0, false);
  }

  // ----- v1 table sections

  /** A readable table: its entries, and whether every checksum it carries matches. */
  datatype TableBody = TableBody(raw: seq<u32>, base: u64, valid: bool)

  function RawOffsets(entries: seq<byte>): (raw: seq<u32>)
    ensures |raw| == |entries| / 4
  {
    seq(|entries| / 4, i requires 0 <= i < |entries| / 4 => U32(entries[i * 4..i * 4 + 4]))
  }

  /** The header, bounds and checksum part of parseTableSectionV1. */
  function ReadTable(lib: Library, src: Source, section: SectionInfo): (r: Option<TableBody>)
    ensures r.Some? ==> |r.value.raw| > 0
  {
    if section.dataSize < TABLE_HEADER_V1_SIZE then None
    else match ReadSlice(src, section.dataOffset, TABLE_HEADER_V1_SIZE)
      case None => None
      case Some(header) =>
        var n: int := U32(header[0..4]);
        var headerValid := lib.adler32(header[0..20]) == U32(header[20..24]);
        if n <= 0 || n > MAX_TABLE_ENTRIES || n * 4 > section.dataSize - TABLE_HEADER_V1_SIZE then None
        else match ReadSlice(src, section.dataOffset + TABLE_HEADER_V1_SIZE, n * 4)
          case None => None
          case Some(entries) =>
            Some(TableBody(RawOffsets(entries), U64(header[8..16]),
                           headerValid && EntriesValid(lib, src, section, entries)))
  }

  /** An entries checksum exists only in a table section that holds nothing else. */
  predicate EntriesValid(lib: Library, src: Source, section: SectionInfo, entries: seq<byte>) {
    section.dataSize == TABLE_HEADER_V1_SIZE + |entries| + TABLE_CHECKSUM_SIZE ==>
      match ReadSlice(src, section.dataOffset + TABLE_HEADER_V1_SIZE + |entries|, TABLE_CHECKSUM_SIZE)
      case None => true
      case Some(stored) => lib.adler32(entries) == U32(stored)
  }

  function Describe(src: Source, header: FileHeader, slot: Slot): ChunkDescriptor {
    ChunkDescriptor(Some(src), slot.offset, slot.size, slot.compressed,
                    header.majorVersion, header.compressionMethod, false, false)
  }

  function DescribeAll(src: Source, header: FileHeader, slots: seq<Slot>): (r: seq<ChunkDescriptor>)
    ensures |r| == |slots|
  {
    seq(|slots|, i requires 0 <= i < |slots| => Describe(src, header, slots[i]))
  }

  /** What parseTableSectionV1 returns: the chunks, and whether every stored checksum validated. */
  function ParseTableV1(lib: Library, src: Source, header: FileHeader, section: SectionInfo)
    : (seq<ChunkDescriptor>, bool)
  {
    match ReadTable(lib, src, section)
    case None => ([], false)
    case Some(t) =>
      (DescribeAll(src, header, DecodeEntries(t.raw, t.base, LastSizeIn(section), 0, false)), t.valid)
  }

  // ----- what a table section stores, by its bytes

  /** The section states n entries, no more than the reader takes, and they lie in the section and in the source. */
  ghost predicate HoldsEntries(src: Source, section: SectionInfo, n: int) {
    var at := section.dataOffset;
    && 1 <= n <= 0x100_0000 && 24 + 4 * n <= section.dataSize && at + 24 + 4 * n <= |src|
    && n == U32(src[at..at + 4])
  }

  /** The header matches its checksum; so do the entries, if nothing but their checksum follows them. */
  ghost predicate ChecksumsMatch(lib: Library, src: Source, section: SectionInfo, n: int)
    requires HoldsEntries(src, section, n)
  {
    var at := section.dataOffset;
    var end := at + 24 + 4 * n;
    && lib.adler32(src[at..at + 20]) == U32(src[at + 20..at + 24])
    && (section.dataSize == 28 + 4 * n && end + 4 <= |src| ==>
          lib.adler32(src[at + 24..end]) == U32(src[end..end + 4]))
  }

  /** What a stored table starts with, as it is read. */
  lemma HeaderWindows(src: Source, at: nat)
    requires at + TABLE_HEADER_V1_SIZE <= |src|
    ensures var header := src[at..at + TABLE_HEADER_V1_SIZE];
            && header[0..4] == src[at..at + 4] && header[0..20] == src[at..at + 20]
            && header[20..24] == src[at + 20..at + 24]
  {
    SliceOfSlice(src, at, at + TABLE_HEADER_V1_SIZE, 0, 4);
    SliceOfSlice(src, at, at + TABLE_HEADER_V1_SIZE, 0, 20);
    SliceOfSlice(src, at, at + TABLE_HEADER_V1_SIZE, 20, 24);
  }

  /** A section that holds entries is read as that many, and validates if and only if its checksums match. */
  lemma StoredTableRead(lib: Library, src: Source, section: SectionInfo, n: int)
    requires HoldsEntries(src, section, n)
    ensures var table := ReadTable(lib, src, section);
            table.Some? && |table.value.raw| == n && (table.value.valid <==> ChecksumsMatch(lib, src, section, n))
  {
    HeaderWindows(src, section.dataOffset);
  }

  /** Any other section is read as no table. */
  lemma UnreadHoldsNone(lib: Library, src: Source, section: SectionInfo)
    ensures ReadTable(lib, src, section).Some? <==> exists n :: HoldsEntries(src, section, n)
  {
    if ReadTable(lib, src, section).Some? {
      HeaderWindows(src, section.dataOffset);
      assert HoldsEntries(src, section, |ReadTable(lib, src, section).value.raw|);
    } else {
      forall n | HoldsEntries(src, section, n)
        ensures false
      {
        StoredTableRead(lib, src, section, n);
      }
    }
  }

  /** The section holds entries, and every checksum it stores matches. */
  ghost predicate SoundTable(lib: Library, src: Source, section: SectionInfo) {
    exists n :: HoldsEntries(src, section, n) && ChecksumsMatch(lib, src, section, n)
  }

  /** A table section gives chunks exactly if it holds entries, as many; they are verified exactly if it is sound. */
  lemma ParsedByItsBytes(lib: Library, src: Source, header: FileHeader, section: SectionInfo)
    ensures var (chunks, valid) := ParseTableV1(lib, src, header, section);
            && (chunks != [] <==> exists n :: HoldsEntries(src, section, n))
            && (forall n :: HoldsEntries(src, section, n) ==> |chunks| == n)
            && (valid <==> SoundTable(lib, src, section))
  {
    UnreadHoldsNone(lib, src, section);
    forall n | HoldsEntries(src, section, n)
      ensures var table := ReadTable(lib, src, section);
              table.Some? && |table.value.raw| == n && (table.value.valid <==> ChecksumsMatch(lib, src, section, n))
    {
      StoredTableRead(lib, src, section, n);
    }
  }

  /** Chunk k ends beyond 2 GiB. */
  predicate CrossesAt(slots: seq<Slot>, k: nat) {
    k < |slots| && WrapI64(slots[k].offset + slots[k].size) > 0x7FFF_FFFF
  }

  /** One of the first n chunks does. */
  ghost predicate Crossed(slots: seq<Slot>, n: nat) {
    exists k :: 0 <= k < n && CrossesAt(slots, k)
  }

  /** What an entry means: 31 bits of offset under a flag, or once a chunk has crossed 2 GiB 32 bits and no flag. */
  ghost predicate EntryMeans(raw: seq<u32>, base: u64, j: nat, crossed: bool, slot: Slot)
    requires j < |raw|
  {
    var rel: int := if crossed then raw[j] else raw[j] % 0x8000_0000;
    && slot.offset == WrapI64(base + rel)
    && (slot.compressed <==> !crossed && raw[j] >= 0x8000_0000)
    && (j + 1 < |raw| ==>
          var next: int := if crossed then raw[j + 1] else raw[j + 1] % 0x8000_0000;
          slot.size == if rel <= next then next - rel else (raw[j + 1] as int - rel) % 0x1_0000_0000)
  }

  lemma CrossedBehind(slot: Slot, rest: seq<Slot>, n: nat)
    ensures Crossed([slot] + rest, n + 1) <==> CrossesAt([slot], 0) || Crossed(rest, n)
  {
    var slots := [slot] + rest;
    assert CrossesAt(slots, 0) <==> CrossesAt([slot], 0);
    assert forall k: nat :: CrossesAt(slots, k + 1) <==> CrossesAt(rest, k);
    if k :| 0 <= k < n + 1 && CrossesAt(slots, k) {
      assert k > 0 ==> CrossesAt(rest, k - 1);
    }
    if k :| 0 <= k < n && CrossesAt(rest, k) {
      assert CrossesAt(slots, k + 1);
    }
  }

  lemma {:induction false} FirstEntryMeans(raw: seq<u32>, base: u64, lastSize: i64 -> u32, i: nat, overflow: bool)
    requires i < |raw|
    ensures EntryMeans(raw, base, i, overflow, DecodeEntries(raw, base, lastSize, i, overflow)[0])
  {
  }

  lemma EntryBehind(raw: seq<u32>, base: u64, lastSize: i64 -> u32, i: nat, overflow: bool, n: nat)
    returns (after: bool)
    requires i + n < |raw| && n > 0
    ensures var slots, rest := DecodeEntries(raw, base, lastSize, i, overflow),
                               DecodeEntries(raw, base, lastSize, i + 1, after);
            slots[n] == rest[n - 1] && (overflow || Crossed(slots, n) <==> after || Crossed(rest, n - 1))
  {
    var slot := SlotAt(raw, base, i, overflow);
    after := ModeAfter(slot, overflow);
    CrossedBehind(slot, DecodeEntries(raw, base, lastSize, i + 1, after), n - 1);
  }

  lemma {:induction false} EntryDecoded(
    raw: seq<u32>, base: u64, lastSize: i64 -> u32, i: nat, overflow: bool, n: nat)
    requires i + n < |raw|
    ensures var slots := DecodeEntries(raw, base, lastSize, i, overflow);
            EntryMeans(raw, base, i + n, overflow || Crossed(slots, n), slots[n])
    decreases n
  {
    if n == 0 {
      FirstEntryMeans(raw, base, lastSize, i, overflow);
    } else {
      var after := EntryBehind(raw, base, lastSize, i, overflow, n);
      EntryDecoded(raw, base, lastSize, i + 1, after, n - 1);
    }
  }

  /** Whatever the entries are, sound or not: each is decoded by itself and by what the ones before it come to. */
  lemma {:induction false} EntriesMean(raw: seq<u32>, base: u64, lastSize: i64 -> u32, j: nat)
    requires j < |raw|
    ensures var slots := DecodeEntries(raw, base, lastSize, 0, false);
            EntryMeans(raw, base, j, Crossed(slots, j), slots[j])
  {
    EntryDecoded(raw, base, lastSize, 0, false, j);
  }

  lemma StoredBase(lib: Library, src: Source, section: SectionInfo, n: int)
    requires HoldsEntries(src, section, n)
    ensures var table := ReadTable(lib, src, section); var at := section.dataOffset;
            table.Some? && |table.value.raw| == n && table.value.base == U64(src[at + 8..at + 16])
  {
    var at := section.dataOffset;
    StoredTableRead(lib, src, section, n);
    SliceOfSlice(src, at, at + 24, 8, 16);
  }

  lemma StoredEntry(lib: Library, src: Source, section: SectionInfo, n: int, j: nat)
    requires HoldsEntries(src, section, n) && j < n
    ensures var table := ReadTable(lib, src, section); var at := section.dataOffset + 24 + 4 * j;
            table.Some? && |table.value.raw| == n && table.value.raw[j] == U32(src[at..at + 4])
  {
    var at := section.dataOffset;
    StoredTableRead(lib, src, section, n);
    SliceOfSlice(src, at + 24, at + 24 + n * 4, j * 4, j * 4 + 4);
  }

  predicate EndsBeyond(chunks: seq<ChunkDescriptor>, k: nat) {
    k < |chunks| && WrapI64(chunks[k].dataOffset + chunks[k].dataSize) > 0x7FFF_FFFF
  }

  /** One of the first n chunks ends beyond 2 GiB. */
  ghost predicate CrossedBefore(chunks: seq<ChunkDescriptor>, n: nat) {
    exists k :: 0 <= k < n && EndsBeyond(chunks, k)
  }

  lemma CrossedDescribed(src: Source, header: FileHeader, slots: seq<Slot>, n: nat)
    ensures CrossedBefore(DescribeAll(src, header, slots), n) <==> Crossed(slots, n)
  {
    var chunks := DescribeAll(src, header, slots);
    forall k: nat
      ensures EndsBeyond(chunks, k) <==> CrossesAt(slots, k)
    {
    }
  }

  /** The chunk is where the base and its entry say, in the mode that the chunks before it led to. */
  ghost predicate PlacedByEntry(src: Source, base: u64, entry: u32, crossed: bool, chunk: ChunkDescriptor) {
    && chunk.dataSource == Some(src)
    && chunk.dataOffset == WrapI64(base + if crossed then entry else entry % 0x8000_0000)
    && (chunk.compressed <==> !crossed && entry >= 0x8000_0000)
  }

  lemma {:induction false} DescribedByEntry(
    src: Source, header: FileHeader, raw: seq<u32>, base: u64, lastSize: i64 -> u32, j: nat)
    requires j < |raw|
    ensures var chunks := DescribeAll(src, header, DecodeEntries(raw, base, lastSize, 0, false));
            PlacedByEntry(src, base, raw[j], CrossedBefore(chunks, j), chunks[j])
  {
    EntriesMean(raw, base, lastSize, j);
    CrossedDescribed(src, header, DecodeEntries(raw, base, lastSize, 0, false), j);
  }

  /** A chunk of a table lies at the base that the header states and the offset that its own entry states. */
  lemma {:induction false} ChunkPlacedByEntry(
    lib: Library, src: Source, header: FileHeader, section: SectionInfo, n: int, j: nat)
    requires HoldsEntries(src, section, n) && j < n
    ensures var chunks := ParseTableV1(lib, src, header, section).0; var at := section.dataOffset;
            && |chunks| == n
            && PlacedByEntry(src, U64(src[at + 8..at + 16]), U32(src[at + 24 + 4 * j..at + 28 + 4 * j]),
                             CrossedBefore(chunks, j), chunks[j])
  {
    StoredBase(lib, src, section, n);
    StoredEntry(lib, src, section, n, j);
    var table := ReadTable(lib, src, section).value;
    DescribedByEntry(src, header, table.raw, table.base, LastSizeIn(section), j);
  }
}
