/** Section chains: a forward walk by size in EWF v1, a backward walk by previous offset in EWF v2. */
module Sections {
  import opened Bytes

  const DESCRIPTOR_V1_SIZE: int := 76
  const DESCRIPTOR_V2_SIZE: int := 64
  const FILE_HEADER_V1_SIZE: int := 13
  const FILE_HEADER_V2_SIZE: int := 32

  /** The iteration cap of both walks. */
  const MAX_SECTIONS: int := 0x1_0000

  const TYPE_DEVICE_INFORMATION: u32 := 0x01
  const TYPE_SECTOR_DATA: u32 := 0x03
  const TYPE_SECTOR_TABLE: u32 := 0x04
  const TYPE_ERROR_TABLE: u32 := 0x05
  const TYPE_SESSION_TABLE: u32 := 0x06
  const TYPE_MD5_HASH: u32 := 0x08
  const TYPE_ENCRYPTION_KEYS: u32 := 0x0b
  const TYPE_NEXT: u32 := 0x0d
  const TYPE_DONE: u32 := 0x0f

  datatype SectionInfo = SectionInfo(
    offset: pos,
    descriptorSize: u32,
    typ: u32,
    typeString: string,
    dataFlags: u32,
    size: u64,
    dataOffset: pos,
    dataSize: u64,
    paddingSize: u32)

  datatype ChainError = Unreadable | BadPreviousOffset | NoNextOrDone | TooSmall

  predicate IsTerminal(s: SectionInfo) {
    s.typ == TYPE_NEXT || s.typ == TYPE_DONE
  }

  // ----- v1 type names

  /** The UTF-8 encodings of the white-space characters that trimming removes. */
  predicate IsSpaceRune(s: seq<byte>) {
    match |s|
    case 1 => 9 <= s[0] <= 13 || s[0] == 32
    case 2 => s[0] == 0xC2 && (s[1] == 0x85 || s[1] == 0xA0)
    case 3 =>
      || (s[0] == 0xE1 && s[1] == 0x9A && s[2] == 0x80)
      || (s[0] == 0xE2 && s[1] == 0x80 && (0x80 <= s[2] <= 0x8A || s[2] == 0xA8 || s[2] == 0xA9 || s[2] == 0xAF))
      || (s[0] == 0xE2 && s[1] == 0x81 && s[2] == 0x9F)
      || (s[0] == 0xE3 && s[1] == 0x80 && s[2] == 0x80)
    case _ => false
  }

  function TrimStart(s: seq<byte>): seq<byte> {
    if |s| >= 1 && IsSpaceRune(s[..1]) then TrimStart(s[1..])
    else if |s| >= 2 && IsSpaceRune(s[..2]) then TrimStart(s[2..])
    else if |s| >= 3 && IsSpaceRune(s[..3]) then TrimStart(s[3..])
    else s
  }

  function TrimEnd(s: seq<byte>): seq<byte> {
    if |s| >= 1 && IsSpaceRune(s[|s| - 1..]) then TrimEnd(s[..|s| - 1])
    else if |s| >= 2 && IsSpaceRune(s[|s| - 2..]) then TrimEnd(s[..|s| - 2])
    else if |s| >= 3 && IsSpaceRune(s[|s| - 3..]) then TrimEnd(s[..|s| - 3])
    else s
  }

  /** Everything before the first NUL. */
  function UpToNul(raw: seq<byte>): seq<byte> {
    if raw == [] || raw[0] == 0 then [] else [raw[0]] + UpToNul(raw[1..])
  }

  function Text(s: seq<byte>): string {
    seq(|s|, i requires 0 <= i < |s| => s[i] as char)
  }

  /** parseTypeString: cut at the first NUL, then trim white space. */
  function ParseTypeString(raw: seq<byte>): string {
    Text(TrimEnd(TrimStart(UpToNul(raw))))
  }

  function MapV1TypeString(name: string): u32 {
    if name == "next" then TYPE_NEXT
    else if name == "done" then TYPE_DONE
    else if name == "table" || name == "table2" then TYPE_SECTOR_TABLE
    else if name == "sectors" then TYPE_SECTOR_DATA
    else if name == "error" || name == "error2" then TYPE_ERROR_TABLE
    else if name == "session" then TYPE_SESSION_TABLE
    else if name == "digest" || name == "hash" then TYPE_MD5_HASH
    else if name == "disk" || name == "volume" || name == "data" then TYPE_DEVICE_INFORMATION
    else 0
  }

  /** Which names give a section a meaning; the codes are those of the v2 section types. */
  lemma NamesOfKinds(name: string)
    ensures var typ := MapV1TypeString(name);
            && (typ == 0x01 <==> name in ["disk", "volume", "data"])
            && (typ == 0x03 <==> name == "sectors")
            && (typ == 0x04 <==> name in ["table", "table2"])
            && (typ == 0x05 <==> name in ["error", "error2"])
            && (typ == 0x06 <==> name == "session")
            && (typ == 0x08 <==> name in ["digest", "hash"])
            && (typ == 0x0d <==> name == "next")
            && (typ == 0x0f <==> name == "done")
            && (typ == 0 || name in ["disk", "volume", "data", "sectors", "table", "table2", "error", "error2",
                                     "session", "digest", "hash", "next", "done"])
  {
  }

  // ----- v1: forward by size

  /** readSectionDescriptorV1: the descriptor at offset, or None when it cannot be read. */
  function ReadDescriptorV1(src: Source, offset: i64): (r: Option<SectionInfo>)
    ensures r.Some? ==> r.value.offset == offset && 0 <= offset && offset + DESCRIPTOR_V1_SIZE <= |src|
    ensures r.None? <==> !(0 <= offset && offset + DESCRIPTOR_V1_SIZE <= |src|)
  {
    match ReadSlice(src, offset, DESCRIPTOR_V1_SIZE)
    case None => None
    case Some(data) =>
      var nextOffset, stated := U64(data[16..24]), U64(data[24..32]);
      var size: u64 := if stated == 0 && nextOffset > offset then nextOffset - offset else stated;
      var dataSize: u64 := if size >= DESCRIPTOR_V1_SIZE then size - DESCRIPTOR_V1_SIZE else 0;
      var name := ParseTypeString(data[0..16]);
      Some(SectionInfo(offset, DESCRIPTOR_V1_SIZE, MapV1TypeString(name), name, 0, size,
                       offset + DESCRIPTOR_V1_SIZE, dataSize, 0))
  }

  /** A v1 descriptor is typed by the name in its first 16 bytes, and its data starts behind its 76. */
  lemma DescriptorV1Type(src: Source, offset: i64)
    requires 0 <= offset && offset + 76 <= |src|
    ensures var s := ReadDescriptorV1(src, offset).value;
            && s.typeString == ParseTypeString(src[offset..offset + 16]) && s.typ == MapV1TypeString(s.typeString)
            && s.descriptorSize == 76 && s.dataOffset == offset + 76
  {
    SliceOfSlice(src, offset, offset + 76, 0, 16);
  }

  /**
   * Its size is the one it states, or with none stated all up to the next section if that lies ahead; its data is what
   * that leaves behind the descriptor, if anything.
   */
  lemma DescriptorV1Size(src: Source, offset: i64)
    requires 0 <= offset && offset + 76 <= |src|
    ensures var s := ReadDescriptorV1(src, offset).value;
            var next, stated := U64(src[offset + 16..offset + 24]), U64(src[offset + 24..offset + 32]);
            && (stated > 0 ==> s.size == stated)
            && (stated == 0 && next > offset ==> offset + s.size == next)
            && (stated == 0 && next <= offset ==> s.size == 0)
            && (if s.size <= 76 then s.dataSize == 0 else 76 + s.dataSize == s.size)
  {
    SliceOfSlice(src, offset, offset + 76, 16, 24);
    SliceOfSlice(src, offset, offset + 76, 24, 32);
  }

  /** Where the v1 walk looks next: int64 addition of a size read as uint64. */
  function NextOffset(s: SectionInfo): i64 {
    WrapI64(s.offset + s.size)
  }

  type Chain = Result<seq<SectionInfo>, ChainError>

  function Prepend(done: seq<SectionInfo>, rest: Chain): Chain {
    match rest
    case Err(e) => Err(e)
    case Ok(ss) => Ok(done + ss)
  }

  /** Descriptors by offset: what a walk can look up. */
  type Descriptors = i64 -> Option<SectionInfo>

  function DescriptorsV1(src: Source): Descriptors {
    (offset: i64) => ReadDescriptorV1(src, offset)
  }

  /** A descriptor says where it was found. */
  ghost predicate Located(read: Descriptors) {
    forall o: i64 :: read(o).Some? ==> read(o).value.offset == o
  }

  /** The forward walk from offset with at most fuel descriptors. */
  function Walk(read: Descriptors, offset: i64, fuel: nat): Chain
    decreases fuel
  {
    if fuel == 0 then Err(NoNextOrDone)
    else match read(offset)
      case None => Err(Unreadable)
      case Some(s) => if IsTerminal(s) then Ok([s]) else Prepend([s], Walk(read, NextOffset(s), fuel - 1))
  }

  function WalkV1(src: Source): Chain {
    Walk(DescriptorsV1(src), FILE_HEADER_V1_SIZE, MAX_SECTIONS)
  }

  /** The loop of parseSectionsV1, over whatever descriptors the source holds. */
  method WalkForward(read: Descriptors, start: i64, cap: nat) returns (r: Chain)
    requires Located(read)
    ensures r == Walk(read, start, cap)
  {
    var offset: i64 := start;
    var sections: seq<SectionInfo> := [];
    var i := 0;
    PrependNothing(Walk(read, start, cap));
    while i < cap
      invariant 0 <= i <= cap
      invariant Walk(read, start, cap) == Prepend(sections, Walk(read, offset, cap - i))
    {
      var descriptor := read(offset);
      if descriptor.None? {
        return Err(Unreadable);
      }
      ghost var before, rest := sections, Walk(read, WrapI64(offset + descriptor.value.size), cap - i - 1);
      sections := sections + [descriptor.value];
      if descriptor.value.typ == TYPE_NEXT || descriptor.value.typ == TYPE_DONE {
        return Ok(sections);
      }
      PrependTwice(before, [descriptor.value], rest);
      offset := WrapI64(offset + descriptor.value.size);
      i := i + 1;
    }
    return Err(NoNextOrDone);
  }

  /** parseSectionsV1. */
  method ParseSectionsV1(src: Source) returns (r: Chain)
    ensures r == WalkV1(src)
  {
    r := WalkForward(DescriptorsV1(src), FILE_HEADER_V1_SIZE, MAX_SECTIONS);
  }

  lemma PrependNothing(rest: Chain)
    ensures Prepend([], rest) == rest
  {
    if rest.Ok? {
      assert [] + rest.value == rest.value;
    }
  }

  lemma PrependTwice(a: seq<SectionInfo>, b: seq<SectionInfo>, rest: Chain)
    ensures Prepend(a, Prepend(b, rest)) == Prepend(a + b, rest)
  {
    if rest.Ok? {
      assert a + (b + rest.value) == a + b + rest.value;
    }
  }

  /** ss is a chain: it starts at start, each section leads to the next, and only the last is next/done. */
  ghost predicate IsChain(read: Descriptors, start: i64, ss: seq<SectionInfo>) {
    && |ss| > 0 && ss[0].offset == start
    && (forall i :: 0 <= i < |ss| ==> read(ss[i].offset) == Some(ss[i]))
    && (forall i :: 0 <= i < |ss| - 1 ==> !IsTerminal(ss[i]) && ss[i + 1].offset == NextOffset(ss[i]))
    && IsTerminal(ss[|ss| - 1])
  }

  /** The walk succeeds exactly on chains no longer than its cap, and returns the chain. */
  lemma {:induction false} WalkFindsChain(read: Descriptors, start: i64, fuel: nat, ss: seq<SectionInfo>)
    requires Located(read)
    ensures Walk(read, start, fuel) == Ok(ss) <==> IsChain(read, start, ss) && |ss| <= fuel
    decreases fuel
  {
    if fuel > 0 && ss != [] && read(start).Some? {
      var s := read(start).value;
      if !IsTerminal(s) {
        WalkFindsChain(read, NextOffset(s), fuel - 1, ss[1..]);
        ChainTail(read, start, ss);
        assert ss == [ss[0]] + ss[1..];
      } else {
        ChainTail(read, start, ss);
        assert |ss| == 1 ==> ss == [ss[0]];
      }
    }
  }

  lemma ChainTail(read: Descriptors, start: i64, ss: seq<SectionInfo>)
    requires Located(read) && |ss| > 0
    ensures IsChain(read, start, ss) <==>
            read(start) == Some(ss[0]) &&
            if |ss| == 1 then IsTerminal(ss[0])
            else !IsTerminal(ss[0]) && IsChain(read, NextOffset(ss[0]), ss[1..])
  {
    var rest := ss[1..];
    if |ss| > 1 && read(start) == Some(ss[0]) && !IsTerminal(ss[0]) && IsChain(read, NextOffset(ss[0]), rest) {
      assert forall i :: 1 <= i < |ss| ==> ss[i] == rest[i - 1];
    }
    if |ss| > 1 && IsChain(read, start, ss) {
      assert ss[0 + 1].offset == NextOffset(ss[0]);
      assert forall i :: 0 <= i < |rest| ==> rest[i] == ss[i + 1];
    }
  }

  /** Two visits to one offset would go on alike, so the later one's end would be an end in the middle. */
  lemma {:induction false} RevisitsAgree(read: Descriptors, start: i64, ss: seq<SectionInfo>, i: nat, j: nat, k: nat)
    requires IsChain(read, start, ss) && i <= j && j + k < |ss| && ss[i].offset == ss[j].offset
    ensures ss[i + k] == ss[j + k]
  {
    if k > 0 {
      RevisitsAgree(read, start, ss, i, j, k - 1);
      assert ss[(i + k - 1) + 1].offset == ss[(j + k - 1) + 1].offset;
    }
  }

  lemma ChainIsDistinct(read: Descriptors, start: i64, ss: seq<SectionInfo>)
    requires IsChain(read, start, ss)
    ensures forall i, j :: 0 <= i < j < |ss| ==> ss[i].offset != ss[j].offset
  {
    forall i, j | 0 <= i < j < |ss|
      ensures ss[i].offset != ss[j].offset
    {
      if ss[i].offset == ss[j].offset {
        assert !IsTerminal(ss[i + (|ss| - 1 - j)]);
        RevisitsAgree(read, start, ss, i, j, |ss| - 1 - j);
      }
    }
  }

  /** A chain longer than the cap is refused for lack of an end. */
  lemma {:induction false} WalkStopsShort(read: Descriptors, start: i64, fuel: nat, ss: seq<SectionInfo>)
    requires Located(read) && IsChain(read, start, ss) && fuel < |ss|
    ensures Walk(read, start, fuel) == Err(NoNextOrDone)
    decreases fuel
  {
    ChainTail(read, start, ss);
    if fuel > 0 {
      WalkStopsShort(read, NextOffset(ss[0]), fuel - 1, ss[1..]);
    }
  }

  /** Where the walk stands after n sections, none of which ended it. */
  ghost function Reached(read: Descriptors, start: i64, n: nat): Option<i64>
    decreases n
  {
    if n == 0 then Some(start)
    else match read(start)
      case None => None
      case Some(s) => if IsTerminal(s) then None else Reached(read, NextOffset(s), n - 1)
  }

  ghost predicate UnreadableAfter(read: Descriptors, start: i64, n: nat) {
    Reached(read, start, n).Some? && read(Reached(read, start, n).value) == None
  }

  /** The walk fails as unreadable exactly if, within the cap, it leads to a place without a descriptor. */
  lemma {:induction false} WalkUnreadableIff(read: Descriptors, start: i64, fuel: nat)
    ensures var r := Walk(read, start, fuel);
            && (r == Err(Unreadable) <==> exists n: nat :: n < fuel && UnreadableAfter(read, start, n))
            && (r.Err? ==> r.error == Unreadable || r.error == NoNextOrDone)
    decreases fuel
  {
    if fuel > 0 {
      if read(start).None? {
        assert UnreadableAfter(read, start, 0);
      } else if IsTerminal(read(start).value) {
        assert forall n: nat :: n > 0 ==> Reached(read, start, n) == None;
      } else {
        var next := NextOffset(read(start).value);
        WalkUnreadableIff(read, next, fuel - 1);
        assert forall n: nat :: UnreadableAfter(read, start, n + 1) <==> UnreadableAfter(read, next, n);
        if n: nat :| n < fuel && UnreadableAfter(read, start, n) {
          assert n > 0 && UnreadableAfter(read, next, n - 1);
        }
        if n: nat :| n < fuel - 1 && UnreadableAfter(read, next, n) {
          assert UnreadableAfter(read, start, n + 1);
        }
      }
    }
  }

  /**
   * Sizes may be zero or step backwards, yet a walk that succeeds never visits an offset twice: all offsets are
   * distinct, each is its predecessor's plus its size, and exactly the last section is next or done.
   */
  lemma NoRevisitOnSuccess(src: Source, ss: seq<SectionInfo>)
    requires WalkV1(src) == Ok(ss)
    ensures |ss| > 0 && ss[0].offset == FILE_HEADER_V1_SIZE
    ensures forall i, j :: 0 <= i < j < |ss| ==> ss[i].offset != ss[j].offset
    ensures forall i :: 0 <= i < |ss| - 1 ==> ss[i + 1].offset == WrapI64(ss[i].offset + ss[i].size)
    ensures forall i :: 0 <= i < |ss| ==> (IsTerminal(ss[i]) <==> i == |ss| - 1)
  {
    WalkFindsChain(DescriptorsV1(src), FILE_HEADER_V1_SIZE, MAX_SECTIONS, ss);
    ChainIsDistinct(DescriptorsV1(src), FILE_HEADER_V1_SIZE, ss);
  }

  /** Conversely, the walk fails only when no chain of at most its cap starts after the file header. */
  lemma FailureMeansNoChain(src: Source, ss: seq<SectionInfo>)
    requires WalkV1(src).Err?
    ensures !(IsChain(DescriptorsV1(src), FILE_HEADER_V1_SIZE, ss) && |ss| <= MAX_SECTIONS)
  {
    WalkFindsChain(DescriptorsV1(src), FILE_HEADER_V1_SIZE, MAX_SECTIONS, ss);
  }
}
