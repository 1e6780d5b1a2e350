/** EWF v2 section chains: walked backwards from the end of the file by previous offset, then reversed in place. */
module SectionsV2 {
  import opened Bytes
  import opened Sections

  type DescriptorRead = Result<SectionInfo, ChainError>

  type Descriptors2 = i64 -> DescriptorRead

  /**
   * readSectionDescriptorV2 but for the display name: a previous offset of zero marks the first section, right after
   * the file header.
   */
  function ReadDescriptorV2(src: Source, offset: i64): (r: DescriptorRead)
    ensures r.Ok? ==> r.value.offset == offset && 0 <= offset
    ensures r.Ok? ==> 0 <= r.value.size <= offset || (r.value.size == offset + 32 && r.value.dataOffset == 32)
    ensures r == Err(Unreadable) <==> !(0 <= offset && offset + DESCRIPTOR_V2_SIZE <= |src|)
  {
    match ReadSlice(src, offset, DESCRIPTOR_V2_SIZE)
    case None => Err(Unreadable)
    case Some(data) =>
      var previous, typ := U64(data[8..16]), U32(data[0..4]);
      if previous > offset then Err(BadPreviousOffset)
      else
        var dataOffset: pos := if previous == 0 then FILE_HEADER_V2_SIZE else previous + DESCRIPTOR_V2_SIZE;
        var size: u64 := if previous == 0 then offset + 32 else offset - previous;
        Ok(SectionInfo(offset, DESCRIPTOR_V2_SIZE, typ, "", U32(data[4..8]), size, dataOffset,
                       U64(data[16..24]), U32(data[28..32])))
  }

  function DescriptorsV2(src: Source): Descriptors2 {
    (offset: i64) => ReadDescriptorV2(src, offset)
  }

  /** What the walk relies on: a descriptor's size leads back to an earlier place, to itself, or before the file. */
  ghost predicate LeadsBack(read: Descriptors2, fileSize: int) {
    forall o: i64 :: 0 < o < fileSize && read(o).Ok? ==>
      read(o).value.offset == o && (0 <= read(o).value.size <= o || read(o).value.size == o + 32)
  }

  /** Where the v2 walk looks next. */
  function PreviousOffset(s: SectionInfo): i64 {
    WrapI64(s.offset - s.size)
  }

  /** The backward walk, last section first, with at most fuel descriptors. Running out of fuel is no error. */
  function WalkBack(read: Descriptors2, fileSize: int, offset: i64, fuel: nat): Chain
    decreases fuel
  {
    if fuel == 0 || !(0 < offset < fileSize) then Ok([])
    else match read(offset)
      case Err(e) => Err(e)
      case Ok(s) => Prepend([s], WalkBack(read, fileSize, PreviousOffset(s), fuel - 1))
  }

  function Reversed<T>(s: seq<T>): (r: seq<T>)
    ensures |r| == |s|
  {
    seq(|s|, i requires 0 <= i < |s| => s[|s| - 1 - i])
  }

  /** A walk is good if it met next/done first; the sections are then put in file order. */
  function Finish(walked: Chain): Chain {
    match walked
    case Err(e) => Err(e)
    case Ok(ss) => if ss == [] || !IsTerminal(ss[0]) then Err(NoNextOrDone) else Ok(Reversed(ss))
  }

  /** What parseSectionsV2 returns. */
  function WalkV2(src: Source): Chain {
    if |src| < DESCRIPTOR_V2_SIZE then Err(TooSmall)
    else Finish(WalkBack(DescriptorsV2(src), |src|, |src| - DESCRIPTOR_V2_SIZE, MAX_SECTIONS))
  }

  /** reverseSections: swap from both ends towards the middle. */
  method ReverseSections(sections: array<SectionInfo>)
    modifies sections
    ensures sections[..] == Reversed(old(sections[..]))
  {
    ghost var before := sections[..];
    var i, j := 0, sections.Length - 1;
    while i < j
      invariant 0 <= i <= j + 1 && i + j == |before| - 1
      invariant forall k :: i <= k <= j ==> sections[k] == before[k]
      invariant forall k :: 0 <= k < i ==> sections[k] == before[|before| - 1 - k]
      invariant forall k :: j < k < |before| ==> sections[k] == before[|before| - 1 - k]
    {
      sections[i], sections[j] := sections[j], sections[i];
      i, j := i + 1, j - 1;
    }
  }

  /** The loop of parseSectionsV2. */
  method WalkBackward(read: Descriptors2, fileSize: int, start: i64, cap: nat) returns (r: Chain)
    ensures r == WalkBack(read, fileSize, start, cap)
  {
    var offset: i64 := start;
    var sections: seq<SectionInfo> := [];
    var i := 0;
    PrependNothing(WalkBack(read, fileSize, start, cap));
    while i < cap && offset > 0 && offset < fileSize
      invariant 0 <= i <= cap
      invariant WalkBack(read, fileSize, start, cap) == Prepend(sections, WalkBack(read, fileSize, offset, cap - i))
    {
      var descriptor := read(offset);
      if descriptor.Err? {
        return Err(descriptor.error);
      }
      var next := WrapI64(descriptor.value.offset - descriptor.value.size);
      PrependTwice(sections, [descriptor.value], WalkBack(read, fileSize, next, cap - i - 1));
      sections := sections + [descriptor.value];
      offset := next;
      i := i + 1;
    }
    assert sections + [] == sections;
    return Ok(sections);
  }

  /** parseSectionsV2. */
  method ParseSectionsV2(src: Source) returns (r: Chain)
    ensures r == WalkV2(src)
  {
    if |src| < DESCRIPTOR_V2_SIZE {
      return Err(TooSmall);
    }
    var walked := WalkBackward(DescriptorsV2(src), |src|, |src| - DESCRIPTOR_V2_SIZE, MAX_SECTIONS);
    if walked.Err? {
      return walked;
    }
    var found := walked.value;
    if |found| == 0 || !(found[0].typ == TYPE_NEXT || found[0].typ == TYPE_DONE) {
      return Err(NoNextOrDone);
    }
    var sections := new SectionInfo[|found|](i requires 0 <= i < |found| => found[i]);
    assert sections[..] == found;
    ReverseSections(sections);
    return Ok(sections[..]);
  }

  // ----- arbitrary input

  /** Sections inside the file, the first at offset, each of which sits where its predecessor's size leads. */
  ghost predicate WalkedBack(fileSize: int, offset: int, found: seq<SectionInfo>) {
    && (found != [] ==> found[0].offset == offset)
    && (forall i :: 0 <= i < |found| ==> 0 < found[i].offset < fileSize && SizeLeadsBack(found[i]))
    && (forall i :: 0 <= i < |found| - 1 ==> found[i + 1].offset == found[i].offset - found[i].size)
  }

  predicate SizeLeadsBack(s: SectionInfo) {
    0 <= s.size <= s.offset || s.size == s.offset + 32
  }

  lemma WalkedBackGrows(fileSize: int, s: SectionInfo, rest: seq<SectionInfo>)
    requires 0 < s.offset < fileSize && SizeLeadsBack(s) && WalkedBack(fileSize, PreviousOffset(s), rest)
    ensures WalkedBack(fileSize, s.offset, [s] + rest)
  {
    var found := [s] + rest;
    assert forall i :: 0 < i < |found| ==> found[i] == rest[i - 1];
  }

  lemma {:induction false} WalkBackLinks(read: Descriptors2, fileSize: int, offset: i64, fuel: nat)
    requires LeadsBack(read, fileSize)
    ensures var r := WalkBack(read, fileSize, offset, fuel);
            r.Ok? ==> |r.value| <= fuel && WalkedBack(fileSize, offset, r.value)
    decreases fuel
  {
    if fuel > 0 && 0 < offset < fileSize && read(offset).Ok? {
      var s := read(offset).value;
      var rest := WalkBack(read, fileSize, PreviousOffset(s), fuel - 1);
      WalkBackLinks(read, fileSize, PreviousOffset(s), fuel - 1);
      if rest.Ok? {
        WalkedBackGrows(fileSize, s, rest.value);
      }
    }
  }

  /** Sections in file order, each reaching back by its size exactly to its predecessor. */
  ghost predicate ReachesBack(ss: seq<SectionInfo>) {
    forall i :: 0 < i < |ss| ==> ss[i - 1].offset == ss[i].offset - ss[i].size && 0 <= ss[i].size
  }

  lemma ReversedReachesBack(fileSize: int, offset: int, found: seq<SectionInfo>)
    requires WalkedBack(fileSize, offset, found)
    ensures ReachesBack(Reversed(found))
  {
    var ss := Reversed(found);
    forall i | 0 < i < |ss|
      ensures ss[i - 1].offset == ss[i].offset - ss[i].size
    {
      var at := |ss| - 1 - i;
      assert found[at + 1].offset == found[at].offset - found[at].size;
    }
  }

  ghost predicate Increasing(ss: seq<SectionInfo>) {
    forall i, j :: 0 <= i < j < |ss| ==> ss[i].offset < ss[j].offset
  }

  ghost predicate NoNeighbourRepeats(ss: seq<SectionInfo>) {
    forall i :: 0 < i < |ss| ==> ss[i].offset != ss[i - 1].offset
  }

  lemma {:induction false} OffsetsOrdered(ss: seq<SectionInfo>, i: nat, j: nat)
    requires ReachesBack(ss) && i < j < |ss|
    ensures ss[i].offset <= ss[j].offset
    ensures NoNeighbourRepeats(ss) ==> ss[i].offset < ss[j].offset
    decreases j
  {
    var before, last := ss[j - 1], ss[j];
    assert before.offset == last.offset - last.size;
    if i < j - 1 {
      OffsetsOrdered(ss, i, j - 1);
    }
  }

  /** Offsets never decrease, and strictly increase if and only if no two neighbours share theirs. */
  lemma StrictUnlessRepeated(ss: seq<SectionInfo>)
    requires ReachesBack(ss)
    ensures forall i, j :: 0 <= i < j < |ss| ==> ss[i].offset <= ss[j].offset
    ensures Increasing(ss) <==> NoNeighbourRepeats(ss)
  {
    forall i, j | 0 <= i < j < |ss|
      ensures ss[i].offset <= ss[j].offset
      ensures NoNeighbourRepeats(ss) ==> ss[i].offset < ss[j].offset
    {
      OffsetsOrdered(ss, i, j);
    }
  }

  // ----- previous offsets, as the file records them

  /** Where the bytes of a file say the section before the one described at an offset is. */
  type Links = int -> Option<int>

  function LinksOf(src: Source): Links {
    (o: int) =>
      if 0 <= o && o + DESCRIPTOR_V2_SIZE <= |src| && 0 < U64(src[o + 8..o + 16]) <= o
      then Some(U64(src[o + 8..o + 16])) else None
  }

  /** Where one is after following n links from start, if there are that many. */
  function Follow(links: Links, start: int, n: nat): Option<int>
    decreases n
  {
    if n == 0 then Some(start)
    else match links(start)
      case None => None
      case Some(p) => Follow(links, p, n - 1)
  }

  lemma {:induction false} FollowStep(links: Links, start: int, n: nat)
    ensures Follow(links, start, n + 1) ==
            match Follow(links, start, n) case None => None case Some(o) => links(o)
    decreases n
  {
    if n > 0 && links(start).Some? {
      FollowStep(links, links(start).value, n - 1);
    }
  }

  lemma {:induction false} FollowEnds(links: Links, start: int, n: nat, m: nat)
    requires n <= m && Follow(links, start, n) == None
    ensures Follow(links, start, m) == None
    decreases m
  {
    if n < m {
      FollowEnds(links, start, n, m - 1);
      FollowStep(links, start, m - 1);
    }
  }

  lemma {:induction false} FollowStays(links: Links, start: int, n: nat, m: nat, o: int)
    requires n <= m && Follow(links, start, n) == Some(o) && links(o) == Some(o)
    ensures Follow(links, start, m) == Some(o)
    decreases m
  {
    if n < m {
      FollowStays(links, start, n, m - 1, o);
      FollowStep(links, start, m - 1);
    }
  }

  /** The walk's steps are the file's links. */
  ghost predicate StepsAreLinks(read: Descriptors2, links: Links, fileSize: int) {
    forall o: i64 :: 0 < o < fileSize && read(o).Ok? ==>
      match links(o)
      case None => PreviousOffset(read(o).value) <= 0
      case Some(p) => 0 < p <= o && PreviousOffset(read(o).value) == p
  }

  lemma StepIsLink(src: Source, o: i64)
    requires 0 < o < |src| && ReadDescriptorV2(src, o).Ok?
    ensures match LinksOf(src)(o)
            case None => PreviousOffset(ReadDescriptorV2(src, o).value) <= 0
            case Some(p) => 0 < p <= o && PreviousOffset(ReadDescriptorV2(src, o).value) == p
  {
    SliceOfSlice(src, o, o + 64, 8, 16);
  }

  lemma WalkStepsAreLinks(src: Source)
    ensures StepsAreLinks(DescriptorsV2(src), LinksOf(src), |src|)
  {
    var read, links := DescriptorsV2(src), LinksOf(src);
    forall o: i64 | 0 < o < |src| && read(o).Ok?
      ensures match links(o)
              case None => PreviousOffset(read(o).value) <= 0
              case Some(p) => 0 < p <= o && PreviousOffset(read(o).value) == p
    {
      StepIsLink(src, o);
    }
  }

  /** found are the descriptors met by following links from start, as many as the cap allows or the file has. */
  ghost predicate FoundByLinks(read: Descriptors2, links: Links, start: int, cap: nat, found: seq<SectionInfo>) {
    && |found| <= cap
    && (forall i :: 0 <= i < |found| ==>
          Follow(links, start, i) == Some(found[i].offset) && read(found[i].offset) == Ok(found[i]))
    && (|found| < cap ==> Follow(links, start, |found|) == None)
  }

  lemma FoundGrows(read: Descriptors2, links: Links, cap: nat, s: SectionInfo, rest: seq<SectionInfo>)
    requires read(s.offset) == Ok(s) && 0 < cap
    requires match links(s.offset)
             case None => rest == []
             case Some(p) => FoundByLinks(read, links, p, cap - 1, rest)
    ensures FoundByLinks(read, links, s.offset, cap, [s] + rest)
  {
    var found := [s] + rest;
    forall i | 0 <= i < |found|
      ensures Follow(links, s.offset, i) == Some(found[i].offset) && read(found[i].offset) == Ok(found[i])
    {
      if i > 0 {
        assert found[i] == rest[i - 1];
      }
    }
  }

  lemma {:induction false} WalkFollowsLinks(read: Descriptors2, links: Links, fileSize: int, start: i64, cap: nat)
    requires LeadsBack(read, fileSize) && StepsAreLinks(read, links, fileSize) && 0 < start < fileSize
    ensures var r := WalkBack(read, fileSize, start, cap);
            r.Ok? ==> FoundByLinks(read, links, start, cap, r.value)
    decreases cap
  {
    if cap > 0 && read(start).Ok? {
      var s := read(start).value;
      var rest := WalkBack(read, fileSize, PreviousOffset(s), cap - 1);
      if links(start).Some? {
        WalkFollowsLinks(read, links, fileSize, PreviousOffset(s), cap - 1);
      }
      if rest.Ok? {
        FoundGrows(read, links, cap, s, rest.value);
      }
    }
  }

  /** Following links from the last descriptor, one that points to itself is met before the cap's last step. */
  ghost predicate MeetsSelfPointer(links: Links, start: int, cap: nat) {
    exists n: nat :: n + 1 < cap && SelfPointerAt(links, start, n)
  }

  ghost predicate SelfPointerAt(links: Links, start: int, n: nat) {
    var o := Follow(links, start, n);
    o.Some? && links(o.value) == o
  }

  lemma RepeatsIffSelfPointer(
    read: Descriptors2, links: Links, start: int, cap: nat, found: seq<SectionInfo>)
    requires FoundByLinks(read, links, start, cap, found)
    ensures NoNeighbourRepeats(found) <==> !MeetsSelfPointer(links, start, cap)
    ensures MeetsSelfPointer(links, start, cap) ==>
              |found| == cap && found[cap - 1].offset == found[cap - 2].offset
  {
    if MeetsSelfPointer(links, start, cap) {
      var n: nat :| n + 1 < cap && SelfPointerAt(links, start, n);
      var o := Follow(links, start, n).value;
      FollowStays(links, start, n, cap - 2, o);
      FollowStays(links, start, n, cap - 1, o);
      if |found| < cap {
        FollowEnds(links, start, |found|, cap - 1);
      }
      assert found[cap - 1].offset == found[cap - 1 - 1].offset;
    }
    forall i | 0 < i < |found| && found[i].offset == found[i - 1].offset
      ensures SelfPointerAt(links, start, i - 1)
    {
      FollowStep(links, start, i - 1);
    }
  }

  lemma DescriptorsLeadBack(src: Source)
    ensures LeadsBack(DescriptorsV2(src), |src|)
  {
  }

  lemma {:induction false} FinishedOrder(read: Descriptors2, fileSize: int, start: i64, fuel: nat, ss: seq<SectionInfo>)
    requires LeadsBack(read, fileSize) && Finish(WalkBack(read, fileSize, start, fuel)) == Ok(ss)
    ensures 0 < |ss| <= fuel && IsTerminal(ss[|ss| - 1]) && ss[|ss| - 1].offset == start && ReachesBack(ss)
  {
    WalkBackLinks(read, fileSize, start, fuel);
    ReversedReachesBack(fileSize, start, WalkBack(read, fileSize, start, fuel).value);
  }

  /** In file order: each section is the descriptor the file holds where the links lead, from the last one back. */
  ghost predicate ReadAlongLinks(src: Source, ss: seq<SectionInfo>) {
    forall i :: 0 <= i < |ss| ==>
      && ReadDescriptorV2(src, ss[i].offset) == Ok(ss[i])
      && Follow(LinksOf(src), |src| - DESCRIPTOR_V2_SIZE, |ss| - 1 - i) == Some(ss[i].offset)
  }

  lemma ReversedAlongLinks(src: Source, found: seq<SectionInfo>)
    requires FoundByLinks(DescriptorsV2(src), LinksOf(src), |src| - DESCRIPTOR_V2_SIZE, MAX_SECTIONS, found)
    ensures ReadAlongLinks(src, Reversed(found))
  {
    var ss := Reversed(found);
    forall i | 0 <= i < |ss|
      ensures ReadDescriptorV2(src, ss[i].offset) == Ok(ss[i])
      ensures Follow(LinksOf(src), |src| - DESCRIPTOR_V2_SIZE, |ss| - 1 - i) == Some(ss[i].offset)
    {
      assert ss[i] == found[|ss| - 1 - i];
      assert DescriptorsV2(src)(ss[i].offset) == Ok(ss[i]);
    }
  }

  lemma ReversedNeighbours(found: seq<SectionInfo>)
    ensures NoNeighbourRepeats(Reversed(found)) <==> NoNeighbourRepeats(found)
  {
    var ss := Reversed(found);
    forall i | 0 < i < |ss| && NoNeighbourRepeats(found)
      ensures ss[i].offset != ss[i - 1].offset
    {
      var k := |found| - i;
      assert found[k].offset != found[k - 1].offset;
    }
    forall k | 0 < k < |found| && NoNeighbourRepeats(ss)
      ensures found[k].offset != found[k - 1].offset
    {
      var i := |ss| - k;
      assert ss[i].offset != ss[i - 1].offset;
    }
  }

  /** What the walk found, before it was reversed. */
  lemma FoundInFile(src: Source, ss: seq<SectionInfo>) returns (found: seq<SectionInfo>)
    requires WalkV2(src) == Ok(ss)
    ensures FoundByLinks(DescriptorsV2(src), LinksOf(src), |src| - DESCRIPTOR_V2_SIZE, MAX_SECTIONS, found)
    ensures ss == Reversed(found) && 0 < |ss| <= MAX_SECTIONS && ReachesBack(ss)
    ensures IsTerminal(ss[|ss| - 1]) && ss[|ss| - 1].offset == |src| - DESCRIPTOR_V2_SIZE
  {
    var read, start := DescriptorsV2(src), |src| - DESCRIPTOR_V2_SIZE;
    found := WalkBack(read, |src|, start, MAX_SECTIONS).value;
    DescriptorsLeadBack(src);
    WalkStepsAreLinks(src);
    FinishedOrder(read, |src|, start, MAX_SECTIONS, ss);
    WalkFollowsLinks(read, LinksOf(src), |src|, start, MAX_SECTIONS);
  }

  /**
   * For any input: the sections are those the file's links lead to, in file order, so offsets never decrease, and all
   * that the links lead to unless the cap cuts the list.
   */
  lemma {:induction false} FileOrder(src: Source, ss: seq<SectionInfo>)
    requires WalkV2(src) == Ok(ss)
    ensures 0 < |ss| <= MAX_SECTIONS && IsTerminal(ss[|ss| - 1]) && ss[|ss| - 1].offset == |src| - DESCRIPTOR_V2_SIZE
    ensures ReadAlongLinks(src, ss)
    ensures |ss| < MAX_SECTIONS ==> Follow(LinksOf(src), |src| - DESCRIPTOR_V2_SIZE, |ss|) == None
    ensures ReachesBack(ss) && forall i, j :: 0 <= i < j < |ss| ==> ss[i].offset <= ss[j].offset
  {
    var found := FoundInFile(src, ss);
    StrictUnlessRepeated(ss);
    ReversedAlongLinks(src, found);
  }

  lemma OrderOfFound(
    read: Descriptors2, links: Links, start: int, cap: nat, found: seq<SectionInfo>, ss: seq<SectionInfo>)
    requires FoundByLinks(read, links, start, cap, found) && ss == Reversed(found) && ReachesBack(ss) && 1 < cap
    ensures Increasing(ss) <==> !MeetsSelfPointer(links, start, cap)
    ensures Increasing(ss) <==> |ss| < cap || ss[0].offset != ss[1].offset
  {
    StrictUnlessRepeated(ss);
    ReversedNeighbours(found);
    RepeatsIffSelfPointer(read, links, start, cap, found);
  }

  /**
   * Offsets strictly increase if and only if, following the links back from the end of the file, no descriptor met
   * before the last step points to itself; and if not, the first two sections tell.
   */
  lemma {:induction false} StrictOrderIff(src: Source, ss: seq<SectionInfo>)
    requires WalkV2(src) == Ok(ss)
    ensures Increasing(ss) <==> !MeetsSelfPointer(LinksOf(src), |src| - DESCRIPTOR_V2_SIZE, MAX_SECTIONS)
    ensures Increasing(ss) <==> |ss| < MAX_SECTIONS || ss[0].offset != ss[1].offset
  {
    var found := FoundInFile(src, ss);
    OrderOfFound(DescriptorsV2(src), LinksOf(src), |src| - DESCRIPTOR_V2_SIZE, MAX_SECTIONS, found, ss);
  }

  /** So a file in which no descriptor points to itself yields strictly increasing offsets. */
  lemma IncreasingWithoutSelfPointers(src: Source, ss: seq<SectionInfo>)
    requires WalkV2(src) == Ok(ss) && forall o :: LinksOf(src)(o) != Some(o)
    ensures Increasing(ss)
  {
    StrictOrderIff(src, ss);
  }

  function Copies<T>(x: T, n: nat): (s: seq<T>)
    ensures |s| == n && forall i :: 0 <= i < n ==> s[i] == x
  {
    seq(n, _ => x)
  }

  /** From a descriptor that points to itself the walk goes nowhere: it repeats it until the cap. */
  lemma {:induction false} SelfPointerRepeats(read: Descriptors2, fileSize: int, o: i64, s: SectionInfo, fuel: nat)
    requires 0 < o < fileSize && read(o) == Ok(s) && s.offset == o && s.size == 0
    ensures WalkBack(read, fileSize, o, fuel) == Ok(Copies(s, fuel))
    decreases fuel
  {
    if fuel > 0 {
      SelfPointerRepeats(read, fileSize, o, s, fuel - 1);
      assert [s] + Copies(s, fuel - 1) == Copies(s, fuel);
    }
  }

  lemma {:induction false} FinishRepeats(read: Descriptors2, fileSize: int, o: i64, s: SectionInfo, cap: nat)
    requires 0 < o < fileSize && read(o) == Ok(s) && s.offset == o && s.size == 0 && IsTerminal(s) && 0 < cap
    ensures Finish(WalkBack(read, fileSize, o, cap)) == Ok(Copies(s, cap))
  {
    SelfPointerRepeats(read, fileSize, o, s, cap);
    var ss, back := Copies(s, cap), Reversed(Copies(s, cap));
    assert back == ss;
  }

  lemma FoundRepeats(
    read: Descriptors2, links: Links, start: int, cap: nat, found: seq<SectionInfo>, n: nat)
    requires FoundByLinks(read, links, start, cap, found) && n < cap && SelfPointerAt(links, start, n)
    ensures |found| == cap && forall i :: n <= i < cap ==> found[i] == found[n]
    ensures links(found[n].offset) == Some(found[n].offset)
  {
    var o := Follow(links, start, n).value;
    if |found| < cap {
      FollowStays(links, start, n, cap, o);
      FollowEnds(links, start, |found|, cap);
    }
    forall i | n <= i < cap
      ensures found[i] == found[n]
    {
      FollowStays(links, start, n, i, o);
      assert read(found[i].offset) == read(found[n].offset);
    }
  }

  /** Every section in front of a descriptor that points to itself is lost; that one descriptor fills the list. */
  lemma SelfPointerHidesTheRest(src: Source, ss: seq<SectionInfo>, n: nat)
    requires WalkV2(src) == Ok(ss) && n < MAX_SECTIONS && SelfPointerAt(LinksOf(src), |src| - DESCRIPTOR_V2_SIZE, n)
    ensures |ss| == MAX_SECTIONS && forall i :: 0 <= i < MAX_SECTIONS - n ==> ss[i] == ss[0]
    ensures LinksOf(src)(ss[0].offset) == Some(ss[0].offset)
  {
    var found := FoundInFile(src, ss);
    FoundRepeats(DescriptorsV2(src), LinksOf(src), |src| - DESCRIPTOR_V2_SIZE, MAX_SECTIONS, found, n);
    forall i | 0 <= i < MAX_SECTIONS - n
      ensures ss[i] == found[n]
    {
      assert ss[i] == found[MAX_SECTIONS - 1 - i];
    }
  }

  /** The walk never leaves the file: it fails only for a previous offset that points forward. */
  lemma {:induction false} NeverUnreadable(src: Source, offset: i64, fuel: nat)
    requires offset + DESCRIPTOR_V2_SIZE <= |src|
    ensures var r := WalkBack(DescriptorsV2(src), |src|, offset, fuel); r.Err? ==> r.error == BadPreviousOffset
    decreases fuel
  {
    if fuel > 0 && 0 < offset < |src| && ReadDescriptorV2(src, offset).Ok? {
      NeverUnreadable(src, PreviousOffset(ReadDescriptorV2(src, offset).value), fuel - 1);
    }
  }

  // ----- when the walk succeeds

  /** The descriptor that n links lead to says that the section before it lies behind it. */
  ghost predicate PointsForwardAt(src: Source, n: nat) {
    var o := Follow(LinksOf(src), |src| - DESCRIPTOR_V2_SIZE, n);
    o.Some? && 0 <= o.value && o.value + 64 <= |src| && U64(src[o.value + 8..o.value + 16]) > o.value
  }

  ghost predicate ErrAt(read: Descriptors2, links: Links, start: int, n: nat) {
    var o := Follow(links, start, n);
    o.Some? && 0 < o.value <= MAX_INT64 && read(o.value).Err?
  }

  /** The walk fails exactly at a descriptor that its links lead to within the cap. */
  lemma {:induction false} WalkFailsIff(read: Descriptors2, links: Links, fileSize: int, start: i64, cap: nat)
    requires LeadsBack(read, fileSize) && StepsAreLinks(read, links, fileSize) && 0 < start < fileSize
    ensures WalkBack(read, fileSize, start, cap).Err? <==> exists n: nat :: n < cap && ErrAt(read, links, start, n)
    decreases cap
  {
    if cap > 0 {
      if read(start).Err? {
        assert ErrAt(read, links, start, 0);
      } else if links(start).None? {
        assert forall n: nat :: n > 0 ==> Follow(links, start, n) == None;
      } else {
        var p: i64 := PreviousOffset(read(start).value);
        assert links(start) == Some(p);
        WalkFailsIff(read, links, fileSize, p, cap - 1);
        FailureBehind(read, links, start, p, cap);
      }
    }
  }

  lemma FailureBehind(read: Descriptors2, links: Links, start: i64, p: i64, cap: nat)
    requires links(start) == Some(p) && cap > 0 && read(start).Ok?
    ensures (exists n: nat :: n < cap && ErrAt(read, links, start, n)) <==>
            exists n: nat :: n < cap - 1 && ErrAt(read, links, p, n)
  {
    assert forall n: nat :: ErrAt(read, links, start, n + 1) <==> ErrAt(read, links, p, n);
    if n: nat :| n < cap && ErrAt(read, links, start, n) {
      assert n > 0 && ErrAt(read, links, p, n - 1);
    }
    if n: nat :| n < cap - 1 && ErrAt(read, links, p, n) {
      assert ErrAt(read, links, start, n + 1);
    }
  }

  lemma {:induction false} FollowStaysInside(src: Source, n: nat)
    requires |src| > DESCRIPTOR_V2_SIZE
    ensures var o := Follow(LinksOf(src), |src| - DESCRIPTOR_V2_SIZE, n);
            o.Some? ==> 0 < o.value <= |src| - DESCRIPTOR_V2_SIZE
  {
    if n > 0 {
      FollowStaysInside(src, n - 1);
      FollowStep(LinksOf(src), |src| - DESCRIPTOR_V2_SIZE, n - 1);
    }
  }

  /** A descriptor inside the file is refused exactly if its previous offset lies behind it. */
  lemma ForwardRefused(src: Source, o: i64)
    requires 0 <= o && o + 64 <= |src|
    ensures ReadDescriptorV2(src, o).Err? <==> U64(src[o + 8..o + 16]) > o
  {
    SliceOfSlice(src, o, o + 64, 8, 16);
  }

  lemma ErrIsForward(src: Source, n: nat)
    requires |src| > DESCRIPTOR_V2_SIZE
    ensures ErrAt(DescriptorsV2(src), LinksOf(src), |src| - DESCRIPTOR_V2_SIZE, n) <==> PointsForwardAt(src, n)
  {
    FollowStaysInside(src, n);
    var o := Follow(LinksOf(src), |src| - DESCRIPTOR_V2_SIZE, n);
    if o.Some? {
      ForwardRefused(src, o.value);
    }
  }

  /** The last 64 bytes are a descriptor of type next or done. */
  ghost predicate EndsTerminally(src: Source) {
    |src| > 64 && var typ := U32(src[|src| - 64..|src| - 60]); typ == 0x0d || typ == 0x0f
  }

  /**
   * For any input: the sections of a v2 file are found exactly if it ends in a next or done descriptor behind its
   * first 64 bytes and no descriptor that the links lead to, within the cap, points forward.
   */
  lemma WalkV2SucceedsIff(src: Source)
    ensures WalkV2(src).Ok? <==>
            EndsTerminally(src) && forall n: nat :: n < 0x1_0000 ==> !PointsForwardAt(src, n)
    ensures WalkV2(src) == Err(TooSmall) <==> |src| < 64
    ensures WalkV2(src) == Err(BadPreviousOffset) <==>
            |src| > 64 && exists n: nat :: n < 0x1_0000 && PointsForwardAt(src, n)
  {
    if |src| > DESCRIPTOR_V2_SIZE {
      var read, start := DescriptorsV2(src), |src| - DESCRIPTOR_V2_SIZE;
      DescriptorsLeadBack(src);
      WalkStepsAreLinks(src);
      WalkFailsIff(read, LinksOf(src), |src|, start, MAX_SECTIONS);
      forall n: nat
        ensures ErrAt(read, LinksOf(src), start, n) <==> PointsForwardAt(src, n)
      {
        ErrIsForward(src, n);
      }
      NeverUnreadable(src, start, MAX_SECTIONS);
      LastFoundFirst(src);
    }
  }

  /** What the walk finds first is the descriptor at the end of the file. */
  lemma {:induction false} LastFoundFirst(src: Source)
    requires |src| > DESCRIPTOR_V2_SIZE
    ensures var r := WalkBack(DescriptorsV2(src), |src|, |src| - DESCRIPTOR_V2_SIZE, MAX_SECTIONS);
            r.Ok? ==> r.value != [] && (IsTerminal(r.value[0]) <==> EndsTerminally(src))
  {
    SliceOfSlice(src, |src| - 64, |src|, 0, 4);
  }

  /** In file order, what the links lead to from a last descriptor of type next or done, as far as the cap reaches. */
  ghost predicate LinkedSections(src: Source, ss: seq<SectionInfo>) {
    && |src| > 64 && 0 < |ss| <= 0x1_0000 && ReadAlongLinks(src, ss) && IsTerminal(ss[|ss| - 1])
    && (|ss| < 0x1_0000 ==> Follow(LinksOf(src), |src| - 64, |ss|) == None)
  }

  lemma {:induction false} ReadNotForward(src: Source, n: nat, o: i64)
    requires Follow(LinksOf(src), |src| - DESCRIPTOR_V2_SIZE, n) == Some(o) && ReadDescriptorV2(src, o).Ok?
    ensures !PointsForwardAt(src, n)
  {
    ForwardRefused(src, o);
  }

  lemma NoneForward(src: Source, ss: seq<SectionInfo>, n: nat)
    requires LinkedSections(src, ss) && n < 0x1_0000
    ensures !PointsForwardAt(src, n)
  {
    if |ss| <= n {
      FollowEnds(LinksOf(src), |src| - 64, |ss|, n);
    } else {
      ReadNotForward(src, n, ss[|ss| - 1 - n].offset);
    }
  }

  lemma LastIsTerminal(src: Source, ss: seq<SectionInfo>)
    requires LinkedSections(src, ss)
    ensures EndsTerminally(src)
  {
    var last := ss[|ss| - 1];
    assert Follow(LinksOf(src), |src| - 64, 0) == Some(last.offset);
    SliceOfSlice(src, |src| - 64, |src|, 0, 4);
  }

  lemma LinkedSectionsWalk(src: Source, ss: seq<SectionInfo>)
    requires LinkedSections(src, ss)
    ensures WalkV2(src).Ok?
  {
    LastIsTerminal(src, ss);
    forall n: nat | n < 0x1_0000
      ensures !PointsForwardAt(src, n)
    {
      NoneForward(src, ss, n);
    }
    WalkV2SucceedsIff(src);
  }

  lemma NoneLonger(src: Source, ss: seq<SectionInfo>, tt: seq<SectionInfo>)
    requires LinkedSections(src, ss) && LinkedSections(src, tt)
    ensures |tt| <= |ss|
  {
    if |ss| < |tt| {
      assert Follow(LinksOf(src), |src| - 64, |tt| - 1 - 0) == Some(tt[0].offset);
      FollowEnds(LinksOf(src), |src| - 64, |ss|, |tt| - 1);
      assert false;
    }
  }

  lemma LinkedSectionsAgree(src: Source, ss: seq<SectionInfo>, tt: seq<SectionInfo>)
    requires LinkedSections(src, ss) && LinkedSections(src, tt)
    ensures ss == tt
  {
    NoneLonger(src, ss, tt);
    NoneLonger(src, tt, ss);
    forall i | 0 <= i < |ss|
      ensures ss[i] == tt[i]
    {
      assert ss[i].offset == tt[i].offset;
    }
  }

  /** The walk finds exactly the sections that the file's links lead to. */
  lemma WalkV2FindsLinked(src: Source, ss: seq<SectionInfo>)
    ensures WalkV2(src) == Ok(ss) <==> LinkedSections(src, ss)
  {
    if WalkV2(src).Ok? {
      WalkV2SucceedsIff(src);
      FileOrder(src, WalkV2(src).value);
    }
    if LinkedSections(src, ss) {
      LinkedSectionsWalk(src, ss);
      LinkedSectionsAgree(src, ss, WalkV2(src).value);
    }
  }
}
