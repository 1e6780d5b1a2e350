/** Writing an EWF v2 section chain, and reading it back. */
module LayoutV2 {
  import opened Bytes
  import opened Sections
  import opened SectionsV2

  /** A section as a writer sees it. */
  datatype Section = Section(typ: u32, flags: u32, payload: seq<byte>, padding: u32)

  /** A 64-byte descriptor follows its payload and points back at the previous descriptor, or at 0. */
  function DescriptorBytes(s: Section, previous: u64): (d: seq<byte>)
    requires |s.payload| < TWO_64
    ensures |d| == DESCRIPTOR_V2_SIZE
  {
    Put32(s.typ) + Put32(s.flags) + Put64(previous) + Put64(|s.payload|) +
    Put32(DESCRIPTOR_V2_SIZE) + Put32(s.padding) + Zeros(32)
  }

  ghost predicate Writable(ss: seq<Section>) {
    forall i :: 0 <= i < |ss| ==> |ss[i].payload| < TWO_64
  }

  /** How descriptors are written: a section, and where the descriptor before it stands. */
  type DescriptorWriter = (Section, u64) -> seq<byte>

  function Descriptor(): DescriptorWriter {
    (s: Section, previous: u64) => if |s.payload| < TWO_64 then DescriptorBytes(s, previous) else []
  }

  /** The file from position at on, when the previous descriptor stands at previous. */
  ghost function Body(write: DescriptorWriter, ss: seq<Section>, at: nat, previous: nat): seq<byte>
    decreases |ss|
  {
    if ss == [] || previous >= TWO_64 then []
    else
      var here := at + |ss[0].payload|;
      ss[0].payload + (write(ss[0], previous) + Body(write, ss[1..], here + DESCRIPTOR_V2_SIZE, here))
  }

  ghost function Image(header: seq<byte>, ss: seq<Section>): seq<byte> {
    header + Body(Descriptor(), ss, FILE_HEADER_V2_SIZE, 0)
  }

  /** info gives back everything the writer put into s, and its data window holds exactly the payload. */
  ghost predicate Recovers(src: Source, info: SectionInfo, s: Section) {
    && info.descriptorSize == DESCRIPTOR_V2_SIZE
    && info.typ == s.typ && info.dataFlags == s.flags && info.paddingSize == s.padding
    && info.dataSize == |s.payload| && Placed(src, info.dataOffset, s.payload)
  }

  ghost predicate RecoversAll(src: Source, infos: seq<SectionInfo>, ss: seq<Section>) {
    |infos| == |ss| && forall i :: 0 <= i < |ss| ==> Recovers(src, infos[i], ss[i])
  }

  lemma RecoversFirst(src: Source, info: SectionInfo, tail: seq<SectionInfo>, ss: seq<Section>)
    requires ss != [] && Recovers(src, info, ss[0]) && RecoversAll(src, tail, ss[1..])
    ensures RecoversAll(src, [info] + tail, ss)
  {
    var infos := [info] + tail;
    forall i | 0 <= i < |ss|
      ensures Recovers(src, infos[i], ss[i])
    {
      if i > 0 {
        assert infos[i] == tail[i - 1] && ss[i] == ss[1..][i - 1];
      }
    }
  }

  /** What a descriptor for s written at at says. */
  function InfoV2(at: pos, s: Section, previous: u64): SectionInfo
    requires previous <= at <= MAX_INT64 - DESCRIPTOR_V2_SIZE && |s.payload| < TWO_64
  {
    SectionInfo(at, DESCRIPTOR_V2_SIZE, s.typ, "", s.flags,
                if previous == 0 then at + 32 else at - previous,
                if previous == 0 then 32 else previous + DESCRIPTOR_V2_SIZE, |s.payload|, s.padding)
  }

  /** A written descriptor is read back field by field. */
  lemma ReadWrittenDescriptor(src: Source, at: pos, s: Section, previous: u64)
    requires |s.payload| < TWO_64 && Placed(src, at, DescriptorBytes(s, previous)) && previous <= at
    ensures ReadDescriptorV2(src, at) == Ok(InfoV2(at, s, previous))
  {
    var d := DescriptorBytes(s, previous);
    PlacedRead(src, at, d, 0, DESCRIPTOR_V2_SIZE);
    assert d[0..DESCRIPTOR_V2_SIZE] == d;
    assert d[0..4] == Put32(s.typ) && d[4..8] == Put32(s.flags) && d[8..16] == Put64(previous);
    assert d[16..24] == Put64(|s.payload|) && d[28..32] == Put32(s.padding);
    Put32RoundTrip(s.typ);
    Put32RoundTrip(s.flags);
    Put32RoundTrip(s.padding);
    Put64RoundTrip(previous);
    Put64RoundTrip(|s.payload|);
  }

  /** Reading and writing of descriptors agree in src; all the chain argument needs to know about either. */
  ghost predicate ReadsBack(src: Source, read: Descriptors2, write: DescriptorWriter) {
    forall at: pos, s: Section, previous: u64 ::
      |s.payload| < TWO_64 && previous <= at && Placed(src, at, write(s, previous)) ==>
        && |write(s, previous)| == DESCRIPTOR_V2_SIZE
        && read(at) == Ok(InfoV2(at, s, previous))
  }

  lemma DescriptorsReadBack(src: Source)
    ensures ReadsBack(src, DescriptorsV2(src), Descriptor())
  {
    var read, write := DescriptorsV2(src), Descriptor();
    forall at: pos, s: Section, previous: u64 |
      |s.payload| < TWO_64 && previous <= at && Placed(src, at, write(s, previous))
      ensures |write(s, previous)| == DESCRIPTOR_V2_SIZE && read(at) == Ok(InfoV2(at, s, previous))
    {
      ReadWrittenDescriptor(src, at, s, previous);
    }
  }

  // ----- backward chains

  /** Where a section's size leads back to; the int64 subtraction does not wrap for a section found in a file. */
  function LeadsTo(info: SectionInfo): int {
    info.offset - info.size
  }

  /** A list of sections in file order, each found where it says and leading back to the one before it. */
  ghost predicate IsBackChain(read: Descriptors2, fileSize: int, infos: seq<SectionInfo>) {
    && (forall i :: 0 <= i < |infos| ==> 0 < infos[i].offset < fileSize && read(infos[i].offset) == Ok(infos[i]))
    && (forall i :: 0 < i < |infos| ==> LeadsTo(infos[i]) == infos[i - 1].offset)
  }

  ghost predicate StartsAfterHeader(infos: seq<SectionInfo>) {
    |infos| > 0 && -32 == LeadsTo(infos[0])
  }

  lemma ReversedEnd<T>(s: seq<T>, from: nat, i: nat)
    requires from <= i < |s|
    ensures Reversed(s[from..i + 1]) == [s[i]] + Reversed(s[from..i])
  {
  }

  /** From any section of a chain the walk goes back over its predecessors, as far as the cap lets it. */
  lemma {:induction false} WalkBackFollowsChain(
    read: Descriptors2, fileSize: int, infos: seq<SectionInfo>, i: nat, fuel: nat)
    requires IsBackChain(read, fileSize, infos) && StartsAfterHeader(infos) && i < |infos|
    ensures var from := if fuel < i + 1 then i + 1 - fuel else 0;
            WalkBack(read, fileSize, infos[i].offset, fuel) == Ok(Reversed(infos[from..i + 1]))
    decreases i
  {
    if fuel > 0 {
      var from := if fuel < i + 1 then i + 1 - fuel else 0;
      ReversedEnd(infos, from, i);
      if i > 0 {
        WalkBackFollowsChain(read, fileSize, infos, i - 1, fuel - 1);
      }
    }
  }

  lemma FinishFollowsChain(read: Descriptors2, fileSize: int, infos: seq<SectionInfo>, cap: nat)
    requires IsBackChain(read, fileSize, infos) && StartsAfterHeader(infos) && 0 < cap
    requires IsTerminal(infos[|infos| - 1])
    ensures Finish(WalkBack(read, fileSize, infos[|infos| - 1].offset, cap)) ==
            Ok(infos[if cap < |infos| then |infos| - cap else 0..])
  {
    var from := if cap < |infos| then |infos| - cap else 0;
    WalkBackFollowsChain(read, fileSize, infos, |infos| - 1, cap);
    var kept := infos[from..];
    assert infos[from..|infos|] == kept;
    assert Reversed(kept)[0] == infos[|infos| - 1];
    assert Reversed(Reversed(kept)) == kept;
  }

  // ----- the round trip

  /** Reading the descriptor behind the first payload recovers the first section. */
  lemma FirstSection(src: Source, read: Descriptors2, write: DescriptorWriter,
                     s: Section, rest: seq<byte>, at: nat, previous: u64) returns (info: SectionInfo)
    requires ReadsBack(src, read, write) && |s.payload| < TWO_64
    requires Placed(src, at, s.payload + (write(s, previous) + rest))
    requires if previous == 0 then at == FILE_HEADER_V2_SIZE else at == previous + DESCRIPTOR_V2_SIZE
    ensures |write(s, previous)| == DESCRIPTOR_V2_SIZE && read(at + |s.payload|) == Ok(info)
    ensures info.offset == at + |s.payload| && Recovers(src, info, s)
    ensures LeadsTo(info) == if previous == 0 then -32 else previous
    ensures Placed(src, at + |s.payload| + DESCRIPTOR_V2_SIZE, rest)
  {
    var here, d := at + |s.payload|, write(s, previous);
    PlacedParts(src, at, s.payload, d + rest);
    PlacedParts(src, here, d, rest);
    info := read(here).value;
  }

  /** infos are a chain of all sections of a body that ends at end, the first leading to what precedes the body. */
  ghost predicate ChainOf(
    src: Source, read: Descriptors2, infos: seq<SectionInfo>, ss: seq<Section>, previous: u64, end: int)
  {
    && ss != [] && RecoversAll(src, infos, ss) && IsBackChain(read, |src|, infos)
    && LeadsTo(infos[0]) == (if previous == 0 then -32 else previous)
    && infos[|ss| - 1].offset + DESCRIPTOR_V2_SIZE == end
  }

  /** Reading a written body finds a chain of all its sections. */
  lemma {:induction false} BodyIsChain(
    src: Source, read: Descriptors2, write: DescriptorWriter, ss: seq<Section>, at: nat, previous: u64, end: nat)
    returns (infos: seq<SectionInfo>)
    requires ReadsBack(src, read, write) && Writable(ss) && ss != []
    requires Placed(src, at, Body(write, ss, at, previous)) && end == at + |Body(write, ss, at, previous)|
    requires if previous == 0 then at == FILE_HEADER_V2_SIZE else at == previous + DESCRIPTOR_V2_SIZE
    ensures ChainOf(src, read, infos, ss, previous, end)
    decreases |ss|
  {
    var s, here := ss[0], at + |ss[0].payload|;
    var rest := Body(write, ss[1..], here + DESCRIPTOR_V2_SIZE, here);
    var info := FirstSection(src, read, write, s, rest, at, previous);
    if |ss| == 1 {
      infos := [info];
    } else {
      var tail := BodyIsChain(src, read, write, ss[1..], here + DESCRIPTOR_V2_SIZE, here, end);
      ChainGrows(src, read, info, tail, ss, here, previous, end);
      infos := [info] + tail;
    }
  }

  lemma ChainGrows(src: Source, read: Descriptors2, info: SectionInfo, tail: seq<SectionInfo>,
                                      ss: seq<Section>, here: u64, previous: u64, end: int)
    requires |ss| > 1 && ChainOf(src, read, tail, ss[1..], here, end) && Recovers(src, info, ss[0])
    requires here == info.offset && 0 < here < |src| && read(here) == Ok(info)
    requires LeadsTo(info) == if previous == 0 then -32 else previous
    ensures ChainOf(src, read, [info] + tail, ss, previous, end)
  {
    ChainExtends(read, |src|, info, tail);
    RecoversFirst(src, info, tail, ss);
  }

  lemma ChainExtends(read: Descriptors2, fileSize: int, info: SectionInfo, tail: seq<SectionInfo>)
    requires IsBackChain(read, fileSize, tail) && |tail| > 0 && LeadsTo(tail[0]) == info.offset
    requires 0 < info.offset < fileSize && read(info.offset) == Ok(info)
    ensures IsBackChain(read, fileSize, [info] + tail)
  {
    var infos := [info] + tail;
    forall i | 0 < i < |infos|
      ensures LeadsTo(infos[i]) == infos[i - 1].offset
    {
      if i > 1 {
        assert LeadsTo(tail[i - 1]) == tail[i - 2].offset;
      }
    }
  }

  ghost predicate EndsInNextOrDone(ss: seq<Section>) {
    |ss| > 0 && (ss[|ss| - 1].typ == TYPE_NEXT || ss[|ss| - 1].typ == TYPE_DONE)
  }

  /** found are the last |found| of the sections ss, each fully recovered. */
  ghost predicate RecoversLast(src: Source, found: seq<SectionInfo>, ss: seq<Section>) {
    |found| <= |ss| && RecoversAll(src, found, ss[|ss| - |found|..])
  }

  lemma SuffixRecovers(src: Source, infos: seq<SectionInfo>, ss: seq<Section>, from: nat)
    requires RecoversAll(src, infos, ss) && from <= |ss|
    ensures RecoversLast(src, infos[from..], ss)
  {
    var found, last := infos[from..], ss[from..];
    forall i | 0 <= i < |last|
      ensures Recovers(src, found[i], last[i])
    {
      assert Recovers(src, infos[from + i], ss[from + i]);
    }
  }

  lemma WrittenChain(src: Source, read: Descriptors2, write: DescriptorWriter, header: seq<byte>, ss: seq<Section>)
    returns (infos: seq<SectionInfo>)
    requires ReadsBack(src, read, write) && Writable(ss) && EndsInNextOrDone(ss)
    requires |header| == FILE_HEADER_V2_SIZE && src == header + Body(write, ss, FILE_HEADER_V2_SIZE, 0)
    ensures RecoversAll(src, infos, ss) && IsBackChain(read, |src|, infos) && StartsAfterHeader(infos)
    ensures IsTerminal(infos[|ss| - 1]) && infos[|ss| - 1].offset == |src| - DESCRIPTOR_V2_SIZE
  {
    var body := Body(write, ss, FILE_HEADER_V2_SIZE, 0);
    assert src[FILE_HEADER_V2_SIZE..FILE_HEADER_V2_SIZE + |body|] == body;
    infos := BodyIsChain(src, read, write, ss, FILE_HEADER_V2_SIZE, 0, |src|);
    assert Recovers(src, infos[|ss| - 1], ss[|ss| - 1]);
  }

  /** What the backward walk makes of a written chain, for any cap. */
  lemma WalkedChain(
    src: Source, read: Descriptors2, write: DescriptorWriter, header: seq<byte>, ss: seq<Section>, cap: nat)
    returns (found: seq<SectionInfo>)
    requires ReadsBack(src, read, write) && Writable(ss) && EndsInNextOrDone(ss) && 0 < cap
    requires |header| == FILE_HEADER_V2_SIZE && src == header + Body(write, ss, FILE_HEADER_V2_SIZE, 0)
    ensures DESCRIPTOR_V2_SIZE <= |src|
    ensures Finish(WalkBack(read, |src|, |src| - DESCRIPTOR_V2_SIZE, cap)) == Ok(found)
    ensures RecoversLast(src, found, ss) && |found| == if |ss| <= cap then |ss| else cap
  {
    var infos := WrittenChain(src, read, write, header, ss);
    var from := if |ss| <= cap then 0 else |ss| - cap;
    FinishFollowsChain(read, |src|, infos, cap);
    SuffixRecovers(src, infos, ss, from);
    found := infos[from..];
  }

  lemma WalkedImage(src: Source, header: seq<byte>, ss: seq<Section>) returns (found: seq<SectionInfo>)
    requires |header| == FILE_HEADER_V2_SIZE && Writable(ss) && EndsInNextOrDone(ss) && src == Image(header, ss)
    ensures WalkV2(src) == Ok(found) && RecoversLast(src, found, ss)
    ensures |found| == if |ss| <= MAX_SECTIONS then |ss| else MAX_SECTIONS
  {
    DescriptorsReadBack(src);
    var read := DescriptorsV2(src);
    found := WalkedChain(src, read, Descriptor(), header, ss, MAX_SECTIONS);
  }

  /**
   * A written chain is read back in file order: type, flags, padding and exactly the payload of every section, up to
   * the cap of 2^16. Of a longer chain the walk returns, without any error, only the last 2^16 sections.
   */
  lemma ChainRoundTrip(src: Source, header: seq<byte>, ss: seq<Section>)
    requires |header| == FILE_HEADER_V2_SIZE && Writable(ss) && EndsInNextOrDone(ss) && src == Image(header, ss)
    ensures WalkV2(src).Ok? && RecoversLast(src, WalkV2(src).value, ss)
    ensures |WalkV2(src).value| == if |ss| <= MAX_SECTIONS then |ss| else MAX_SECTIONS
  {
    var found := WalkedImage(src, header, ss);
  }

  lemma LastAreAll(src: Source, found: seq<SectionInfo>, ss: seq<Section>, beyond: nat)
    requires RecoversLast(src, found, ss) && |found| + beyond == |ss|
    ensures RecoversAll(src, found, ss[beyond..])
  {
  }

  /** The sections that come back, of which beyond in front are cut off. */
  lemma RecentRoundTrip(src: Source, header: seq<byte>, ss: seq<Section>, beyond: nat) returns (infos: seq<SectionInfo>)
    requires |header| == FILE_HEADER_V2_SIZE && Writable(ss) && EndsInNextOrDone(ss) && src == Image(header, ss)
    requires beyond == if |ss| <= MAX_SECTIONS then 0 else |ss| - MAX_SECTIONS
    ensures WalkV2(src) == Ok(infos) && infos != [] && RecoversAll(src, infos, ss[beyond..])
  {
    ChainRoundTrip(src, header, ss);
    infos := WalkV2(src).value;
    LastAreAll(src, infos, ss, beyond);
  }

  /** So the whole chain comes back if and only if it fits the cap. */
  lemma WholeChainIff(src: Source, header: seq<byte>, ss: seq<Section>)
    requires |header| == FILE_HEADER_V2_SIZE && Writable(ss) && EndsInNextOrDone(ss) && src == Image(header, ss)
    ensures WalkV2(src).Ok?
    ensures |WalkV2(src).value| == |ss| <==> |ss| <= MAX_SECTIONS
  {
    ChainRoundTrip(src, header, ss);
  }

  /** A descriptor written last in a file, pointing to itself, is read back as such. */
  lemma SelfPointerRead(front: seq<byte>, s: Section, src: Source)
    requires 0 < |front| < TWO_64 && s.payload == [] && src == front + DescriptorBytes(s, |front|)
    ensures |src| == |front| + DESCRIPTOR_V2_SIZE
    ensures DescriptorsV2(src)(|front|) == Ok(InfoV2(|front|, s, |front|))
  {
    ReadWrittenDescriptor(src, |front|, s, |front|);
  }

  /**
   * A file that shows it: whatever stands in front of a last descriptor that points to itself, the walk accepts the
   * file and returns that descriptor 65536 times, and nothing else.
   */
  lemma SelfPointerHidesAll(front: seq<byte>, s: Section, src: Source)
    requires 0 < |front| < TWO_64 && s.payload == [] && (s.typ == TYPE_NEXT || s.typ == TYPE_DONE)
    requires src == front + DescriptorBytes(s, |front|)
    ensures |front| + DESCRIPTOR_V2_SIZE == |src|
    ensures WalkV2(src) == Ok(Copies(InfoV2(|front|, s, |front|), MAX_SECTIONS))
  {
    SelfPointerRead(front, s, src);
    FinishRepeats(DescriptorsV2(src), |src|, |front|, InfoV2(|front|, s, |front|), MAX_SECTIONS);
  }
}
