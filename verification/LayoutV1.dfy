/** Writing an EWF v1 section chain, and reading it back. */
module LayoutV1 {
  import opened Bytes
  import opened Sections

  /** A section as a writer sees it: a type name and the bytes that follow its descriptor. */
  datatype Block = Block(name: string, payload: seq<byte>)

  // ----- type names

  /** A name that survives padding and trimming: printable ASCII, no blanks, at most 16 characters. */
  predicate PlainName(name: string) {
    |name| <= 16 && forall i :: 0 <= i < |name| ==> 33 <= name[i] as int <= 126
  }

  function NameBytes(name: string): (s: seq<byte>)
    requires PlainName(name)
    ensures |s| == |name| && forall i :: 0 <= i < |s| ==> 33 <= s[i] <= 126 && s[i] as char == name[i]
  {
    seq(|name|, i requires 0 <= i < |name| => name[i] as int)
  }

  lemma {:induction false} UpToNulOfPadded(s: seq<byte>, padding: nat)
    requires forall i :: 0 <= i < |s| ==> s[i] != 0
    ensures UpToNul(s + Zeros(padding)) == s
    decreases |s|
  {
    if s != [] {
      assert (s + Zeros(padding))[1..] == s[1..] + Zeros(padding);
      UpToNulOfPadded(s[1..], padding);
    }
  }

  lemma PlainIsNoSpace(rune: seq<byte>)
    requires rune != [] && 33 <= rune[0] <= 126
    ensures !IsSpaceRune(rune)
  {
  }

  lemma {:induction false} NothingToTrim(s: seq<byte>)
    requires forall i :: 0 <= i < |s| ==> 33 <= s[i] <= 126
    ensures TrimStart(s) == s && TrimEnd(s) == s
  {
    var n := |s|;
    if n >= 1 {
      PlainIsNoSpace(s[..1]);
      PlainIsNoSpace(s[n - 1..]);
    }
    if n >= 2 {
      PlainIsNoSpace(s[..2]);
      PlainIsNoSpace(s[n - 2..]);
    }
    if n >= 3 {
      PlainIsNoSpace(s[..3]);
      PlainIsNoSpace(s[n - 3..]);
    }
  }

  lemma {:induction false} ParseUntrimmed(raw: seq<byte>, s: seq<byte>)
    requires UpToNul(raw) == s && TrimStart(s) == s && TrimEnd(s) == s
    ensures ParseTypeString(raw) == Text(s)
  {
  }

  /** A written type name is parsed back. */
  lemma NameRoundTrip(name: string)
    requires PlainName(name)
    ensures ParseTypeString(NameBytes(name) + Zeros(16 - |name|)) == name
  {
    var bytes := NameBytes(name);
    UpToNulOfPadded(bytes, 16 - |name|);
    NothingToTrim(bytes);
    ParseUntrimmed(bytes + Zeros(16 - |name|), bytes);
    assert Text(bytes) == name;
  }

  // ----- white space around names

  /** The UTF-8 encoding of a code point below 2^16. */
  function Utf8(c: u16): (s: seq<byte>)
    ensures 1 <= |s| <= 3 && (c > 0 ==> 0 !in s)
  {
    if c < 0x80 then [c]
    else if c < 0x800 then [0xC0 + c / 0x40, 0x80 + c % 0x40]
    else [0xE0 + c / 0x1000, 0x80 + c / 0x40 % 0x40, 0x80 + c % 0x40]
  }

  /** The code points with the Unicode property White_Space. */
  predicate WhiteSpace(c: u16) {
    || 0x09 <= c <= 0x0D || c == 0x20 || c == 0x85 || c == 0xA0 || c == 0x1680 || 0x2000 <= c <= 0x200A
    || c == 0x2028 || c == 0x2029 || c == 0x202F || c == 0x205F || c == 0x3000
  }

  lemma WhiteIsSpace(c: u16)
    requires WhiteSpace(c)
    ensures IsSpaceRune(Utf8(c))
  {
  }

  lemma SpaceIsWhite(s: seq<byte>) returns (c: u16)
    requires IsSpaceRune(s)
    ensures WhiteSpace(c) && s == Utf8(c)
  {
    c := if |s| == 1 then s[0] as int else if |s| == 2 then s[1] as int
         else (s[0] as int - 0xE0) * 0x1000 + (s[1] as int - 0x80) * 0x40 + (s[2] as int - 0x80);
  }

  /** What trimming takes for a blank is the encoding of a white-space character. */
  lemma SpaceRuneIff(s: seq<byte>)
    ensures IsSpaceRune(s) <==> exists c :: WhiteSpace(c) && s == Utf8(c)
  {
    if IsSpaceRune(s) {
      var _ := SpaceIsWhite(s);
    }
    if c :| WhiteSpace(c) && s == Utf8(c) {
      WhiteIsSpace(c);
    }
  }

  ghost predicate AllWhite(cs: seq<u16>) {
    forall i :: 0 <= i < |cs| ==> WhiteSpace(cs[i])
  }

  function Encoded(cs: seq<u16>): seq<byte> {
    if cs == [] then [] else Encoded(cs[..|cs| - 1]) + Utf8(cs[|cs| - 1])
  }

  /** No part of a blank is a blank. */
  lemma BlankIsWhole(c: u16, k: nat)
    requires WhiteSpace(c) && k < |Utf8(c)|
    ensures !IsSpaceRune(Utf8(c)[..k])
    ensures k > 0 ==> !IsSpaceRune(Utf8(c)[k..])
  {
  }

  lemma {:induction false} BlankInFront(c: u16, s: seq<byte>)
    requires WhiteSpace(c)
    ensures TrimStart(Utf8(c) + s) == TrimStart(s)
  {
    var n, all := |Utf8(c)|, Utf8(c) + s;
    WhiteIsSpace(c);
    assert all[..n] == Utf8(c) && all[n..] == s;
    if n > 1 {
      BlankIsWhole(c, 1);
      assert all[..1] == Utf8(c)[..1];
    }
    if n > 2 {
      BlankIsWhole(c, 2);
      assert all[..2] == Utf8(c)[..2];
    }
  }

  lemma {:induction false} BlankBehind(c: u16, s: seq<byte>)
    requires WhiteSpace(c)
    ensures TrimEnd(s + Utf8(c)) == TrimEnd(s)
  {
    var n, all := |Utf8(c)|, s + Utf8(c);
    WhiteIsSpace(c);
    assert all[|all| - n..] == Utf8(c) && all[..|all| - n] == s;
    if n > 1 {
      BlankIsWhole(c, n - 1);
      assert all[|all| - 1..] == Utf8(c)[n - 1..];
    }
    if n > 2 {
      BlankIsWhole(c, n - 2);
      assert all[|all| - 2..] == Utf8(c)[n - 2..];
    }
  }

  /** White space at either end is trimmed off. */
  lemma {:induction false} AllTrimmed(cs: seq<u16>, s: seq<byte>)
    requires AllWhite(cs)
    ensures TrimStart(Encoded(cs) + s) == TrimStart(s) && TrimEnd(s + Encoded(cs)) == TrimEnd(s)
    ensures 0 !in Encoded(cs)
    decreases |cs|
  {
    if cs == [] {
      assert [] + s == s == s + [];
    } else {
      var before, rune := cs[..|cs| - 1], Utf8(cs[|cs| - 1]);
      AllTrimmed(before, rune + s);
      AllTrimmed(before, s);
      BlankInFront(cs[|cs| - 1], s);
      BlankBehind(cs[|cs| - 1], s + Encoded(before));
      JoinAssociates(Encoded(before), rune, s);
      JoinAssociates(s, Encoded(before), rune);
    }
  }

  lemma {:induction false} PlainStartStays(core: seq<byte>, s: seq<byte>)
    requires core != [] && 33 <= core[0] <= 126
    ensures TrimStart(core + s) == core + s
  {
    var all := core + s;
    PlainIsNoSpace(all[..1]);
    if |all| >= 2 {
      PlainIsNoSpace(all[..2]);
    }
    if |all| >= 3 {
      PlainIsNoSpace(all[..3]);
    }
  }

  lemma {:induction false} UpToFirstNul(s: seq<byte>, rest: seq<byte>)
    requires 0 !in s
    ensures UpToNul(s + ([0] + rest)) == s
    decreases |s|
  {
    if s != [] {
      assert (s + ([0] + rest))[1..] == s[1..] + ([0] + rest);
      UpToFirstNul(s[1..], rest);
    }
  }

  /** White space around a type name, and anything behind the first NUL, makes no difference. */
  lemma {:induction false} BlanksIgnored(name: string, before: seq<u16>, after: seq<u16>, rest: seq<byte>)
    requires PlainName(name) && name != "" && AllWhite(before) && AllWhite(after)
    ensures ParseTypeString((Encoded(before) + (NameBytes(name) + Encoded(after))) + ([0] + rest)) == name
  {
    var core := NameBytes(name);
    var padded := Encoded(before) + (core + Encoded(after));
    AllTrimmed(before, core + Encoded(after));
    AllTrimmed(after, core);
    UpToFirstNul(padded, rest);
    PlainStartStays(core, Encoded(after));
    NothingToTrim(core);
    assert Text(core) == name;
  }

  // ----- descriptors

  /** A 76-byte descriptor: name, where the next section starts, stated size, padding, checksum. */
  function DescriptorBytes(checksum: seq<byte> -> u32, name: string, next: u64, size: u64): (d: seq<byte>)
    requires PlainName(name)
    ensures |d| == DESCRIPTOR_V1_SIZE
  {
    var body := (NameBytes(name) + Zeros(16 - |name|)) + Put64(next) + Put64(size) + Zeros(40);
    body + Put32(checksum(body))
  }

  type DescriptorWriter = (string, u64, u64) -> seq<byte>

  function Descriptor(checksum: seq<byte> -> u32): DescriptorWriter {
    (name: string, offset: u64, size: u64) =>
      if PlainName(name) && offset + size < TWO_64 then DescriptorBytes(checksum, name, offset + size, size) else []
  }

  /** The type code of a type name. */
  type Kinds = string -> u32

  /** What a descriptor written at offset at says; the terminal section states size 0. */
  function InfoV1(kind: Kinds, at: pos, name: string, size: u64): SectionInfo
    requires at + DESCRIPTOR_V1_SIZE <= MAX_INT64
  {
    SectionInfo(at, DESCRIPTOR_V1_SIZE, kind(name), name, 0, size, at + DESCRIPTOR_V1_SIZE,
                if size >= DESCRIPTOR_V1_SIZE then size - DESCRIPTOR_V1_SIZE else 0, 0)
  }

  /** The fields a reader takes from a written descriptor. */
  lemma DescriptorFields(checksum: seq<byte> -> u32, name: string, next: u64, size: u64, d: seq<byte>)
    requires PlainName(name) && |d| == DESCRIPTOR_V1_SIZE && d == DescriptorBytes(checksum, name, next, size)
    ensures d[0..DESCRIPTOR_V1_SIZE] == d
    ensures ParseTypeString(d[0..16]) == name
    ensures U64(d[16..24]) == next && U64(d[24..32]) == size
  {
    assert d[0..16] == NameBytes(name) + Zeros(16 - |name|);
    assert d[16..24] == Put64(next) && d[24..32] == Put64(size);
    Put64RoundTrip(next);
    Put64RoundTrip(size);
    NameRoundTrip(name);
  }

  lemma FieldsRead(src: Source, at: pos, d: seq<byte>, name: string, next: u64, size: u64)
    requires ReadSlice(src, at, DESCRIPTOR_V1_SIZE) == Some(d) && |d| == DESCRIPTOR_V1_SIZE
    requires ParseTypeString(d[0..16]) == name && U64(d[16..24]) == next && U64(d[24..32]) == size
    ensures at + DESCRIPTOR_V1_SIZE <= |src|
    ensures ReadDescriptorV1(src, at) ==
            Some(InfoV1(MapV1TypeString, at, name, if size == 0 && next > at then next - at else size))
  {
  }

  /** A written descriptor is read back field by field; a stated size of zero means all up to the next section. */
  lemma ReadWrittenDescriptor(src: Source, checksum: seq<byte> -> u32, at: pos, name: string, next: u64, size: u64)
    requires PlainName(name) && Placed(src, at, DescriptorBytes(checksum, name, next, size))
    ensures ReadDescriptorV1(src, at) ==
            Some(InfoV1(MapV1TypeString, at, name, if size == 0 && next > at then next - at else size))
  {
    var d := DescriptorBytes(checksum, name, next, size);
    PlacedRead(src, at, d, 0, DESCRIPTOR_V1_SIZE);
    DescriptorFields(checksum, name, next, size, d);
    FieldsRead(src, at, d, name, next, size);
  }

  /** Reading and writing of descriptors agree in src; all the chain argument needs to know about either. */
  ghost predicate ReadsBack(src: Source, read: Descriptors, write: DescriptorWriter, kind: Kinds) {
    forall at: pos, name: string, size: u64 ::
      PlainName(name) && at + size < TWO_64 && Placed(src, at, write(name, at, size)) ==>
        && |write(name, at, size)| == DESCRIPTOR_V1_SIZE
        && read(at) == Some(InfoV1(kind, at, name, size))
  }

  lemma WrittenReadsBack(src: Source, checksum: seq<byte> -> u32, at: pos, name: string, size: u64)
    requires PlainName(name) && at + size < TWO_64 && Placed(src, at, Descriptor(checksum)(name, at, size))
    ensures |Descriptor(checksum)(name, at, size)| == DESCRIPTOR_V1_SIZE
    ensures ReadDescriptorV1(src, at) == Some(InfoV1(MapV1TypeString, at, name, size))
  {
    assert Descriptor(checksum)(name, at, size) == DescriptorBytes(checksum, name, at + size, size);
    ReadWrittenDescriptor(src, checksum, at, name, at + size, size);
  }

  lemma DescriptorsReadBack(src: Source, checksum: seq<byte> -> u32)
    ensures ReadsBack(src, DescriptorsV1(src), Descriptor(checksum), MapV1TypeString)
  {
    var read, write := DescriptorsV1(src), Descriptor(checksum);
    forall at: pos, name: string, size: u64 |
      PlainName(name) && at + size < TWO_64 && Placed(src, at, write(name, at, size))
      ensures |write(name, at, size)| == DESCRIPTOR_V1_SIZE && read(at) == Some(InfoV1(MapV1TypeString, at, name, size))
    {
      WrittenReadsBack(src, checksum, at, name, size);
    }
  }

  // ----- chains

  /** The file from position at on: blocks, then a terminal descriptor that states size 0. */
  ghost function Body(write: DescriptorWriter, blocks: seq<Block>, at: nat, terminal: string): seq<byte>
    decreases |blocks|
  {
    if at >= TWO_64 then []
    else if blocks == [] then write(terminal, at, 0)
    else
      var size := DESCRIPTOR_V1_SIZE + |blocks[0].payload|;
      if size >= TWO_64 then []
      else write(blocks[0].name, at, size) + (blocks[0].payload + Body(write, blocks[1..], at + size, terminal))
  }

  /** Blocks a writer may write: plain names that do not end the chain. */
  ghost predicate Writable(kind: Kinds, blocks: seq<Block>) {
    forall i :: 0 <= i < |blocks| ==>
      PlainName(blocks[i].name) && kind(blocks[i].name) != TYPE_NEXT && kind(blocks[i].name) != TYPE_DONE
  }

  /** infos describe the blocks laid out from at on, each with its payload in its data window, then the terminal. */
  ghost predicate Describes(
    src: Source, kind: Kinds, infos: seq<SectionInfo>, blocks: seq<Block>, at: nat, terminal: string)
    decreases |blocks|
  {
    && infos != [] && at + DESCRIPTOR_V1_SIZE <= |src|
    && if blocks == [] then infos == [InfoV1(kind, at, terminal, 0)]
       else
         var size := DESCRIPTOR_V1_SIZE + |blocks[0].payload|;
         && size < TWO_64 && infos[0] == InfoV1(kind, at, blocks[0].name, size)
         && Placed(src, at + DESCRIPTOR_V1_SIZE, blocks[0].payload)
         && Describes(src, kind, infos[1..], blocks[1..], at + size, terminal)
  }

  lemma NextOfInfo(kind: Kinds, at: pos, name: string, size: u64)
    requires DESCRIPTOR_V1_SIZE <= size && at + size <= MAX_INT64
    ensures NextOffset(InfoV1(kind, at, name, size)) == at + size
  {
  }

  /** The first block of a written chain: its descriptor, its payload, and the rest of the chain behind it. */
  lemma FirstBlock(
    src: Source, read: Descriptors, write: DescriptorWriter, kind: Kinds, b: Block, rest: seq<byte>, at: pos)
    requires ReadsBack(src, read, write, kind) && PlainName(b.name)
    requires var size := DESCRIPTOR_V1_SIZE + |b.payload|;
             at + size <= |src| && Placed(src, at, write(b.name, at, size) + (b.payload + rest))
    ensures var size := DESCRIPTOR_V1_SIZE + |b.payload|;
            && read(at) == Some(InfoV1(kind, at, b.name, size))
            && Placed(src, at + DESCRIPTOR_V1_SIZE, b.payload) && Placed(src, at + size, rest)
  {
    var size := DESCRIPTOR_V1_SIZE + |b.payload|;
    PlacedParts(src, at, write(b.name, at, size), b.payload + rest);
    PlacedParts(src, at + DESCRIPTOR_V1_SIZE, b.payload, rest);
  }

  lemma WritableTail(kind: Kinds, blocks: seq<Block>)
    requires Writable(kind, blocks) && blocks != []
    ensures Writable(kind, blocks[1..]) && PlainName(blocks[0].name)
  {
  }

  /** infos are the chain from at on, and describe the blocks laid out there. */
  ghost predicate ChainOf(src: Source, read: Descriptors, kind: Kinds, infos: seq<SectionInfo>, blocks: seq<Block>,
                          at: pos, terminal: string) {
    IsChain(read, at, infos) && |infos| == |blocks| + 1 && Describes(src, kind, infos, blocks, at, terminal)
  }

  /** Reading a written chain finds exactly its sections. */
  lemma {:induction false} BodyIsChain(
    src: Source, read: Descriptors, write: DescriptorWriter, kind: Kinds,
    blocks: seq<Block>, at: pos, terminal: string) returns (infos: seq<SectionInfo>)
    requires ReadsBack(src, read, write, kind) && Located(read)
    requires Writable(kind, blocks) && PlainName(terminal)
    requires kind(terminal) == TYPE_NEXT || kind(terminal) == TYPE_DONE
    requires Placed(src, at, Body(write, blocks, at, terminal)) && at + BodySize(blocks) <= |src|
    ensures ChainOf(src, read, kind, infos, blocks, at, terminal)
    decreases |blocks|
  {
    if blocks == [] {
      infos := [InfoV1(kind, at, terminal, 0)];
      ChainTail(read, at, infos);
    } else {
      BodyFirst(src, read, write, kind, blocks, at, terminal);
      var next := at + DESCRIPTOR_V1_SIZE + |blocks[0].payload|;
      var tail := BodyIsChain(src, read, write, kind, blocks[1..], next, terminal);
      infos := ConsInfo(src, read, kind, blocks, at, terminal, tail);
    }
  }

  /** A body is its first block and the body behind that. */
  lemma {:induction false} BodyFirst(src: Source, read: Descriptors, write: DescriptorWriter, kind: Kinds,
                                     blocks: seq<Block>, at: pos, terminal: string)
    requires ReadsBack(src, read, write, kind) && Writable(kind, blocks) && blocks != []
    requires Placed(src, at, Body(write, blocks, at, terminal)) && at + BodySize(blocks) <= |src|
    ensures var b, later := blocks[0], blocks[1..];
            var size := DESCRIPTOR_V1_SIZE + |b.payload|;
            && at + size <= |src| && read(at) == Some(InfoV1(kind, at, b.name, size))
            && Placed(src, at + DESCRIPTOR_V1_SIZE, b.payload) && Writable(kind, later)
            && Placed(src, at + size, Body(write, later, at + size, terminal)) && at + size + BodySize(later) <= |src|
  {
    var b, later := blocks[0], blocks[1..];
    var size := DESCRIPTOR_V1_SIZE + |b.payload|;
    WritableTail(kind, blocks);
    FirstBlock(src, read, write, kind, b, Body(write, later, at + size, terminal), at);
  }

  lemma ConsInfo(src: Source, read: Descriptors, kind: Kinds, blocks: seq<Block>, at: pos, terminal: string,
                 tail: seq<SectionInfo>) returns (infos: seq<SectionInfo>)
    requires Located(read) && blocks != [] && Writable(kind, blocks)
    requires var b := blocks[0]; var size := DESCRIPTOR_V1_SIZE + |b.payload|;
             && at + size <= |src| && read(at) == Some(InfoV1(kind, at, b.name, size))
             && Placed(src, at + DESCRIPTOR_V1_SIZE, b.payload)
             && ChainOf(src, read, kind, tail, blocks[1..], at + size, terminal)
    ensures ChainOf(src, read, kind, infos, blocks, at, terminal)
  {
    var b := blocks[0];
    var size := DESCRIPTOR_V1_SIZE + |b.payload|;
    var info := InfoV1(kind, at, b.name, size);
    infos := [info] + tail;
    assert infos[1..] == tail;
    NextOfInfo(kind, at, b.name, size);
    ChainTail(read, at, infos);
  }

  /** How many bytes the chain takes. */
  function BodySize(blocks: seq<Block>): nat {
    if blocks == [] then DESCRIPTOR_V1_SIZE
    else DESCRIPTOR_V1_SIZE + |blocks[0].payload| + BodySize(blocks[1..])
  }

  /** A written chain within the cap is walked back to exactly its sections; a longer one is refused. */
  lemma ChainRoundTrip(src: Source, checksum: seq<byte> -> u32, blocks: seq<Block>, terminal: string)
    returns (infos: seq<SectionInfo>)
    requires Writable(MapV1TypeString, blocks) && PlainName(terminal)
    requires MapV1TypeString(terminal) == TYPE_NEXT || MapV1TypeString(terminal) == TYPE_DONE
    requires Placed(src, FILE_HEADER_V1_SIZE, Body(Descriptor(checksum), blocks, FILE_HEADER_V1_SIZE, terminal))
    requires FILE_HEADER_V1_SIZE + BodySize(blocks) <= |src|
    ensures Describes(src, MapV1TypeString, infos, blocks, FILE_HEADER_V1_SIZE, terminal)
    ensures WalkV1(src) == if |blocks| < MAX_SECTIONS then Ok(infos) else Err(NoNextOrDone)
  {
    DescriptorsReadBack(src, checksum);
    var read: Descriptors := DescriptorsV1(src);
    infos := BodyIsChain(src, read, Descriptor(checksum), MapV1TypeString, blocks, FILE_HEADER_V1_SIZE, terminal);
    if |infos| <= MAX_SECTIONS {
      WalkFindsChain(read, FILE_HEADER_V1_SIZE, MAX_SECTIONS, infos);
    } else {
      WalkStopsShort(read, FILE_HEADER_V1_SIZE, MAX_SECTIONS, infos);
    }
  }
}
