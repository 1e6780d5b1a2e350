/** Discovering a segment set: from an unordered directory listing to an ordered set with its gaps. */
module SegSets {
  import opened Bytes
  import opened SegNames
  import opened Sorting

  type Name = seq<byte>

  datatype DirEntry = DirEntry(name: Name, regular: bool)

  /** A member of a set; number 0 only for a name of no family. */
  datatype Member = Member(number: nat, name: Name)

  datatype Set = Set(family: Option<Family>, stem: Name, segments: seq<Member>)

  datatype DiscoverError = NumberClash

  /** strings.EqualFold; nothing is assumed about it. */
  type Folding = (Name, Name) -> bool

  // ----- names and stems

  function LastDot(name: Name): (i: nat)
    ensures i <= |name|
  {
    if name == [] then 0
    else if name[|name| - 1] == DOT then |name| - 1
    else
      var i := LastDot(name[..|name| - 1]);
      if i == |name| - 1 then |name| else i
  }

  /** filepath.Ext of a bare file name: from its last dot on. */
  function ExtOf(name: Name): Name { name[LastDot(name)..] }

  function StemOf(name: Name): Name { name[..LastDot(name)] }

  lemma {:induction false} LastDotIs(name: Name)
    ensures var i := LastDot(name);
            && (i < |name| ==> name[i] == DOT)
            && forall k :: (if i < |name| then i + 1 else 0) <= k < |name| ==> name[k] != DOT
    decreases |name|
  {
    if name != [] && name[|name| - 1] != DOT {
      LastDotIs(name[..|name| - 1]);
    }
  }

  /** A name is cut at its last dot; without one, all of it is stem. */
  lemma CutAtLastDot(name: Name)
    ensures name == StemOf(name) + ExtOf(name)
    ensures ExtOf(name) == [] <==> DOT !in name
    ensures ExtOf(name) != [] ==> ExtOf(name)[0] == DOT && DOT !in ExtOf(name)[1..]
  {
    LastDotIs(name);
  }

  lemma ExtOfJoined(stem: Name, ext: Name)
    requires |ext| > 0 && ext[0] == DOT && forall i :: 1 <= i < |ext| ==> ext[i] != DOT
    ensures ExtOf(stem + ext) == ext && StemOf(stem + ext) == stem
    decreases |ext|
  {
    LastDotOfJoined(stem, ext);
  }

  lemma {:induction false} LastDotOfJoined(stem: Name, ext: Name)
    requires |ext| > 0 && ext[0] == DOT && forall i :: 1 <= i < |ext| ==> ext[i] != DOT
    ensures LastDot(stem + ext) == |stem|
    decreases |ext|
  {
    if |ext| > 1 {
      LastDotOfJoined(stem, ext[..|ext| - 1]);
      assert (stem + ext)[..|stem + ext| - 1] == stem + ext[..|ext| - 1];
    }
  }

  // ----- scanning the listing

  /** What identifies the set: its family, its stem, and how stems are compared. */
  datatype Query = Query(family: Family, stem: Name, fold: Folding) {
    /** The number of a directory entry that belongs to the set. */
    function NumberOf(e: DirEntry): Option<nat> {
      if fold(StemOf(e.name), stem) && e.regular then family.Number(ExtOf(e.name)) else None
    }
  }

  /** The entry is a regular file with the set's stem, and its extension names segment n of the family. */
  ghost predicate Denotes(q: Query, e: DirEntry, n: nat) {
    e.regular && q.fold(StemOf(e.name), q.stem) && q.family.Number(ExtOf(e.name)) == Some(n)
  }

  lemma NumberOfIff(q: Query, e: DirEntry, n: nat)
    ensures q.NumberOf(e) == Some(n) <==> Denotes(q, e, n)
  {
  }

  /** Two entries name the same segment. */
  ghost predicate Clashes(number: DirEntry -> Option<nat>, entries: seq<DirEntry>) {
    exists i, j :: 0 <= i < j < |entries| && number(entries[i]).Some? && number(entries[i]) == number(entries[j])
  }

  /** found is exactly the numbered entries of the listing. */
  ghost predicate Found(number: DirEntry -> Option<nat>, entries: seq<DirEntry>, found: map<nat, Name>) {
    && (forall e :: e in entries && number(e).Some? ==> number(e).value in found && found[number(e).value] == e.name)
    && (forall n :: n in found ==> exists e :: e in entries && number(e) == Some(n))
  }

  /** The loop over the directory entries. */
  method Scan(number: DirEntry -> Option<nat>, entries: seq<DirEntry>)
    returns (r: Result<map<nat, Name>, DiscoverError>)
    ensures r.Err? <==> Clashes(number, entries)
    ensures r.Ok? ==> Found(number, entries, r.value)
  {
    var found: map<nat, Name> := map[];
    for i := 0 to |entries|
      invariant !Clashes(number, entries[..i])
      invariant Found(number, entries[..i], found)
    {
      var e := entries[i];
      var n := number(e);
      assert entries[..i + 1] == entries[..i] + [e];
      if n.Some? {
        if n.value in found {
          var earlier :| earlier in entries[..i] && number(earlier) == n;
          var j :| 0 <= j < i && entries[j] == earlier;
          assert Clashes(number, entries);
          return Err(NumberClash);
        }
        found := found[n.value := e.name];
      }
    }
    assert entries[..|entries|] == entries;
    return Ok(found);
  }

  predicate Saturated(found: map<nat, Name>) {
    forall n :: 1 <= n <= MAX_NUMERIC ==> n in found
  }

  /** saturated, as the loop it is. */
  method AllNumericPresent(found: map<nat, Name>) returns (r: bool)
    ensures r == Saturated(found)
  {
    for n := 1 to MAX_NUMERIC + 1
      invariant forall k :: 1 <= k < n ==> k in found
    {
      if n !in found {
        return false;
      }
    }
    return true;
  }

  const IDENTITY: nat -> int := n => n

  ghost predicate Ascending(segments: seq<Member>) {
    forall i, j :: 0 <= i < j < |segments| ==> segments[i].number < segments[j].number
  }

  /** segments lists the map in ascending order. */
  ghost predicate Lists(segments: seq<Member>, members: map<nat, Name>) {
    && Ascending(segments)
    && (forall i :: 0 <= i < |segments| ==>
          segments[i].number in members && members[segments[i].number] == segments[i].name)
    && (forall n :: n in members ==> exists i :: 0 <= i < |segments| && segments[i].number == n)
  }

  /** The keys of a map in whatever order iteration gives them. */
  method KeysOf(members: map<nat, Name>) returns (numbers: seq<nat>)
    ensures forall n :: n in numbers <==> n in members
    ensures forall i, j :: 0 <= i < j < |numbers| ==> numbers[i] != numbers[j]
  {
    numbers := [];
    var rest := members.Keys;
    while rest != {}
      invariant rest <= members.Keys
      invariant forall n :: n in numbers <==> n in members.Keys - rest
      invariant forall i, j :: 0 <= i < j < |numbers| ==> numbers[i] != numbers[j]
      decreases rest
    {
      var n :| n in rest;
      numbers := numbers + [n];
      rest := rest - {n};
    }
  }

  /** Collect the numbers, sort them, and list the members in that order. */
  method ListInOrder(members: map<nat, Name>) returns (segments: seq<Member>)
    ensures Lists(segments, members)
  {
    var numbers := KeysOf(members);
    var sorted := Sort(IDENTITY, numbers);
    SortedDistinct(numbers, sorted);
    segments := [];
    for i := 0 to |sorted|
      invariant |segments| == i
      invariant forall k :: 0 <= k < i ==> segments[k] == Member(sorted[k], members[sorted[k]])
    {
      assert sorted[i] in numbers;
      segments := segments + [Member(sorted[i], members[sorted[i]])];
    }
    forall n | n in members
      ensures exists i :: 0 <= i < |segments| && segments[i].number == n
    {
      assert n in numbers && n in sorted;
      var i :| 0 <= i < |sorted| && sorted[i] == n;
      assert segments[i].number == n;
    }
  }

  lemma SortedDistinct(numbers: seq<nat>, sorted: seq<nat>)
    requires SortOf(IDENTITY, numbers, sorted)
    requires forall i, j :: 0 <= i < j < |numbers| ==> numbers[i] != numbers[j]
    ensures forall n :: n in sorted <==> n in numbers
    ensures forall i, j :: 0 <= i < j < |sorted| ==> sorted[i] < sorted[j]
  {
    SameElements(sorted, numbers);
    forall i, j | 0 <= i < j < |sorted|
      ensures sorted[i] < sorted[j]
    {
      assert IDENTITY(sorted[i]) <= IDENTITY(sorted[j]);
      if sorted[i] == sorted[j] {
        TwiceInMultiset(sorted, i, j);
        TwicePositions(numbers, sorted[i]);
      }
    }
  }

  // ----- Discover

  /** Some entry of the directory is segment n. */
  ghost predicate Present(q: Query, entries: seq<DirEntry>, n: nat) {
    exists e :: e in entries && Denotes(q, e, n)
  }

  /** Letter pairs count only when all 99 numeric segments are there. */
  ghost predicate Admitted(q: Query, entries: seq<DirEntry>, n: nat) {
    Present(q, entries, n) && (n < 100 || forall k: nat :: 1 <= k <= 99 ==> Present(q, entries, k))
  }

  ghost predicate HasNumber(s: Set, n: nat) {
    exists i :: 0 <= i < |s.segments| && s.segments[i].number == n
  }

  /** The member is the file that was named, under that name, or an entry that denotes its number. */
  ghost predicate Belongs(q: Query, self: nat, name: Name, entries: seq<DirEntry>, m: Member) {
    if m.number == self then m.name == name
    else exists e :: e in entries && Denotes(q, e, m.number) && m.name == e.name
  }

  /** Every number that is admitted, and the named file's own, is in the set once and in order, with the right name. */
  ghost predicate SetOf(q: Query, self: nat, name: Name, entries: seq<DirEntry>, s: Set) {
    && s.family == Some(q.family) && s.stem == q.stem && Ascending(s.segments)
    && (forall n: nat :: HasNumber(s, n) <==> n == self || Admitted(q, entries, n))
    && forall m :: m in s.segments ==> Belongs(q, self, name, entries, m)
  }

  /** What a listing leads to, for the named file. */
  ghost predicate Discovered(q: Query, self: nat, name: Name, entries: seq<DirEntry>, r: Result<Set, DiscoverError>) {
    match r
    case Err(_) => Clashes(q.NumberOf, entries)
    case Ok(s) => !Clashes(q.NumberOf, entries) && SetOf(q, self, name, entries, s)
  }

  lemma FoundIsPresent(q: Query, entries: seq<DirEntry>, found: map<nat, Name>)
    requires Found(q.NumberOf, entries, found)
    ensures forall n: nat :: n in found <==> Present(q, entries, n)
    ensures forall n :: n in found ==> exists e :: e in entries && Denotes(q, e, n) && found[n] == e.name
  {
    forall e: DirEntry, n: nat
      ensures q.NumberOf(e) == Some(n) <==> Denotes(q, e, n)
    {
      NumberOfIff(q, e, n);
    }
  }

  /** The members to list: what was found, letter pairs only when all 99 numeric segments were, and the named file. */
  lemma ListedIsSet(q: Query, self: nat, name: Name, entries: seq<DirEntry>, found: map<nat, Name>,
                    members: map<nat, Name>, s: Set)
    requires Found(q.NumberOf, entries, found) && Lists(s.segments, members)
    requires s.family == Some(q.family) && s.stem == q.stem && self in members && members[self] == name
    requires forall n: nat :: n != self ==> (n in members <==> n in found && (n < LETTER_BASE || Saturated(found)))
    requires forall n :: n in members && n != self ==> members[n] == found[n]
    ensures SetOf(q, self, name, entries, s)
  {
    FoundIsPresent(q, entries, found);
    forall n: nat
      ensures HasNumber(s, n) <==> n == self || Admitted(q, entries, n)
    {
      assert HasNumber(s, n) <==> n in members;
    }
    forall m | m in s.segments
      ensures Belongs(q, self, name, entries, m)
    {
      assert m.number in members && members[m.number] == m.name;
    }
  }

  /** Drop the letter pairs unless all numeric segments were found, and let the named file in. */
  method Admit(found: map<nat, Name>, self: nat, name: Name) returns (members: map<nat, Name>)
    ensures self in members && members[self] == name
    ensures forall n: nat :: n != self ==> (n in members <==> n in found && (n < LETTER_BASE || Saturated(found)))
    ensures forall n :: n in members && n != self ==> members[n] == found[n]
  {
    var saturated := AllNumericPresent(found);
    members := found;
    if !saturated {
      members := map n | n in found && n < LETTER_BASE :: found[n];
    }
    members := members[self := name];
  }

  /**
   * Discover from the directory listing on: name is the file given, entries its directory in any order. A name of no
   * family is a set of that one file.
   */
  method Discover(name: Name, entries: seq<DirEntry>, fold: Folding) returns (r: Result<Set, DiscoverError>)
    ensures match ParseFamily(ExtOf(name))
            case None => r == Ok(Set(None, StemOf(name), [Member(0, name)]))
            case Some((family, self)) => Discovered(Query(family, StemOf(name), fold), self, name, entries, r)
  {
    var parsed := ParseFamily(ExtOf(name));
    if parsed.None? {
      return Ok(Set(None, StemOf(name), [Member(0, name)]));
    }
    var (family, self) := parsed.value;
    var q := Query(family, StemOf(name), fold);
    var scanned := Scan(q.NumberOf, entries);
    if scanned.Err? {
      return Err(NumberClash);
    }
    var found := scanned.value;
    var members := Admit(found, self, name);
    var segments := ListInOrder(members);
    var discovered := Set(Some(family), StemOf(name), segments);
    ListedIsSet(q, self, name, entries, found, members, discovered);
    return Ok(discovered);
  }

  // ----- discovery is a function of the directory as a set

  lemma ClashesInAnyOrder(number: DirEntry -> Option<nat>, a: seq<DirEntry>, b: seq<DirEntry>)
    requires multiset(a) == multiset(b) && Clashes(number, a)
    ensures Clashes(number, b)
  {
    var i, j :| 0 <= i < j < |a| && number(a[i]).Some? && number(a[i]) == number(a[j]);
    if a[i] == a[j] {
      TwiceInMultiset(a, i, j);
      TwicePositions(b, a[i]);
    } else {
      assert a[i] in multiset(b) && a[j] in multiset(b);
      var p :| 0 <= p < |b| && b[p] == a[i];
      var q :| 0 <= q < |b| && b[q] == a[j];
      assert p < q || q < p;
    }
  }

  lemma PresentInAnyOrder(q: Query, a: seq<DirEntry>, b: seq<DirEntry>)
    requires multiset(a) == multiset(b)
    ensures forall e :: e in a <==> e in b
    ensures forall n: nat :: Present(q, a, n) <==> Present(q, b, n)
  {
    SameElements(a, b);
  }

  const BY_MEMBER: Member -> int := (s: Member) => s.number

  /** Without a clash, one entry denotes a number. */
  lemma OneDenotes(q: Query, entries: seq<DirEntry>, n: nat, e: DirEntry, f: DirEntry)
    requires !Clashes(q.NumberOf, entries) && e in entries && f in entries && Denotes(q, e, n) && Denotes(q, f, n)
    ensures e == f
  {
    NumberOfIff(q, e, n);
    NumberOfIff(q, f, n);
    var i :| 0 <= i < |entries| && entries[i] == e;
    var j :| 0 <= j < |entries| && entries[j] == f;
    assert i < j || j < i || i == j;
  }

  lemma SameMembers(q: Query, self: nat, name: Name, a: seq<DirEntry>, b: seq<DirEntry>, sa: Set, sb: Set, m: Member)
    requires multiset(a) == multiset(b) && !Clashes(q.NumberOf, a)
    requires SetOf(q, self, name, a, sa) && SetOf(q, self, name, b, sb) && m in sa.segments
    ensures m in sb.segments
  {
    PresentInAnyOrder(q, a, b);
    var n := m.number;
    assert HasNumber(sa, n);
    assert HasNumber(sb, n);
    var i :| 0 <= i < |sb.segments| && sb.segments[i].number == n;
    var other := sb.segments[i];
    assert Belongs(q, self, name, a, m) && Belongs(q, self, name, b, other);
    if n != self {
      var e :| e in a && Denotes(q, e, n) && m.name == e.name;
      var f :| f in b && Denotes(q, f, n) && other.name == f.name;
      OneDenotes(q, a, n, e, f);
    }
    assert other == m;
  }

  /** Any two orders of one listing fail alike, or succeed with the same set. */
  lemma DiscoveryIgnoresListingOrder(q: Query, self: nat, name: Name, a: seq<DirEntry>, b: seq<DirEntry>,
                                     ra: Result<Set, DiscoverError>, rb: Result<Set, DiscoverError>)
    requires multiset(a) == multiset(b)
    requires Discovered(q, self, name, a, ra) && Discovered(q, self, name, b, rb)
    ensures ra == rb
  {
    if ra.Err? {
      ClashesInAnyOrder(q.NumberOf, a, b);
      assert ra.error == NumberClash && rb.Err? && rb.error == NumberClash;
    } else if rb.Err? {
      ClashesInAnyOrder(q.NumberOf, b, a);
    } else {
      forall m
        ensures m in ra.value.segments <==> m in rb.value.segments
      {
        if m in ra.value.segments {
          SameMembers(q, self, name, a, b, ra.value, rb.value, m);
        }
        if m in rb.value.segments {
          SameMembers(q, self, name, b, a, rb.value, ra.value, m);
        }
      }
      AscendingIsSorted(ra.value.segments);
      AscendingIsSorted(rb.value.segments);
      ElementsDetermine(BY_MEMBER, ra.value.segments, rb.value.segments);
    }
  }

  lemma AscendingIsSorted(segments: seq<Member>)
    requires Ascending(segments)
    ensures StrictlySorted(BY_MEMBER, segments)
  {
  }

  /**
   * A discovered set includes the named file under its own name, and has another member numbered 100 or more only if
   * all of 1..99 are there.
   */
  lemma DiscoveredSet(q: Query, self: nat, name: Name, entries: seq<DirEntry>, s: Set)
    requires Discovered(q, self, name, entries, Ok(s))
    ensures Member(self, name) in s.segments
    ensures (exists n: nat :: LETTER_BASE <= n != self && HasNumber(s, n)) ==>
              forall n: nat :: 1 <= n <= MAX_NUMERIC ==> HasNumber(s, n)
  {
    assert HasNumber(s, self);
    var i :| 0 <= i < |s.segments| && s.segments[i].number == self;
    assert Belongs(q, self, name, entries, s.segments[i]);
  }

  // ----- gaps

  function Last(s: Set): nat
    requires s.segments != []
  {
    s.segments[|s.segments| - 1].number
  }

  /**
   * Missing: the numbers absent between 1 and the last, ascending. None stands for not returning: a set whose last
   * number is the largest there is keeps the loop going, because its 32-bit counter wraps to zero.
   */
  method Missing(s: Set) returns (missing: Option<seq<nat>>)
    ensures missing == None <==> s.segments != [] && Last(s) >= MAX_UINT32
    ensures missing.Some? ==> if s.segments == [] then missing.value == [] else IsMissing(s, missing.value)
  {
    if |s.segments| == 0 {
      return Some([]);
    }
    var present: set<nat> := {};
    for i := 0 to |s.segments|
      invariant forall n :: n in present <==> exists k :: 0 <= k < i && s.segments[k].number == n
    {
      present := present + {s.segments[i].number};
    }
    var absent: seq<nat> := [];
    var number := 1;
    while number <= Last(s)
      invariant 1 <= number <= Last(s) + 1 && number <= MAX_UINT32
      invariant forall n :: n in absent <==> 1 <= n < number && !HasNumber(s, n)
      invariant forall i :: 0 <= i < |absent| ==> absent[i] < number
      invariant forall i, j :: 0 <= i < j < |absent| ==> absent[i] < absent[j]
      decreases Last(s) - number
    {
      if number !in present {
        absent := absent + [number];
      }
      if number == MAX_UINT32 {
        return None;
      }
      number := number + 1;
    }
    return Some(absent);
  }

  ghost predicate IsMissing(s: Set, missing: seq<nat>)
    requires s.segments != []
  {
    && (forall i, j :: 0 <= i < j < |missing| ==> missing[i] < missing[j])
    && (forall n :: n in missing <==> 1 <= n <= Last(s) && !HasNumber(s, n))
  }

  /** Every member's number is one the family can name. */
  lemma MembersInRange(q: Query, self: nat, name: Name, entries: seq<DirEntry>, s: Set)
    requires ParseFamily(ExtOf(name)) == Some((q.family, self)) && SetOf(q, self, name, entries, s)
    ensures forall n: nat :: HasNumber(s, n) ==> 1 <= n <= Highest(q.family) < MAX_UINT32
  {
    NamedNumber(q.family, self, ExtOf(name));
    forall n: nat | HasNumber(s, n) && n != self
      ensures 1 <= n <= Highest(q.family)
    {
      assert Present(q, entries, n);
      var e :| e in entries && Denotes(q, e, n);
      ExtInvertsNumber(q.family, ExtOf(e.name));
    }
  }

  /** Found and missing numbers partition 1..last, and every number is one the family can name. */
  lemma MissingIsComplement(q: Query, self: nat, name: Name, entries: seq<DirEntry>, s: Set, missing: seq<nat>)
    requires ParseFamily(ExtOf(name)) == Some((q.family, self))
    requires Discovered(q, self, name, entries, Ok(s)) && s.segments != [] && IsMissing(s, missing)
    ensures forall n: nat :: HasNumber(s, n) || n in missing <==> 1 <= n <= Last(s)
    ensures forall n: nat :: !(HasNumber(s, n) && n in missing)
    ensures Last(s) <= Highest(q.family) < MAX_UINT32
  {
    MembersInRange(q, self, name, entries, s);
    NumbersUpToLast(s);
  }

  lemma NumbersUpToLast(s: Set)
    requires Ascending(s.segments) && s.segments != []
    ensures HasNumber(s, Last(s)) && forall n: nat :: HasNumber(s, n) ==> n <= Last(s)
  {
    var last := |s.segments| - 1;
    assert s.segments[last].number == Last(s);
    forall i | 0 <= i < |s.segments|
      ensures s.segments[i].number <= Last(s)
    {
    }
  }

  lemma NamedNumber(f: Family, n: nat, ext: Name)
    requires ParseFamily(ext) == Some((f, n))
    ensures f.Number(ext) == Some(n) && 1 <= n <= Highest(f) < MAX_UINT32
  {
    ExtInvertsNumber(f, ext);
  }

  /** The name of segment n in a set, if the family can express it. */
  function NameFor(f: Family, stem: Name): u32 -> Option<Name> {
    (n: u32) => if f.Ext(n).None? then None else Some(stem + f.Ext(n).value)
  }

  /** The results of a partial function over a list, failures left out. */
  function Results(f: u32 -> Option<Name>, numbers: seq<u32>): seq<Name> {
    if numbers == [] then []
    else (if f(numbers[0]).Some? then [f(numbers[0]).value] else []) + Results(f, numbers[1..])
  }

  /** Names: the file names the given numbers would carry, numbers the family cannot express left out. */
  function NamesOf(f: Family, stem: Name, numbers: seq<u32>): seq<Name> {
    Results(NameFor(f, stem), numbers)
  }

  method CollectNames(f: u32 -> Option<Name>, numbers: seq<u32>) returns (names: seq<Name>)
    ensures names == Results(f, numbers)
  {
    names := [];
    for i := 0 to |numbers|
      invariant names + Results(f, numbers[i..]) == Results(f, numbers)
    {
      assert numbers[i..][1..] == numbers[i + 1..];
      if f(numbers[i]).Some? {
        names := names + [f(numbers[i]).value];
      }
    }
  }

  method Names(f: Family, stem: Name, numbers: seq<u32>) returns (names: seq<Name>)
    ensures names == NamesOf(f, stem, numbers)
  {
    names := CollectNames(NameFor(f, stem), numbers);
  }

  /** A reported name is one that discovery would take for the segment it reports missing. */
  lemma ReportedNameIsFound(q: Query, n: u32)
    requires q.family.Valid() && 1 <= n <= Highest(q.family) && q.fold(q.stem, q.stem)
    ensures q.family.Ext(n).Some?
    ensures q.NumberOf(DirEntry(q.stem + q.family.Ext(n).value, true)) == Some(n)
  {
    ExtSucceedsIff(q.family, n);
    var ext := q.family.Ext(n).value;
    var at := NameParts(q.family, n);
    forall i | 1 <= i < |ext|
      ensures ext[i] != DOT
    {
      assert i == 1 || i == at || i == at + 1 || ext[i] == V2_MARKER;
    }
    ExtOfJoined(q.stem, ext);
    NumberInvertsExt(q.family, n);
  }

  /** So for numbers the family can name, as all missing ones are, every number is reported under such a name. */
  lemma {:induction false} EveryMissingIsNamed(q: Query, missing: seq<u32>)
    requires q.family.Valid() && q.fold(q.stem, q.stem)
    requires forall i :: 0 <= i < |missing| ==> 1 <= missing[i] <= Highest(q.family)
    ensures var names := NamesOf(q.family, q.stem, missing);
            |names| == |missing| &&
            forall i :: 0 <= i < |names| ==> q.NumberOf(DirEntry(names[i], true)) == Some(missing[i])
    decreases |missing|
  {
    if missing != [] {
      var rest := missing[1..];
      assert forall i :: 0 <= i < |rest| ==> rest[i] == missing[i + 1];
      ReportedNameIsFound(q, missing[0]);
      EveryMissingIsNamed(q, rest);
    }
  }
}
