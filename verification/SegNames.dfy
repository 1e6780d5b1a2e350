/** The names of a segment set: .E01 to .E99, then letter pairs, then a carry into the leading letter. */
module SegNames {
  import opened Bytes

  const LETTER_BASE: int := 100
  const MAX_NUMERIC: int := 99

  // Character codes: '.' is 46, '0' to '9' are 48 to 57, 'A' to 'Z' 65 to 90, 'a' to 'z' 97 to 122.
  const DOT: byte := 46
  const V2_MARKER: byte := 120  // x

  predicate IsDigit(c: byte) { 48 <= c <= 57 }

  predicate IsUpper(c: byte) { 65 <= c <= 90 }

  predicate IsLetter(c: byte) { IsUpper(c) || 97 <= c <= 122 }

  function Lower(c: byte): byte { if IsUpper(c) then c + 32 else c }

  function Upper(c: byte): byte { if 97 <= c <= 122 then c - 32 else c }

  /** The leading letter as observed on disk, and whether the EWF2 spelling is used. */
  datatype Family = Family(base: byte, v2: bool) {
    predicate Valid() {
      Lower(base) == 101 || Lower(base) == 108 || Lower(base) == 115  // e, l, s
    }

    /** Ext: the extension that names segment n, if the family can express it. */
    function Ext(n: u32): Option<seq<byte>> {
      if !Valid() || n == 0 then None
      else
        var marker := if v2 then [V2_MARKER] else [];
        if n <= MAX_NUMERIC then
          Some([DOT, base] + marker + [48 + n / 10, 48 + n % 10])
        else
          var offset := n - LETTER_BASE;
          var carry, rest := offset / 676, offset % 676;
          if Upper(base) + carry > 90 then None
          else
            var alpha := if IsUpper(base) then 65 else 97;
            Some([DOT, base + carry] + marker + [alpha + rest / 26, alpha + rest % 26])
    }

    /** Number: the segment number an extension denotes within this family. */
    function Number(ext: seq<byte>): Option<nat> {
      if !Valid() then None
      else match SplitExt(ext)
        case None => None
        case Some((other, field)) =>
          if other.v2 != v2 || Upper(other.base) < Upper(base) then None
          else FieldNumber(field, Upper(other.base) - Upper(base))
    }
  }

  /** splitExt: an extension taken apart, whatever its letter. */
  function SplitExt(ext: seq<byte>): (r: Option<(Family, seq<byte>)>)
    ensures r.Some? ==> IsLetter(r.value.0.base) && |r.value.1| == 2
  {
    if |ext| < 4 || |ext| > 5 || ext[0] != DOT || !IsLetter(ext[1]) then None
    else if |ext| == 4 then Some((Family(ext[1], false), ext[2..]))
    else if Lower(ext[2]) != V2_MARKER then None
    else Some((Family(ext[1], true), ext[3..]))
  }

  /** fieldNumber: 01 to 99 count only without a carry, AA to ZZ count on from there in blocks of 26 * 26. */
  function FieldNumber(field: seq<byte>, carry: nat): Option<nat> {
    if |field| != 2 then None
    else if IsDigit(field[0]) && IsDigit(field[1]) then
      var n := (field[0] - 48) * 10 + (field[1] - 48);
      if carry != 0 || n == 0 then None else Some(n)
    else if IsLetter(field[0]) && IsLetter(field[1]) then
      Some(LETTER_BASE + carry * 676 + 26 * (Upper(field[0]) - 65) + (Upper(field[1]) - 65))
    else None
  }

  /** ParseFamily: the family and number of an extension taken by itself. */
  function ParseFamily(ext: seq<byte>): Option<(Family, nat)> {
    match SplitExt(ext)
    case None => None
    case Some((family, field)) =>
      if !family.Valid() then None
      else match FieldNumber(field, 0)
        case None => None
        case Some(n) => Some((family, n))
  }

  // ----- naming is a bijection up to case

  /** Equal but for the case of ASCII letters. */
  ghost predicate SameUpToCase(a: seq<byte>, b: seq<byte>) {
    |a| == |b| && forall i :: 0 <= i < |a| ==> Upper(a[i]) == Upper(b[i])
  }

  /** The highest number the family can name: everything up to the leading letter Z. */
  function Highest(f: Family): int {
    MAX_NUMERIC + 676 * (90 - Upper(f.base) + 1)
  }

  /** The letters of the three families: E, L and S, in either case. */
  predicate FamilyLetter(c: byte) {
    c == 69 || c == 76 || c == 83 || c == 101 || c == 108 || c == 115
  }

  /** A family of one of these letters names exactly the numbers of its range; no other names any. */
  lemma ExtSucceedsIff(f: Family, n: u32)
    ensures f.Ext(n).Some? <==> FamilyLetter(f.base) && 1 <= n <= Highest(f)
  {
    if n > MAX_NUMERIC {
      var offset := n - LETTER_BASE;
      assert offset == 676 * (offset / 676) + offset % 676;
    }
  }

  /** A generated name denotes the number it was generated for. */
  lemma NumberInvertsExt(f: Family, n: u32)
    requires f.Ext(n).Some?
    ensures f.Number(f.Ext(n).value) == Some(n)
  {
    var ext := f.Ext(n).value;
    var field := ext[if f.v2 then 3 else 2..];
    if n <= MAX_NUMERIC {
      assert field == [48 + n / 10, 48 + n % 10];
    } else {
      var rest := (n - LETTER_BASE) % 676;
      var alpha := if IsUpper(f.base) then 65 else 97;
      assert field == [alpha + rest / 26, alpha + rest % 26];
      assert Upper(ext[1]) == Upper(f.base) + (n - LETTER_BASE) / 676;
    }
  }

  lemma PairDigits(carry: nat, hi: nat, lo: nat)
    requires hi < 26 && lo < 26
    ensures var offset := 676 * carry + (26 * hi + lo);
            offset / 676 == carry && offset % 676 / 26 == hi && offset % 676 % 26 == lo
  {
    var rest := 26 * hi + lo;
    assert (676 * carry + rest) / 676 == carry && (676 * carry + rest) % 676 == rest;
    assert rest / 26 == hi && rest % 26 == lo;
  }

  /** What a denoted number says about the extension: digits at the base letter, or carry and letter pair. */
  lemma NumberParts(f: Family, ext: seq<byte>) returns (at: nat)
    requires f.Number(ext).Some?
    ensures at == (if f.v2 then 3 else 2) && |ext| == at + 2 && ext[0] == DOT && IsLetter(ext[1])
    ensures f.v2 ==> Upper(ext[2]) == Upper(V2_MARKER)
    ensures var n, carry := f.Number(ext).value, Upper(ext[1]) - Upper(f.base);
            0 <= carry &&
            if n <= MAX_NUMERIC then
              && carry == 0 && IsDigit(ext[at]) && IsDigit(ext[at + 1])
              && n == (ext[at] - 48) * 10 + (ext[at + 1] - 48) > 0
            else
              IsLetter(ext[at]) && IsLetter(ext[at + 1]) &&
              n - LETTER_BASE == 676 * carry + (26 * (Upper(ext[at]) - 65) + (Upper(ext[at + 1]) - 65))
  {
    at := if f.v2 then 3 else 2;
    assert ext[at..][0] == ext[at] && ext[at..][1] == ext[at + 1];
  }

  /** A denoted number lies in the family's range, and its generated name is the given one but for case. */
  lemma ExtInvertsNumber(f: Family, ext: seq<byte>)
    requires f.Number(ext).Some?
    ensures 1 <= f.Number(ext).value <= Highest(f) < TWO_32
    ensures f.Ext(f.Number(ext).value).Some? && SameUpToCase(f.Ext(f.Number(ext).value).value, ext)
  {
    var n := f.Number(ext).value;
    var at := NumberParts(f, ext);
    if n <= MAX_NUMERIC {
      assert n / 10 == ext[at] - 48 && n % 10 == ext[at + 1] - 48;
      NameMatches(f, ext, n, f.base, ext[at], ext[at + 1]);
    } else {
      LetterNameMatches(f, ext, n, at);
    }
  }

  lemma LetterNameMatches(f: Family, ext: seq<byte>, n: nat, at: nat)
    requires f.Valid() && n > MAX_NUMERIC && |ext| == at + 2 && at == (if f.v2 then 3 else 2)
    requires ext[0] == DOT && IsLetter(ext[1]) && IsLetter(ext[at]) && IsLetter(ext[at + 1])
    requires f.v2 ==> Upper(ext[2]) == Upper(V2_MARKER)
    requires var carry := Upper(ext[1]) - Upper(f.base);
             0 <= carry && n - LETTER_BASE == 676 * carry + (26 * (Upper(ext[at]) - 65) + (Upper(ext[at + 1]) - 65))
    ensures n <= Highest(f) < TWO_32 && f.Ext(n).Some? && SameUpToCase(f.Ext(n).value, ext)
  {
    var carry, hi, lo := Upper(ext[1]) - Upper(f.base), Upper(ext[at]) - 65, Upper(ext[at + 1]) - 65;
    PairDigits(carry, hi, lo);
    assert carry <= 90 - Upper(f.base);
    var alpha := if IsUpper(f.base) then 65 else 97;
    NameMatches(f, ext, n, f.base + carry, alpha + hi, alpha + lo);
  }

  lemma NameMatches(f: Family, ext: seq<byte>, n: u32, lead: byte, c: byte, d: byte)
    requires var marker := if f.v2 then [V2_MARKER] else [];
             f.Ext(n) == Some([DOT, lead] + marker + [c, d]) && |ext| == 4 + |marker|
    requires var at := if f.v2 then 3 else 2;
             && Upper(ext[0]) == Upper(DOT) && Upper(ext[1]) == Upper(lead)
             && Upper(ext[at]) == Upper(c) && Upper(ext[at + 1]) == Upper(d)
             && (f.v2 ==> Upper(ext[2]) == Upper(V2_MARKER))
    ensures SameUpToCase(f.Ext(n).value, ext)
  {
  }

  lemma SameCharacterKind(c: byte, d: byte)
    requires Upper(c) == Upper(d)
    ensures Lower(c) == Lower(d) && (IsLetter(c) <==> IsLetter(d))
    ensures IsDigit(c) || IsDigit(d) || c == DOT || d == DOT ==> c == d
  {
  }

  lemma SplitIgnoresCase(a: seq<byte>, b: seq<byte>)
    requires SameUpToCase(a, b) && SplitExt(a).Some?
    ensures SplitExt(b).Some?
    ensures var (fa, da) := SplitExt(a).value; var (fb, db) := SplitExt(b).value;
            fa.v2 == fb.v2 && Upper(fa.base) == Upper(fb.base) && SameUpToCase(da, db)
  {
    SameCharacterKind(a[0], b[0]);
    SameCharacterKind(a[1], b[1]);
    SameCharacterKind(a[2], b[2]);
    var at := |a| - 2;
    assert forall i :: 0 <= i < 2 ==> a[at..][i] == a[at + i] && b[at..][i] == b[at + i];
  }

  /** Case never matters to the number. */
  lemma NumberIgnoresCase(f: Family, a: seq<byte>, b: seq<byte>)
    requires SameUpToCase(a, b) && f.Number(a).Some?
    ensures f.Number(b) == f.Number(a)
  {
    SplitIgnoresCase(a, b);
    var (fa, da) := SplitExt(a).value;
    var (fb, db) := SplitExt(b).value;
    SameCharacterKind(da[0], db[0]);
    SameCharacterKind(da[1], db[1]);
  }

  /** Two extensions of a family share a number if and only if they differ only in case. */
  lemma SameNumberIffSameUpToCase(f: Family, a: seq<byte>, b: seq<byte>)
    requires f.Number(a).Some? && f.Number(b).Some?
    ensures f.Number(a) == f.Number(b) <==> SameUpToCase(a, b)
  {
    if f.Number(a) == f.Number(b) {
      ExtInvertsNumber(f, a);
      ExtInvertsNumber(f, b);
      var name := f.Ext(f.Number(a).value).value;
      assert forall i :: 0 <= i < |a| ==> Upper(a[i]) == Upper(name[i]) == Upper(b[i]);
    }
    if SameUpToCase(a, b) {
      NumberIgnoresCase(f, a, b);
    }
  }

  /** So an extension denotes exactly the number whose generated name it is, but for case. */
  lemma NumberIff(f: Family, ext: seq<byte>, n: u32)
    ensures f.Number(ext) == Some(n) <==> f.Ext(n).Some? && SameUpToCase(ext, f.Ext(n).value)
  {
    if f.Number(ext) == Some(n) {
      ExtInvertsNumber(f, ext);
    }
    if f.Ext(n).Some? && SameUpToCase(ext, f.Ext(n).value) {
      NumberInvertsExt(f, n);
      NumberIgnoresCase(f, f.Ext(n).value, ext);
    }
  }

  /**
   * By itself an extension names a segment exactly if its leading letter is that of a family, taken in the case it is
   * written in, and it is the name of one of the 775 segments up to the first carry.
   */
  lemma ParseFamilyIff(ext: seq<byte>, f: Family, n: u32)
    ensures ParseFamily(ext) == Some((f, n)) <==>
            && |ext| == (if f.v2 then 5 else 4) && ext[1] == f.base && FamilyLetter(f.base)
            && n <= 775 && f.Ext(n).Some? && SameUpToCase(ext, f.Ext(n).value)
  {
    NumberIff(f, ext, n);
    if f.Number(ext) == Some(n) && SplitExt(ext).value.0 == f {
      var _ := NumberParts(f, ext);
    }
  }

  /** A generated name is written in the case of the family throughout, but for the marker of the v2 spelling. */
  lemma ExtKeepsCase(f: Family, n: u32)
    requires f.Ext(n).Some?
    ensures var e := f.Ext(n).value;
            && (n <= MAX_NUMERIC ==> e[1] == f.base) && (f.v2 ==> e[2] == 120)
            && forall i :: 0 <= i < |e| && IsLetter(e[i]) && !(f.v2 && i == 2) ==> (IsUpper(e[i]) <==> IsUpper(f.base))
  {
  }

  // ----- naming is faithful to order

  /** a comes before b when letters are compared in upper case. */
  ghost predicate Precedes(a: seq<byte>, b: seq<byte>) {
    |a| == |b| && exists k :: PrecedesAt(a, b, k)
  }

  ghost predicate PrecedesAt(a: seq<byte>, b: seq<byte>, k: int) {
    0 <= k < |a| && k < |b| && Upper(a[k]) < Upper(b[k]) && forall i :: 0 <= i < k ==> Upper(a[i]) == Upper(b[i])
  }

  lemma PrecedesIsAsymmetric(a: seq<byte>, b: seq<byte>)
    requires Precedes(a, b)
    ensures !Precedes(b, a)
  {
    var k :| PrecedesAt(a, b, k);
  }

  /** What a generated name is made of, in upper case. */
  lemma NameParts(f: Family, n: u32) returns (at: nat)
    requires f.Ext(n).Some?
    ensures at == (if f.v2 then 3 else 2) && |f.Ext(n).value| == at + 2
    ensures var e := f.Ext(n).value;
            && e[0] == DOT && (f.v2 ==> e[2] == V2_MARKER)
            && if n <= MAX_NUMERIC then
                 Upper(e[1]) == Upper(f.base) && Upper(e[at]) == 48 + n / 10 && Upper(e[at + 1]) == 48 + n % 10
               else
                 var offset := n - LETTER_BASE;
                 Upper(e[1]) == Upper(f.base) + offset / 676 &&
                 Upper(e[at]) == 65 + offset % 676 / 26 && Upper(e[at + 1]) == 65 + offset % 676 % 26
  {
    at := if f.v2 then 3 else 2;
  }

  /** A pair of letters and its carry, compared as one number. */
  lemma PairsOrdered(p: nat, q: nat)
    requires p < q
    ensures p / 676 < q / 676 ||
            (p / 676 == q / 676 && (p % 676 / 26 < q % 676 / 26 ||
                                    (p % 676 / 26 == q % 676 / 26 && p % 676 % 26 < q % 676 % 26)))
  {
    if p / 676 == q / 676 {
      assert p % 676 < q % 676;
    }
  }

  lemma PartsPrecede(a: seq<byte>, b: seq<byte>, at: nat)
    requires 2 <= at <= 3 && |a| == |b| == at + 2 && a[0] == b[0] && (at == 3 ==> a[2] == b[2])
    requires Upper(a[1]) < Upper(b[1]) ||
             (Upper(a[1]) == Upper(b[1]) && (Upper(a[at]) < Upper(b[at]) ||
                                             (Upper(a[at]) == Upper(b[at]) && Upper(a[at + 1]) < Upper(b[at + 1]))))
    ensures Precedes(a, b)
  {
    var k := if Upper(a[1]) < Upper(b[1]) then 1 else if Upper(a[at]) < Upper(b[at]) then at else at + 1;
    assert PrecedesAt(a, b, k);
  }

  lemma SmallerNumberPrecedes(f: Family, n: u32, m: u32)
    requires f.Ext(n).Some? && f.Ext(m).Some? && n < m
    ensures Precedes(f.Ext(n).value, f.Ext(m).value)
  {
    var at := NameParts(f, n);
    var _ := NameParts(f, m);
    if n > MAX_NUMERIC {
      PairsOrdered(n - LETTER_BASE, m - LETTER_BASE);
    }
    PartsPrecede(f.Ext(n).value, f.Ext(m).value, at);
  }

  /** Within a family, segment order is the case-blind order of the names. */
  lemma OrderFaithful(f: Family, n: u32, m: u32)
    requires f.Ext(n).Some? && f.Ext(m).Some?
    ensures n < m <==> Precedes(f.Ext(n).value, f.Ext(m).value)
  {
    if n < m {
      SmallerNumberPrecedes(f, n, m);
    } else if m < n {
      SmallerNumberPrecedes(f, m, n);
      PrecedesIsAsymmetric(f.Ext(m).value, f.Ext(n).value);
    }
  }
}
