/** Bytes, fixed-width integers and random-access sources, as the reader sees them. */
module Bytes {

  datatype Option<+T> = None | Some(value: T)

  datatype Result<+T, +E> = Ok(value: T) | Err(error: E)

  type byte = x: int | 0 <= x < 256
  type u16 = x: int | 0 <= x < 0x1_0000
  type u32 = x: int | 0 <= x < 0x1_0000_0000
  type u64 = x: int | 0 <= x < 0x1_0000_0000_0000_0000
  type i64 = x: int | -0x8000_0000_0000_0000 <= x < 0x8000_0000_0000_0000

  /** A file position: an int64 that is never negative once something has been read there. */
  type pos = x: int | 0 <= x <= 0x7FFF_FFFF_FFFF_FFFF

  const TWO_32: int := 0x1_0000_0000
  const TWO_64: int := 0x1_0000_0000_0000_0000
  const MAX_INT32: int := 0x7FFF_FFFF
  const MAX_UINT32: int := 0xFFFF_FFFF
  const MAX_INT64: int := 0x7FFF_FFFF_FFFF_FFFF

  /** The immutable contents of one io.ReaderAt; its length is an int64. */
  type Source = s: seq<byte> | |s| <= 0x7FFF_FFFF_FFFF_FFFF

  /** Two's-complement reduction to 64 bits: what an int64 operation leaves. */
  function WrapI64(x: int): i64 {
    var m := x % 0x1_0000_0000_0000_0000;
    if m > MAX_INT64 then m - 0x1_0000_0000_0000_0000 else m
  }

  /** The parts end to end. */
  function Flatten<T>(parts: seq<seq<T>>): seq<T> {
    if parts == [] then [] else parts[0] + Flatten(parts[1..])
  }

  lemma JoinAssociates<T>(a: seq<T>, b: seq<T>, c: seq<T>)
    ensures a + (b + c) == a + b + c
  {
  }

  function Mapped<A, B>(f: A -> B, s: seq<A>): (r: seq<B>)
    ensures |r| == |s| && forall i :: 0 <= i < |s| ==> r[i] == f(s[i])
  {
    seq(|s|, i requires 0 <= i < |s| => f(s[i]))
  }

  // ----- little-endian integers

  function U32(s: seq<byte>): u32
    requires |s| == 4
  {
    (s[0] as int) + (s[1] as int) * 0x100 + (s[2] as int) * 0x1_0000 + (s[3] as int) * 0x100_0000
  }

  function U64(s: seq<byte>): u64
    requires |s| == 8
  {
    U32(s[..4]) + U32(s[4..]) * 0x1_0000_0000
  }

  function Put32(v: u32): (s: seq<byte>)
    ensures |s| == 4
  {
    var v1 := v / 0x100;
    var v2 := v1 / 0x100;
    [v % 0x100, v1 % 0x100, v2 % 0x100, v2 / 0x100]
  }

  function Put64(v: u64): (s: seq<byte>)
    ensures |s| == 8
  {
    Put32(v % 0x1_0000_0000) + Put32(v / 0x1_0000_0000)
  }

  /** Decoding inverts encoding, so a written integer is read back unchanged. */
  lemma Put32RoundTrip(v: u32)
    ensures U32(Put32(v)) == v
  {
  }

  lemma Put64RoundTrip(v: u64)
    ensures U64(Put64(v)) == v
  {
    var lo, hi := Put32(v % 0x1_0000_0000), Put32(v / 0x1_0000_0000);
    assert Put64(v)[..4] == lo && Put64(v)[4..] == hi;
    Put32RoundTrip(v % 0x1_0000_0000);
    Put32RoundTrip(v / 0x1_0000_0000);
  }

  function Zeros(n: nat): (s: seq<byte>)
    ensures |s| == n && forall i :: 0 <= i < n ==> s[i] == 0
  {
    seq(n, _ => 0)
  }

  lemma SliceOfSlice<T>(s: seq<T>, a: nat, b: nat, c: nat, d: nat)
    requires a <= b <= |s| && c <= d <= b - a
    ensures s[a..b][c..d] == s[a + c..a + d]
  {
    var inner, outer := s[a..b][c..d], s[a + c..a + d];
    assert forall i :: 0 <= i < d - c ==> inner[i] == outer[i];
  }

  // ----- random-access reads

  const MAX_READ_SIZE: int := 0x4000_0000

  /** binaryutil.ReadSlice: all n bytes at off, or an error. */
  function ReadSlice(src: Source, off: int, n: int): (r: Option<seq<byte>>)
    ensures r.Some? ==> |r.value| == n
  {
    if n < 0 || n > MAX_READ_SIZE || off < 0 || off + n > |src| then None else Some(src[off..off + n])
  }

  /** The bytes bs lie in src from position at. */
  ghost predicate Placed(src: Source, at: int, bs: seq<byte>) {
    0 <= at && at + |bs| <= |src| && src[at..at + |bs|] == bs
  }

  lemma PlacedParts(src: Source, at: int, a: seq<byte>, b: seq<byte>)
    requires Placed(src, at, a + b)
    ensures Placed(src, at, a) && Placed(src, at + |a|, b)
  {
    var whole := src[at..at + |a + b|];
    assert src[at..at + |a|] == whole[..|a|] == a;
    assert src[at + |a|..at + |a| + |b|] == whole[|a|..] == b;
  }

  /** Any window of placed bytes is what ReadSlice returns there. */
  lemma PlacedRead(src: Source, at: int, bs: seq<byte>, from: nat, n: nat)
    requires Placed(src, at, bs) && from + n <= |bs| && n <= MAX_READ_SIZE
    ensures ReadSlice(src, at + from, n) == Some(bs[from..from + n])
  {
    var read, expected := src[at + from..at + from + n], bs[from..from + n];
    forall i | 0 <= i < |read|
      ensures read[i] == expected[i]
    {
      assert src[at..at + |bs|][from + i] == bs[from + i];
    }
    assert read == expected;
  }
}
