/** Sorting by a key, where elements with equal keys may end up in any order. */
module Sorting {

  ghost predicate Sorted<T(!new)>(key: T -> int, s: seq<T>) {
    forall i, j :: 0 <= i < j < |s| ==> key(s[i]) <= key(s[j])
  }

  ghost predicate StrictlySorted<T(!new)>(key: T -> int, s: seq<T>) {
    forall i, j :: 0 <= i < j < |s| ==> key(s[i]) < key(s[j])
  }

  /** sorted is some result of sorting s by key. */
  ghost predicate SortOf<T(!new)>(key: T -> int, s: seq<T>, sorted: seq<T>) {
    multiset(sorted) == multiset(s) && Sorted(key, sorted)
  }

  function Without<T>(s: seq<T>, at: nat): (rest: seq<T>)
    requires at < |s|
    ensures |rest| == |s| - 1
  {
    s[..at] + s[at + 1..]
  }

  lemma RemovedAt<T>(s: seq<T>, at: nat)
    requires at < |s|
    ensures multiset(s) == multiset{s[at]} + multiset(Without(s, at))
    ensures forall x :: x in Without(s, at) ==> x in s
  {
    assert s == s[..at] + [s[at]] + s[at + 1..];
  }

  /** Any element with the least key, wherever it stands. */
  method PickLeast<T(!new)>(key: T -> int, s: seq<T>) returns (at: nat)
    requires s != []
    ensures at < |s| && forall i :: 0 <= i < |s| ==> key(s[at]) <= key(s[i])
  {
    at := 0;
    for i := 1 to |s|
      invariant at < |s| && forall k :: 0 <= k < i ==> key(s[at]) <= key(s[k])
    {
      var tie: bool := *;
      if key(s[i]) < key(s[at]) || (tie && key(s[i]) == key(s[at])) {
        at := i;
      }
    }
  }

  /** A sort that is not stable. */
  method Sort<T(!new)>(key: T -> int, s: seq<T>) returns (sorted: seq<T>)
    ensures SortOf(key, s, sorted)
  {
    sorted := [];
    var rest := s;
    while |rest| > 0
      invariant multiset(sorted) + multiset(rest) == multiset(s)
      invariant Sorted(key, sorted)
      invariant forall i, r :: 0 <= i < |sorted| && r in rest ==> key(sorted[i]) <= key(r)
      decreases |rest|
    {
      var at := PickLeast(key, rest);
      RemovedAt(rest, at);
      assert forall r :: r in rest ==> key(rest[at]) <= key(r);
      sorted := sorted + [rest[at]];
      rest := Without(rest, at);
    }
  }

  lemma LeastComesFirst<T(!new)>(key: T -> int, a: seq<T>, b: seq<T>)
    requires multiset(a) == multiset(b) && StrictlySorted(key, a) && Sorted(key, b) && a != []
    ensures b != [] && a[0] == b[0]
  {
    assert |b| == |multiset(b)| == |multiset(a)| == |a|;
    assert b[0] in multiset(a) && a[0] in multiset(b);
    var i :| 0 <= i < |a| && a[i] == b[0];
    var j :| 0 <= j < |b| && b[j] == a[0];
    assert key(b[0]) <= key(b[j]);
  }

  lemma TailMultiset<T>(s: seq<T>)
    requires s != []
    ensures multiset(s[1..]) == multiset(s) - multiset{s[0]} && s == [s[0]] + s[1..]
  {
    assert s == [s[0]] + s[1..];
  }

  /** With distinct keys there is only one sorted order. */
  lemma {:induction false} SortIsUnique<T(!new)>(key: T -> int, a: seq<T>, b: seq<T>)
    requires multiset(a) == multiset(b) && StrictlySorted(key, a) && Sorted(key, b)
    ensures a == b
    decreases |a|
  {
    assert |b| == |multiset(b)| == |multiset(a)| == |a|;
    if a != [] {
      LeastComesFirst(key, a, b);
      TailMultiset(a);
      TailMultiset(b);
      SortIsUnique(key, a[1..], b[1..]);
    }
  }

  lemma SameElements<T>(a: seq<T>, b: seq<T>)
    requires multiset(a) == multiset(b)
    ensures forall x :: x in a <==> x in b
  {
    forall x
      ensures x in a <==> x in b
    {
      assert x in a <==> x in multiset(a);
      assert x in b <==> x in multiset(b);
    }
  }

  /** A strictly sorted sequence is determined by its elements. */
  lemma {:induction false} ElementsDetermine<T(!new)>(key: T -> int, a: seq<T>, b: seq<T>)
    requires StrictlySorted(key, a) && StrictlySorted(key, b) && forall x :: x in a <==> x in b
    ensures a == b
    decreases |a|
  {
    assert (a != [] ==> a[0] in b) && (b != [] ==> b[0] in a);
    if a != [] {
      var i :| 0 <= i < |a| && a[i] == b[0];
      var j :| 0 <= j < |b| && b[j] == a[0];
      assert key(a[0]) <= key(a[i]) && key(b[0]) <= key(b[j]);
      assert a[0] == b[0];
      TailElements(key, a);
      TailElements(key, b);
      ElementsDetermine(key, a[1..], b[1..]);
      assert a == [a[0]] + a[1..] && b == [b[0]] + b[1..];
    }
  }

  lemma TailElements<T(!new)>(key: T -> int, a: seq<T>)
    requires StrictlySorted(key, a) && a != []
    ensures StrictlySorted(key, a[1..]) && forall x :: x in a[1..] <==> x in a && x != a[0]
  {
    assert a == [a[0]] + a[1..];
    forall x | x in a[1..]
      ensures x != a[0]
    {
      var i :| 0 <= i < |a[1..]| && a[1..][i] == x;
      assert key(a[0]) < key(a[i + 1]);
    }
  }

  lemma TwiceInMultiset<T>(s: seq<T>, i: nat, j: nat)
    requires i < j < |s| && s[i] == s[j]
    ensures multiset(s)[s[i]] >= 2
  {
    assert s == s[..i] + [s[i]] + s[i + 1..j] + [s[j]] + s[j + 1..];
  }

  lemma {:induction false} TwicePositions<T>(s: seq<T>, x: T)
    requires multiset(s)[x] >= 2
    ensures exists i, j :: 0 <= i < j < |s| && s[i] == x && s[j] == x
  {
    assert s == [s[0]] + s[1..];
    if s[0] == x {
      assert x in multiset(s[1..]);
      var j :| 0 <= j < |s[1..]| && s[1..][j] == x;
      assert s[j + 1] == x;
    } else {
      TwicePositions(s[1..], x);
      var i, j :| 0 <= i < j < |s[1..]| && s[1..][i] == x && s[1..][j] == x;
      assert s[i + 1] == x && s[j + 1] == x;
    }
  }
}
