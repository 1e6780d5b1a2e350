/** Recency lists: what the chunk cache holds, as a function of the accesses made so far. */
module Lru {
  import opened Bytes
  import opened Devices

  datatype Entry = Entry(chunk: int, data: seq<byte>)

  // ----- list surgery, shared by the abstract list and the class

  ghost predicate FirstAt<T>(s: seq<T>, x: T, i: nat) {
    i < |s| && s[i] == x && forall j :: 0 <= j < i ==> s[j] != x
  }

  /** First position of x in s, or |s|. */
  ghost function IndexOf<T>(s: seq<T>, x: T): (i: nat)
    ensures if x in s then FirstAt(s, x, i) else i == |s|
  {
    if x in s then
      FirstExists(s, x);
      var i: nat :| FirstAt(s, x, i);
      i
    else |s|
  }

  lemma {:induction false} FirstExists<T>(s: seq<T>, x: T)
    requires x in s
    ensures exists i: nat :: FirstAt(s, x, i)
  {
    if s[0] == x {
      assert FirstAt(s, x, 0);
    } else {
      assert s == [s[0]] + s[1..];
      FirstExists(s[1..], x);
      var i: nat :| FirstAt(s[1..], x, i);
      assert forall j :: 1 <= j < |s| ==> s[j] == s[1..][j - 1];
      assert FirstAt(s, x, i + 1);
    }
  }

  /** s with its i-th element moved to the front and everything before it shifted back by one. */
  function ToFront<T>(s: seq<T>, i: nat): (r: seq<T>)
    requires i < |s|
    ensures |r| == |s|
  {
    seq(|s|, j requires 0 <= j < |s| => if j == 0 then s[i] else if j <= i then s[j - 1] else s[j])
  }

  ghost function Take<T>(s: seq<T>, n: nat): seq<T> {
    if n <= |s| then s[..n] else s
  }

  ghost function Keys(s: seq<Entry>): (ks: seq<int>)
    ensures |ks| == |s|
  {
    seq(|s|, i requires 0 <= i < |s| => s[i].chunk)
  }

  ghost predicate Distinct<T>(s: seq<T>) {
    forall i, j :: 0 <= i < j < |s| ==> s[i] != s[j]
  }

  // ----- the abstract cache, most recently used first

  ghost function Lookup(s: seq<Entry>, k: int): Option<seq<byte>> {
    var i := IndexOf(Keys(s), k);
    if i < |s| then Some(s[i].data) else None
  }

  /** A hit moves the entry to the front; a miss changes nothing. */
  ghost function Touched(s: seq<Entry>, k: int): seq<Entry> {
    var i := IndexOf(Keys(s), k);
    if i < |s| then ToFront(s, i) else s
  }

  /** Storing refreshes an existing entry, or pushes a new one and drops the oldest beyond max. */
  ghost function Stored(s: seq<Entry>, max: nat, k: int, data: seq<byte>): seq<Entry> {
    var i := IndexOf(Keys(s), k);
    if i < |s| then ToFront(s, i)[0 := Entry(k, data)] else Take([Entry(k, data)] + s, max)
  }

  /** Cached bytes are what decoding yields, keys do not repeat, and the depth bound holds. */
  ghost predicate Sound(d: Device, max: nat, s: seq<Entry>) {
    && |s| <= max
    && Distinct(Keys(s))
    && forall i :: 0 <= i < |s| ==> Genuine(d, s[i])
  }

  ghost predicate Genuine(d: Device, e: Entry) {
    0 <= e.chunk < |d.chunks| && d.chunks[e.chunk] == Ok(e.data)
  }

  lemma SoundLookup(d: Device, max: nat, s: seq<Entry>, k: int)
    requires Sound(d, max, s)
    ensures Lookup(s, k).Some? ==> 0 <= k < |d.chunks| && d.chunks[k] == Ok(Lookup(s, k).value)
  {
    var i := IndexOf(Keys(s), k);
    if i < |s| {
      assert Genuine(d, s[i]) && Keys(s)[i] == k;
    }
  }

  lemma SoundTouched(d: Device, max: nat, s: seq<Entry>, k: int)
    requires Sound(d, max, s)
    ensures Sound(d, max, Touched(s, k))
    ensures Keys(Touched(s, k)) == if k in Keys(s) then Used(Keys(s), k) else Keys(s)
  {
    var i := IndexOf(Keys(s), k);
    if i < |s| {
      assert Keys(ToFront(s, i)) == Used(Keys(s), k);
      UsedDistinct(Keys(s), k);
    }
  }

  lemma SoundStored(d: Device, max: nat, s: seq<Entry>, k: int, data: seq<byte>)
    requires Sound(d, max, s) && Genuine(d, Entry(k, data))
    ensures Sound(d, max, Stored(s, max, k, data))
    ensures Keys(Stored(s, max, k, data)) == Take(Used(Keys(s), k), max)
  {
    assert Keys(Stored(s, max, k, data)) == Take(Used(Keys(s), k), max);
    UsedDistinct(Keys(s), k);
  }

  // ----- recency of keys

  /** The key list after k is used: k first, the others in their old order. */
  ghost function Used(keys: seq<int>, k: int): seq<int> {
    var i := IndexOf(keys, k);
    if i < |keys| then ToFront(keys, i) else [k] + keys
  }

  lemma UsedDistinct(keys: seq<int>, k: int)
    requires Distinct(keys)
    ensures Distinct(Used(keys, k))
    ensures forall x :: x in Used(keys, k) <==> x == k || x in keys
  {
    var i, after := IndexOf(keys, k), Used(keys, k);
    forall x | x in keys
      ensures x in after
    {
      var p := IndexOf(keys, x);
      assert after[if p == i then 0 else if p < i then p + 1 else p] == x;
    }
    assert after[0] == k;
  }

  /** Dropping what lies beyond depth m before a use loses nothing that the use would have kept. */
  lemma TakeUsed(keys: seq<int>, k: int, m: nat)
    ensures Take(Used(Take(keys, m), k), m) == Take(Used(keys, k), m)
  {
    if 0 < m < |keys| {
      IndexInTop(keys, k, m);
      var i := IndexOf(keys, k);
      if i < |keys| {
        TakeToFront(keys, i, m);
      } else {
        assert ([k] + keys)[..m] == ([k] + keys[..m])[..m];
      }
    }
  }

  lemma TakeToFront(keys: seq<int>, i: nat, m: nat)
    requires i < |keys| && 0 < m < |keys|
    ensures ToFront(keys, i)[..m] == if i < m then ToFront(keys[..m], i) else ([keys[i]] + keys[..m])[..m]
  {
  }

  lemma IndexInTop(keys: seq<int>, k: int, m: nat)
    requires m < |keys|
    ensures IndexOf(keys[..m], k) == if IndexOf(keys, k) < m then IndexOf(keys, k) else m
  {
    var i := IndexOf(keys, k);
    if i < m {
      assert keys[..m][i] == k;
    }
  }

  /** Every distinct key of a history, most recently used first: an LRU stack of unbounded depth. */
  ghost function Recency(history: seq<int>): seq<int> {
    if history == [] then []
    else Used(Recency(history[..|history| - 1]), history[|history| - 1])
  }

  /** The index of the last use of k, or -1. */
  ghost function LastUse(history: seq<int>, k: int): int {
    if history == [] then -1
    else if history[|history| - 1] == k then |history| - 1
    else LastUse(history[..|history| - 1], k)
  }

  ghost predicate ByLastUse(history: seq<int>, keys: seq<int>) {
    forall i, j :: 0 <= i < j < |keys| ==> LastUse(history, keys[i]) > LastUse(history, keys[j])
  }

  lemma {:induction false} LastUseBounds(history: seq<int>, k: int)
    ensures -1 <= LastUse(history, k) < |history|
    ensures k in history <==> LastUse(history, k) >= 0
    ensures k in history ==> history[LastUse(history, k)] == k
  {
    if history != [] {
      var before := history[..|history| - 1];
      LastUseBounds(before, k);
      assert history == before + [history[|history| - 1]];
    }
  }

  /** The recency list is exactly the used keys, each once, ordered by their last use. */
  lemma {:induction false} RecencyOrdersByLastUse(history: seq<int>)
    ensures Distinct(Recency(history))
    ensures forall k :: k in Recency(history) <==> k in history
    ensures ByLastUse(history, Recency(history))
  {
    if history != [] {
      var before, last := history[..|history| - 1], history[|history| - 1];
      RecencyOrdersByLastUse(before);
      UsedDistinct(Recency(before), last);
      assert history == before + [last];
      var keys := Recency(history);
      forall i, j | 0 <= i < j < |keys|
        ensures LastUse(history, keys[i]) > LastUse(history, keys[j])
      {
        UsedKeepsOrder(Recency(before), last, i, j);
        LastUseBounds(before, keys[j]);
      }
    }
  }

  /** After k is used, k is in front and any other pair of keys keeps its order. */
  lemma UsedKeepsOrder(keys: seq<int>, k: int, i: nat, j: nat)
    requires Distinct(keys) && i < j < |Used(keys, k)|
    ensures var after := Used(keys, k);
            && after[0] == k && after[j] != k
            && (i > 0 ==> exists a, b :: 0 <= a < b < |keys| && keys[a] == after[i] && keys[b] == after[j])
  {
    UsedDistinct(keys, k);
    var at, after := IndexOf(keys, k), Used(keys, k);
    assert after[0] == k;
    if i > 0 {
      var a := if i <= at then i - 1 else i;
      var b := if j <= at then j - 1 else j;
      assert keys[a] == after[i] && keys[b] == after[j];
    }
  }

  // ----- sequential runs of chunkData

  /** One chunkData call against a cache of depth max; depth 0 is the disabled cache. */
  ghost function Access(d: Device, max: nat, s: seq<Entry>, k: nat): (seq<Entry>, Decoded)
    requires k < |d.chunks|
  {
    match Lookup(s, k)
    case Some(data) => (Touched(s, k), Ok(data))
    case None =>
      match d.chunks[k]
      case Err(e) => (s, Err(e))
      case Ok(data) => (Stored(s, max, k, data), Ok(data))
  }

  /** Whatever a sound cache holds, chunkData returns what decoding returns, and the cache stays sound. */
  lemma AccessIsDecode(d: Device, max: nat, s: seq<Entry>, k: nat)
    requires Sound(d, max, s) && k < |d.chunks|
    ensures Access(d, max, s, k).1 == d.chunks[k]
    ensures Sound(d, max, Access(d, max, s, k).0)
    ensures Keys(Access(d, max, s, k).0) == if d.chunks[k].Ok? then Take(Used(Keys(s), k), max) else Keys(s)
  {
    SoundLookup(d, max, s, k);
    SoundTouched(d, max, s, k);
    if d.chunks[k].Ok? {
      SoundStored(d, max, s, k, d.chunks[k].value);
    }
  }

  ghost predicate InTable(d: Device, accesses: seq<int>) {
    forall i :: 0 <= i < |accesses| ==> 0 <= accesses[i] < |d.chunks|
  }

  /** The cache after a run of chunkData calls on an empty cache. */
  ghost function Run(d: Device, max: nat, accesses: seq<int>): seq<Entry>
    requires forall i :: 0 <= i < |accesses| ==> 0 <= accesses[i] < |d.chunks|
  {
    if accesses == [] then []
    else Access(d, max, Run(d, max, accesses[..|accesses| - 1]), accesses[|accesses| - 1]).0
  }

  /** The accesses whose chunk decodes, in order. */
  ghost function Successes(d: Device, accesses: seq<int>): seq<int>
    requires forall i :: 0 <= i < |accesses| ==> 0 <= accesses[i] < |d.chunks|
  {
    if accesses == [] then []
    else
      var before, k := Successes(d, accesses[..|accesses| - 1]), accesses[|accesses| - 1];
      if d.chunks[k].Ok? then before + [k] else before
  }

  /** After any run the cache is sound and holds the first max keys of the recency list. */
  lemma {:induction false} RunIsRecency(d: Device, max: nat, accesses: seq<int>)
    requires InTable(d, accesses)
    ensures Sound(d, max, Run(d, max, accesses))
    ensures Keys(Run(d, max, accesses)) == Take(Recency(Successes(d, accesses)), max)
  {
    if accesses != [] {
      var before, k := accesses[..|accesses| - 1], accesses[|accesses| - 1];
      RunIsRecency(d, max, before);
      AccessIsDecode(d, max, Run(d, max, before), k);
      if d.chunks[k].Ok? {
        var uses := Successes(d, before);
        TakeUsed(Recency(uses), k, max);
        assert (uses + [k])[..|uses|] == uses;
      }
    }
  }

  /**
   * The cache holds exactly the max most recently used distinct chunks that decoded: it is ordered by last use,
   * everything it holds was used more recently than everything it does not, and it is full before it leaves
   * anything out.
   */
  lemma {:induction false} CacheHoldsMostRecent(d: Device, max: nat, accesses: seq<int>)
    requires InTable(d, accesses)
    ensures var uses, held := Successes(d, accesses), Keys(Run(d, max, accesses));
            && Distinct(held) && ByLastUse(uses, held)
            && (forall k :: k in held ==> k in uses)
            && (forall k :: k in uses && k !in held ==>
                  |held| == max && forall h :: h in held ==> LastUse(uses, h) > LastUse(uses, k))
  {
    var uses := Successes(d, accesses);
    var all := Recency(uses);
    RunIsRecency(d, max, accesses);
    RecencyOrdersByLastUse(uses);
    var held := Take(all, max);
    forall k | k in uses && k !in held
      ensures |held| == max && forall h :: h in held ==> LastUse(uses, h) > LastUse(uses, k)
    {
      assert k in all;
      var j := IndexOf(all, k);
      assert max <= j;
      assert forall i :: 0 <= i < |held| ==> held[i] == all[i];
    }
  }

  /** On the same run a deeper cache extends a shallower one: same entries, same order, more of them. */
  lemma {:induction false} DeeperCacheIncludes(d: Device, shallow: nat, deep: nat, accesses: seq<int>)
    requires InTable(d, accesses) && shallow <= deep
    ensures Run(d, shallow, accesses) == Take(Run(d, deep, accesses), shallow)
  {
    RunIsRecency(d, shallow, accesses);
    RunIsRecency(d, deep, accesses);
    var held := Run(d, deep, accesses);
    assert Keys(Take(held, shallow)) == Take(Keys(held), shallow);
    SoundTake(d, deep, held, shallow);
    KeysDetermine(d, shallow, Run(d, shallow, accesses), Take(held, shallow));
  }

  lemma SoundTake(d: Device, max: nat, s: seq<Entry>, n: nat)
    requires Sound(d, max, s)
    ensures Sound(d, n, Take(s, n))
  {
    assert Keys(Take(s, n)) == Take(Keys(s), n);
  }

  lemma KeysDetermine(d: Device, max: nat, a: seq<Entry>, b: seq<Entry>)
    requires Sound(d, max, a) && Sound(d, max, b) && Keys(a) == Keys(b)
    ensures a == b
  {
    forall i | 0 <= i < |a|
      ensures a[i] == b[i]
    {
      assert Keys(a)[i] == Keys(b)[i];
      assert Genuine(d, a[i]) && Genuine(d, b[i]);
    }
  }
}
