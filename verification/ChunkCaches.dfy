/** The bounded cache of decoded chunks: a map into a recency list, updated in place. */
module ChunkCaches {
  import opened Bytes
  import opened Lru

  const DEFAULT_CACHE_CHUNKS: int := 16
  const MAX_CACHE_BYTES: int := 64 * 1024 * 1024

  /** A cell of the recency list, shared between the list and the map. */
  class Element {
    const chunk: int
    var data: seq<byte>

    constructor (chunk: int, data: seq<byte>)
      ensures this.chunk == chunk && this.data == data
    {
      this.chunk := chunk;
      this.data := data;
    }
  }

  class ChunkCache {
    var entries: map<int, Element>
    var order: seq<Element>  // front is most recently used
    const max: nat

    /** Map and list are in bijection: every key names the one cell that carries it. */
    ghost predicate Linked()
      reads this
    {
      && Distinct(order)
      && (forall i :: 0 <= i < |order| ==> order[i].chunk in entries && entries[order[i].chunk] == order[i])
      && (forall k :: k in entries ==> entries[k] in order && entries[k].chunk == k)
    }

    ghost predicate Valid()
      reads this
    {
      1 <= max && |order| <= max && Linked()
    }

    ghost function Recent(): (s: seq<Entry>)
      reads this, order
      ensures |s| == |order|
    {
      seq(|order|, i requires 0 <= i < |order| reads this, order => Entry(order[i].chunk, order[i].data))
    }

    constructor (max: nat)
      requires 1 <= max
      ensures Valid() && this.max == max && Recent() == []
    {
      entries := map[];
      order := [];
      this.max := max;
    }

    /** The list position of chunk k is the position of the cell the map names for it. */
    lemma CellPosition(k: int)
      requires Linked()
      ensures k in entries <==> k in Keys(Recent())
      ensures k in entries ==> IndexOf(order, entries[k]) == IndexOf(Keys(Recent()), k) < |order|
    {
      var keys := Keys(Recent());
      assert forall i :: 0 <= i < |order| ==> keys[i] == order[i].chunk;
      if k in entries {
        var i := IndexOf(order, entries[k]);
        assert order[i] == entries[k];
        assert keys[i] == k;
        assert forall j :: 0 <= j < |order| && keys[j] == k ==> order[j] == entries[k];
      }
    }

    /** The list operation MoveToFront: the cell named goes first, the others keep their order. */
    method MoveToFront(element: Element)
      requires Linked() && element in order
      modifies this`order
      ensures Linked()
      ensures order == ToFront(old(order), old(IndexOf(order, element)))
      ensures forall e :: e in order <==> e in old(order)
    {
      var i :| 0 <= i < |order| && order[i] == element;
      assert i == IndexOf(order, element);
      var before := order;
      order := ToFront(order, i);
      ToFrontPermutes(before, i);
    }

    /** get: the cached bytes of a chunk, marking it most recently used. */
    method Get(k: int) returns (r: Option<seq<byte>>)
      requires Valid()
      modifies this`order
      ensures Valid()
      ensures r == Lookup(old(Recent()), k)
      ensures Recent() == Touched(old(Recent()), k)
      ensures forall e :: e in order <==> e in old(order)
    {
      CellPosition(k);
      if k !in entries {
        return None;
      }
      var element := entries[k];
      MoveToFront(element);
      r := Some(element.data);
      assert Recent() == Touched(old(Recent()), k);
    }

    /** Overwrite the bytes of a chunk already held and mark it most recently used. */
    method Refresh(k: int, data: seq<byte>)
      requires Linked() && k in entries
      modifies this`order, entries[k]
      ensures Linked() && |order| == |old(order)|
      ensures var i := old(IndexOf(Keys(Recent()), k));
              i < |old(Recent())| && Recent() == ToFront(old(Recent()), i)[0 := Entry(k, data)]
      ensures forall e :: e in order <==> e in old(order)
    {
      CellPosition(k);
      var element := entries[k];
      element.data := data;
      MoveToFront(element);
    }

    /** Link a new cell in front, without regard to the depth. */
    method PushFront(k: int, data: seq<byte>)
      requires Linked() && k !in entries
      modifies this
      ensures Linked()
      ensures Recent() == [Entry(k, data)] + old(Recent())
      ensures forall e :: e in order ==> e in old(order) || fresh(e)
    {
      var element := new Element(k, data);
      var before := order;
      entries, order := entries[k := element], [element] + order;
      assert forall i :: 0 < i < |order| ==> order[i] == before[i - 1];
      assert order[0] == element;
    }

    /** Unlink the cell at the back. */
    method DropOldest()
      requires Linked() && |order| > 0
      modifies this
      ensures Linked() && order == old(order)[..|old(order)| - 1]
    {
      var oldest := order[|order| - 1];
      assert forall i :: 0 <= i < |order| - 1 ==> order[i].chunk != oldest.chunk;
      order := order[..|order| - 1];
      entries := entries - {oldest.chunk};
    }

    /** Unlink cells from the back until the depth bound holds. */
    method EvictOldest()
      requires Linked()
      modifies this
      ensures Linked() && |order| <= max
      ensures Recent() == Take(old(Recent()), max)
      ensures forall e :: e in order ==> e in old(order)
    {
      while |order| > max
        invariant Linked() && |order| <= |old(order)|
        invariant order == old(order)[..|order|] && (max <= |order| || order == old(order))
      {
        DropOldest();
      }
      assert Recent() == Take(old(Recent()), max);
    }

    /** put: store a decoded chunk, evicting the least recently used ones beyond the depth. */
    method Put(k: int, data: seq<byte>)
      requires Valid()
      modifies this, order
      ensures Valid()
      ensures Recent() == Stored(old(Recent()), max, k, data)
      ensures forall e :: e in order ==> e in old(order) || fresh(e)
    {
      CellPosition(k);
      if k in entries {
        Refresh(k, data);
      } else {
        PushFront(k, data);
        EvictOldest();
      }
    }
  }

  lemma ToFrontPermutes<T>(s: seq<T>, i: nat)
    requires Distinct(s) && i < |s|
    ensures Distinct(ToFront(s, i))
    ensures forall x :: x in ToFront(s, i) <==> x in s
  {
    var after := ToFront(s, i);
    forall j | 0 <= j < |s|
      ensures s[j] in after
    {
      assert after[if j == i then 0 else if j < i then j + 1 else j] == s[j];
    }
  }

  /** newChunkCache: a disabled cache is null. */
  method NewChunkCache(max: int) returns (c: ChunkCache?)
    ensures c == null <==> max <= 0
    ensures c != null ==> fresh(c) && c.Valid() && c.max == max && c.Recent() == []
  {
    if max <= 0 {
      return null;
    }
    c := new ChunkCache(max);
  }

  /** effectiveCacheChunks: the requested depth, or 16, held to the byte ceiling but never below one chunk. */
  function EffectiveCacheChunks(requested: int, chunkSize: int): (depth: int)
    ensures depth == 0 <==> requested < 0 || chunkSize <= 0
    ensures depth >= 0
    ensures depth > 1 ==> depth * chunkSize <= 64 * 1024 * 1024
    ensures depth <= if requested == 0 then 16 else if requested < 0 then 0 else requested
    ensures 0 < depth < (if requested == 0 then 16 else requested) ==> (depth + 1) * chunkSize > 64 * 1024 * 1024
  {
    if requested < 0 || chunkSize <= 0 then 0
    else
      var asked := if requested == 0 then DEFAULT_CACHE_CHUNKS else requested;
      var fits := MAX_CACHE_BYTES / chunkSize;
      var ceiling := if fits < 1 then 1 else fits;
      if asked > ceiling then ceiling else asked
  }
}
