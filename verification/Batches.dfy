/** Chunks come in batches, one to a table, and are lost in batches: what then remains of the device. */
module Batches {
  import opened Bytes
  import opened CutDevices
  import opened Devices

  /** The chunks of one table, and whether the reader gets to see that table. */
  datatype Batch = Batch(parts: seq<Part>, seen: bool)

  function AllParts(batches: seq<Batch>): seq<Part> {
    if batches == [] then [] else batches[0].parts + AllParts(batches[1..])
  }

  function SeenParts(batches: seq<Batch>): seq<Part> {
    if batches == [] then []
    else (if batches[0].seen then batches[0].parts else []) + SeenParts(batches[1..])
  }

  ghost predicate NoneEmpty(batches: seq<Batch>) {
    forall i :: 0 <= i < |batches| ==> batches[i].parts != []
  }

  ghost predicate AllSeen(batches: seq<Batch>) {
    forall i :: 0 <= i < |batches| ==> batches[i].seen
  }

  lemma {:induction false} PartsAppend(a: seq<Batch>, b: seq<Batch>)
    ensures AllParts(a + b) == AllParts(a) + AllParts(b) && SeenParts(a + b) == SeenParts(a) + SeenParts(b)
    decreases |a|
  {
    if a == [] {
      assert a + b == b;
    } else {
      assert (a + b)[1..] == a[1..] + b;
      PartsAppend(a[1..], b);
    }
  }

  /** Nothing but unseen batches makes the number of parts drop. */
  lemma {:induction false} SeenOrFewer(batches: seq<Batch>)
    requires NoneEmpty(batches)
    ensures |SeenParts(batches)| <= |AllParts(batches)|
    ensures |SeenParts(batches)| == |AllParts(batches)| <==> AllSeen(batches)
    ensures AllSeen(batches) ==> SeenParts(batches) == AllParts(batches)
    decreases |batches|
  {
    if batches != [] {
      var rest := batches[1..];
      assert forall i :: 0 <= i < |rest| ==> rest[i] == batches[i + 1];
      SeenOrFewer(rest);
      assert AllSeen(batches) <==> batches[0].seen && AllSeen(rest) by {
        if batches[0].seen && AllSeen(rest) {
          assert forall i :: 0 < i < |batches| ==> batches[i] == rest[i - 1];
        }
      }
    }
  }

  /** Parts in front of other parts are all full. */
  lemma CutFront(a: seq<Part>, b: seq<Part>, chunkSize: int)
    requires Cut(Payloads(a + b), chunkSize)
    ensures Cut(Payloads(a), chunkSize) && Cut(Payloads(b), chunkSize)
    ensures b != [] ==> forall i :: 0 <= i < |a| ==> |a[i].payload| == chunkSize
  {
    var whole := Payloads(a + b);
    forall i | 0 <= i < |a|
      ensures whole[i] == a[i].payload
    {
    }
    forall i | 0 <= i < |b|
      ensures whole[|a| + i] == b[i].payload
    {
    }
  }

  lemma CutJoined(a: seq<Part>, b: seq<Part>, chunkSize: int)
    requires Cut(Payloads(a), chunkSize) && Cut(Payloads(b), chunkSize)
    requires b != [] ==> forall i :: 0 <= i < |a| ==> |a[i].payload| == chunkSize
    ensures Cut(Payloads(a + b), chunkSize)
  {
    var whole := Payloads(a + b);
    forall i | 0 <= i < |whole|
      ensures 0 < |whole[i]| <= chunkSize && (i < |whole| - 1 ==> |whole[i]| == chunkSize)
    {
      if i < |a| {
        assert whole[i] == Payloads(a)[i];
      } else {
        assert whole[i] == Payloads(b)[i - |a|];
      }
    }
  }

  lemma {:induction false} FlattenAppend<T>(a: seq<seq<T>>, b: seq<seq<T>>)
    ensures Flatten(a + b) == Flatten(a) + Flatten(b)
    decreases |a|
  {
    if a == [] {
      assert a + b == b;
    } else {
      assert (a + b)[1..] == a[1..] + b;
      FlattenAppend(a[1..], b);
    }
  }

  lemma PayloadsAppend(a: seq<Part>, b: seq<Part>)
    ensures Payloads(a + b) == Payloads(a) + Payloads(b)
    ensures Flatten(Payloads(a + b)) == Flatten(Payloads(a)) + Flatten(Payloads(b))
  {
    assert Payloads(a + b) == Payloads(a) + Payloads(b);
    FlattenAppend(Payloads(a), Payloads(b));
  }

  /** What is seen of a device is a shorter device, cut alike. */
  lemma {:induction false} SeenIsCut(batches: seq<Batch>, chunkSize: int)
    requires Cut(Payloads(AllParts(batches)), chunkSize)
    ensures Cut(Payloads(SeenParts(batches)), chunkSize)
    ensures SeenParts(batches) != [] ==> AllParts(batches) != []
    ensures |Flatten(Payloads(SeenParts(batches)))| <= |Flatten(Payloads(AllParts(batches)))|
    decreases |batches|
  {
    if batches != [] {
      var first, rest := batches[0].parts, batches[1..];
      CutFront(first, AllParts(rest), chunkSize);
      SeenIsCut(rest, chunkSize);
      PayloadsAppend(first, AllParts(rest));
      PayloadsAppend(first, SeenParts(rest));
      if batches[0].seen {
        CutJoined(first, SeenParts(rest), chunkSize);
      } else {
        assert SeenParts(batches) == SeenParts(rest);
      }
    }
  }

  /** The device d is what the reader sees of these batches. */
  ghost predicate Shows(d: Device, batches: seq<Batch>) {
    && NoneEmpty(batches) && CutTo(Payloads(AllParts(batches)), d.chunkSize, d.size)
    && AllYield(d.chunkSize, SeenParts(batches), d.chunks)
  }

  /**
   * It reads as what was written if and only if every batch is seen and every part readable; and exactly then reading
   * the whole of it meets no error.
   */
  lemma {:induction false} ShowsAllIff(d: Device, batches: seq<Batch>)
    requires Shows(d, batches)
    ensures ReadsAs(d, Flatten(Payloads(AllParts(batches)))) <==> AllSeen(batches) && AllReadable(AllParts(batches))
    ensures Read(d, 0, d.size).error == None <==> AllSeen(batches) && AllReadable(AllParts(batches))
  {
    SeenOrFewer(batches);
    ReadsBackIff(d, SeenParts(batches), AllParts(batches));
  }

  /**
   * If a batch is not seen, whatever follows it moves up: the device begins with the parts that are seen, end to end,
   * and reads there meet no error although they return bytes of other offsets.
   */
  lemma {:induction false} UnseenBatchesShift(d: Device, batches: seq<Batch>)
    requires Shows(d, batches) && AllReadable(SeenParts(batches))
    ensures var data := Flatten(Payloads(SeenParts(batches))); |data| <= d.size && StartsAs(d, data)
  {
    SeenIsCut(batches, d.chunkSize);
    CarriesReads(d, Payloads(SeenParts(batches)));
  }

  /** A chunk of the device is fatal to whoever reads its first byte exactly if its part is. */
  lemma {:induction false} FatalIff(d: Device, batches: seq<Batch>, k: nat)
    requires Shows(d, batches) && k < |SeenParts(batches)| && 0 <= k * d.chunkSize < d.size
    ensures var err := Read(d, k * d.chunkSize, 1).error;
            (err.Some? && Panics(err.value)) <==> SeenParts(batches)[k].fate.Fatal?
  {
    var off := k * d.chunkSize;
    assert Yields(d.chunkSize, SeenParts(batches)[k], d.chunks[k]);
    DivModUnique(off, d.chunkSize, k, 0);
    var bs := Read(d, off, 1).bytes;
    PrefixIsLongestRun(d, off, 1, bs);
    assert |bs| == 0 || Holds(d, off + 0, bs[0]);
  }

  function Size(parts: seq<Part>): nat {
    |Flatten(Payloads(parts))|
  }

  lemma OneBatch(b: Batch)
    ensures AllParts([b]) == b.parts && SeenParts([b]) == if b.seen then b.parts else []
  {
    assert [b][1..] == [];
  }

  /** Three runs of bytes, and the same without the middle one. */
  lemma WithoutMiddle(a: seq<byte>, b: seq<byte>, c: seq<byte>, off: nat, len: nat)
    requires |a| <= off && off + len <= |a + c|
    ensures (a + c)[off..off + len] == (a + b + c)[off + |b|..off + |b| + len]
  {
    var short, long := (a + c)[off..off + len], (a + b + c)[off + |b|..off + |b| + len];
    assert forall i :: 0 <= i < len ==> short[i] == long[i];
  }

  lemma {:induction false} LostBatchLeaves(before: seq<Batch>, lost: Batch, after: seq<Batch>)
    requires NoneEmpty(before) && NoneEmpty(after) && AllSeen(before) && AllSeen(after) && !lost.seen
    ensures AllParts(before + [lost] + after) == AllParts(before) + lost.parts + AllParts(after)
    ensures SeenParts(before + [lost] + after) == AllParts(before) + AllParts(after)
  {
    PartsAppend(before + [lost], after);
    PartsAppend(before, [lost]);
    OneBatch(lost);
    SeenOrFewer(before);
    SeenOrFewer(after);
  }

  /** With one batch lost, every read behind it returns, without any error, what was written that batch further on. */
  lemma {:induction false} LostBatchShifts(
    d: Device, before: seq<Batch>, lost: Batch, after: seq<Batch>, off: nat, len: nat)
    requires Shows(d, before + [lost] + after) && AllReadable(SeenParts(before + [lost] + after))
    requires AllSeen(before) && AllSeen(after) && !lost.seen
    requires Size(AllParts(before)) <= off && off + Size(lost.parts) + len <= d.size
    ensures var written, gap := Flatten(Payloads(AllParts(before + [lost] + after))), Size(lost.parts);
            Read(d, off, len) == ReadResult(written[off + gap..off + gap + len], None)
  {
    var all := before + [lost] + after;
    assert NoneEmpty(before) && NoneEmpty(after) by {
      assert forall i :: 0 <= i < |before| ==> before[i] == all[i];
      assert forall i :: 0 <= i < |after| ==> after[i] == all[|before| + 1 + i];
    }
    LostBatchLeaves(before, lost, after);
    var a, c := AllParts(before), AllParts(after);
    PayloadsAppend(a + lost.parts, c);
    PayloadsAppend(a, lost.parts);
    PayloadsAppend(a, c);
    UnseenBatchesShift(d, all);
    WithoutMiddle(Flatten(Payloads(a)), Flatten(Payloads(lost.parts)), Flatten(Payloads(c)), off, len);
  }
}
