/** A device cut into chunks, and what reading the decoded chunks gives back. */
module CutDevices {
  import opened Bytes
  import opened Devices

  /** A device cut into chunks: all full but the last, which is not empty. */
  ghost predicate Cut(parts: seq<seq<byte>>, chunkSize: int) {
    && 0 < chunkSize
    && forall i :: 0 <= i < |parts| ==>
         0 < |parts[i]| <= chunkSize && (i < |parts| - 1 ==> |parts[i]| == chunkSize)
  }

  ghost predicate CutTo(parts: seq<seq<byte>>, chunkSize: int, size: int) {
    Cut(parts, chunkSize) && |Flatten(parts)| == size
  }

  lemma NextChunk(o: nat, chunkSize: int)
    requires 0 < chunkSize
    ensures (o + chunkSize) / chunkSize == o / chunkSize + 1 && (o + chunkSize) % chunkSize == o % chunkSize
  {
    var q := o / chunkSize;
    assert (q + 1) * chunkSize == q * chunkSize + chunkSize;
    DivModUnique(o + chunkSize, chunkSize, q + 1, o % chunkSize);
  }

  /** Where the byte at an offset of the device comes from. */
  lemma {:induction false} FlattenedAt(parts: seq<seq<byte>>, chunkSize: int, o: nat)
    requires Cut(parts, chunkSize) && o < |Flatten(parts)|
    ensures var k, r := o / chunkSize, o % chunkSize;
            0 <= k < |parts| && 0 <= r < |parts[k]| && parts[k][r] == Flatten(parts)[o]
    decreases |parts|
  {
    if o < |parts[0]| {
      DivModUnique(o, chunkSize, 0, o);
    } else {
      var rest := parts[1..];
      assert forall i :: 0 <= i < |rest| ==> rest[i] == parts[i + 1];
      var before := o - chunkSize;
      FlattenedAt(rest, chunkSize, before);
      NextChunk(before, chunkSize);
    }
  }

  /** A device cut front to back. */
  function Cuts(device: seq<byte>, chunkSize: nat): seq<seq<byte>>
    requires 0 < chunkSize
  {
    if device == [] then []
    else if |device| <= chunkSize then [device]
    else [device[..chunkSize]] + Cuts(device[chunkSize..], chunkSize)
  }

  /** Every device can be cut into chunks of every size. */
  lemma {:induction false} EveryDeviceCanBeCut(device: seq<byte>, chunkSize: nat)
    requires 0 < chunkSize
    ensures Cut(Cuts(device, chunkSize), chunkSize) && Flatten(Cuts(device, chunkSize)) == device
    decreases |device|
  {
    if 0 < |device| <= chunkSize {
      assert Cuts(device, chunkSize)[1..] == [];
    } else if |device| > chunkSize {
      var first, rest := device[..chunkSize], device[chunkSize..];
      EveryDeviceCanBeCut(rest, chunkSize);
      assert ([first] + Cuts(rest, chunkSize))[1..] == Cuts(rest, chunkSize);
      assert device == first + rest;
    }
  }

  // ----- reading the decoded chunks

  /** The chunk decodes to data that starts with the payload, and is nothing else when that fills the chunk. */
  ghost predicate Decodes(chunkSize: int, payload: seq<byte>, d: Decoded) {
    && d.Ok? && |payload| <= |d.value| && d.value[..|payload|] == payload
    && (|payload| == chunkSize ==> d.value == payload)
  }

  /** d's first chunks decode to these parts, which all lie on d. */
  ghost predicate Carries(d: Device, parts: seq<seq<byte>>) {
    && Cut(parts, d.chunkSize) && |Flatten(parts)| <= d.size && |parts| <= |d.chunks|
    && forall k :: 0 <= k < |parts| ==> Decodes(d.chunkSize, parts[k], d.chunks[k])
  }

  lemma {:induction false} CarriedByte(d: Device, parts: seq<seq<byte>>, o: nat)
    requires Carries(d, parts) && o < |Flatten(parts)|
    ensures Holds(d, o, Flatten(parts)[o])
  {
    FlattenedAt(parts, d.chunkSize, o);
    var k, r := o / d.chunkSize, o % d.chunkSize;
    var decoded, payload := d.chunks[k], parts[k];
    assert Decodes(d.chunkSize, payload, decoded);
    assert decoded.value[r] == decoded.value[..|payload|][r];
  }

  /** Every read inside the parts returns exactly their bytes, and no trailer byte ever surfaces. */
  lemma {:induction false} CarriedRead(d: Device, parts: seq<seq<byte>>, off: nat, len: nat)
    requires Carries(d, parts) && off + len <= |Flatten(parts)|
    ensures Read(d, off, len) == ReadResult(Flatten(parts)[off..off + len], None)
  {
    var out := Flatten(parts)[off..off + len];
    forall i | 0 <= i < |out|
      ensures Holds(d, off + i, out[i])
    {
      CarriedByte(d, parts, off + i);
    }
    StopsCorrectly(d, off, len, out);
  }

  /** Every read of d that ends within data returns the bytes of data. */
  ghost predicate StartsAs(d: Device, data: seq<byte>) {
    forall off: nat, len: nat :: off + len <= |data| ==> Read(d, off, len) == ReadResult(data[off..off + len], None)
  }

  /** Reading anywhere in d returns the bytes of data, and there is no more to d. */
  ghost predicate ReadsAs(d: Device, data: seq<byte>) {
    d.size == |data| && StartsAs(d, data)
  }

  lemma {:induction false} CarriesReads(d: Device, parts: seq<seq<byte>>)
    requires Carries(d, parts)
    ensures StartsAs(d, Flatten(parts))
  {
    forall off: nat, len: nat | off + len <= |Flatten(parts)|
      ensures Read(d, off, len) == ReadResult(Flatten(parts)[off..off + len], None)
    {
      CarriedRead(d, parts, off, len);
    }
  }

  // ----- chunks that cannot be read

  /** What the reader does with a stored chunk: decode it, refuse it, or panic. */
  datatype Fate = Decodable | Refused | Fatal

  /** What a stored chunk is worth to the reader. */
  datatype Part = Part(payload: seq<byte>, fate: Fate)

  const PAYLOAD: Part -> seq<byte> := (p: Part) => p.payload

  function Payloads(parts: seq<Part>): (r: seq<seq<byte>>)
    ensures |r| == |parts|
  {
    Mapped(PAYLOAD, parts)
  }

  ghost predicate Yields(chunkSize: int, p: Part, d: Decoded) {
    match p.fate
    case Decodable => Decodes(chunkSize, p.payload, d)
    case Refused => d.Err? && !Panics(d.error)
    case Fatal => d.Err? && Panics(d.error)
  }

  ghost predicate AllYield(chunkSize: int, parts: seq<Part>, chunks: seq<Decoded>) {
    |chunks| == |parts| && forall k :: 0 <= k < |parts| ==> Yields(chunkSize, parts[k], chunks[k])
  }

  ghost predicate AllReadable(parts: seq<Part>) {
    forall k :: 0 <= k < |parts| ==> parts[k].fate.Decodable?
  }

  /** Every part has a first byte, a whole number of chunks into the device. */
  lemma {:induction false} PartStart(parts: seq<seq<byte>>, chunkSize: int, k: nat)
    requires Cut(parts, chunkSize) && k < |parts|
    ensures 0 <= k * chunkSize < |Flatten(parts)|
    decreases k
  {
    if k > 0 {
      var rest := parts[1..];
      assert forall i :: 0 <= i < |rest| ==> rest[i] == parts[i + 1];
      PartStart(rest, chunkSize, k - 1);
      assert k * chunkSize == (k - 1) * chunkSize + chunkSize;
    }
  }

  /** One unreadable byte makes the read of the whole device fail. */
  lemma WholeReadFails(d: Device, o: nat)
    requires o < d.size && !Readable(d, o)
    ensures Read(d, 0, d.size).error.Some?
  {
    var bs := Read(d, 0, d.size).bytes;
    PrefixIsLongestRun(d, 0, d.size, bs);
    var b := if o < |bs| then bs[o] else 0;
    assert o < |bs| ==> Holds(d, 0 + o, b);
  }

  /** A chunk that is missing from d, or was refused, does. */
  lemma {:induction false} MissingChunkFails(d: Device, parts: seq<seq<byte>>, k: nat)
    requires CutTo(parts, d.chunkSize, d.size) && k < |parts| && (k < |d.chunks| ==> d.chunks[k].Err?)
    ensures Read(d, 0, d.size).error.Some?
  {
    PartStart(parts, d.chunkSize, k);
    DivModUnique(k * d.chunkSize, d.chunkSize, k, 0);
    WholeReadFails(d, k * d.chunkSize);
  }

  /**
   * A device meant to consist of all parts, whose chunks are what remains of them, is read as it was meant to be if and
   * only if nothing is missing and every part is readable; and if and only if reading the whole of it meets no error.
   */
  lemma {:induction false} ReadsBackIff(d: Device, remaining: seq<Part>, all: seq<Part>)
    requires CutTo(Payloads(all), d.chunkSize, d.size) && AllYield(d.chunkSize, remaining, d.chunks)
    requires |remaining| <= |all| && (|remaining| == |all| ==> remaining == all)
    ensures ReadsAs(d, Flatten(Payloads(all))) <==> |remaining| == |all| && AllReadable(all)
    ensures Read(d, 0, d.size).error == None <==> |remaining| == |all| && AllReadable(all)
  {
    var parts := Payloads(all);
    if |remaining| < |all| {
      MissingChunkFails(d, parts, |remaining|);
    } else if AllReadable(all) {
      CarriesReads(d, parts);
    } else {
      var k :| 0 <= k < |all| && !all[k].fate.Decodable?;
      MissingChunkFails(d, parts, k);
    }
    assert ReadsAs(d, Flatten(parts)) ==> Read(d, 0, 0 + d.size).error == None;
  }
}
