/**
 * `SplitData` and `MergeData`: the in-memory path. A value is gob-encoded
 * (an opaque, possibly failing encoder here), the encoded bytes are cut into
 * `chunks` slots of a caller-supplied slice, and `MergeData` appends the
 * slots back together and hands the result to an opaque decoder.
 */
module DataSplit {
  import opened Bytes
  import opened Errors

  /** A Go `any` as far as these two functions look at it: nil, a `[]byte`, or some other value. */
  datatype Any = Nil | ByteSlice(bytes: Bytes) | Other(id: int)

  // ---------------------------------------------------------------------------
  // The partition

  /** partSize: len/chunks, raised to 1 when that is 0 but there are bytes. */
  function PartSize(len: nat, chunks: nat): (p: nat)
    requires chunks >= 1
    ensures len == 0 <==> p == 0
    ensures len > 0 && len < chunks ==> p == 1
  {
    var p := len / chunks;
    if p == 0 && len > 0 then 1 else p
  }

  /** With at least as many bytes as slots, the slots before the last hold len/chunks bytes each. */
  lemma PartSizeBounds(len: nat, chunks: nat)
    requires 1 <= chunks <= len
    ensures PartSize(len, chunks) * chunks <= len < (PartSize(len, chunks) + 1) * chunks
  {
  }

  /**
   * Slot `i`: bytes [i*p, i*p + p), cut at the end of the data; the last slot
   * runs to the end; a slot starting at or past the end is empty.
   */
  function Slot(data: Bytes, chunks: nat, i: nat): (r: Bytes)
    requires i < chunks
  {
    var p := PartSize(|data|, chunks);
    var start := i * p;
    var end := if i == chunks - 1 || start + p > |data| then |data| else start + p;
    if start >= |data| then [] else data[start..end]
  }

  /** What SplitData leaves in the slice: slot `i` as a `[]byte` at position `i`. */
  function Slots(data: Bytes, chunks: nat): (r: seq<Any>)
    ensures |r| == chunks
    ensures forall i :: 0 <= i < chunks ==> r[i] == ByteSlice(Slot(data, chunks, i))
  {
    seq(chunks, i requires 0 <= i < chunks => ByteSlice(Slot(data, chunks, i)))
  }

  /** The error SplitData reports, if any, in the order it checks. */
  function SplitDataStatus(v: Any, length: nat, chunks: int, encode: Any -> Option<Bytes>): Status {
    if v == Nil then Err(InputNil)
    else if chunks < 2 then Err(TooFewChunks)
    else if length != chunks then Err(OutputLengthMismatch)
    else if encode(v).None? then Err(EncodeFailed)
    else Ok
  }

  /**
   * SplitData: after the checks, fills every slot of `a` in place with its
   * part of the encoded bytes. On an error the slice is left as it was.
   */
  method SplitData(v: Any, a: array<Any>, chunks: int, encode: Any -> Option<Bytes>) returns (status: Status)
    modifies a
    ensures status == SplitDataStatus(v, a.Length, chunks, encode)
    ensures status.Ok? ==> a[..] == Slots(encode(v).value, chunks)
    ensures status.Err? ==> a[..] == old(a[..])
  {
    if v == Nil {
      return Err(InputNil);
    }
    if chunks < 2 {
      return Err(TooFewChunks);
    }
    if a.Length != chunks {
      return Err(OutputLengthMismatch);
    }
    var encoded := encode(v);
    if encoded.None? {
      return Err(EncodeFailed);
    }
    var encodedData := encoded.value;
    var dataLength := |encodedData|;
    var partSize := dataLength / chunks;
    if partSize == 0 && dataLength > 0 {
      partSize := 1;
    }
    FillSlots(a, encodedData, chunks, partSize);
    status := Ok;
  }

  /** The loop of SplitData: slot `i` of the encoded bytes goes to `a[i]`. */
  method FillSlots(a: array<Any>, encodedData: Bytes, chunks: nat, partSize: nat)
    requires chunks >= 1 && a.Length == chunks && partSize == PartSize(|encodedData|, chunks)
    modifies a
    ensures a[..] == Slots(encodedData, chunks)
  {
    var dataLength := |encodedData|;
    for i := 0 to chunks
      invariant forall j :: 0 <= j < i ==> a[j] == ByteSlice(Slot(encodedData, chunks, j))
    {
      MulStep(i, partSize);
      var start := i * partSize;
      var end := start + partSize;
      // the last slot takes the remaining bytes
      if i == chunks - 1 || end > dataLength {
        end := dataLength;
      }
      if start >= dataLength {
        a[i] := ByteSlice([]);
      } else {
        a[i] := ByteSlice(encodedData[start..end]);
      }
      SlotIs(encodedData, chunks, i, start, end);
    }
    assert a[..] == Slots(encodedData, chunks);
  }

  /** Slot `i`, in terms of the start and end the loop computes. */
  lemma SlotIs(data: Bytes, chunks: nat, i: nat, start: nat, end: int)
    requires i < chunks && start == i * PartSize(|data|, chunks)
    requires end == if i == chunks - 1 || start + PartSize(|data|, chunks) > |data| then |data|
                    else start + PartSize(|data|, chunks)
    ensures start < |data| ==> start <= end <= |data| && Slot(data, chunks, i) == data[start..end]
    ensures start >= |data| ==> Slot(data, chunks, i) == []
  {
  }

  // ---------------------------------------------------------------------------
  // Properties of the partition

  /** The bytes of the slots, one after the other. */
  function Concat(slots: seq<Any>): Bytes {
    if slots == [] then [] else Concat(slots[..|slots| - 1]) + ElementBytes(slots[|slots| - 1])
  }

  /** The bytes a `[]byte` element holds; nothing for any other value. */
  function ElementBytes(x: Any): Bytes {
    if x.ByteSlice? then x.bytes else []
  }

  lemma MulStep(i: nat, p: nat)
    ensures i * p >= 0 && (i + 1) * p == i * p + p
  {
  }

  /** A slot before the last one: the bytes from i*p to i*p + p, both cut at the end of the data. */
  lemma SlotInside(data: Bytes, chunks: nat, i: nat, start: nat)
    requires i < chunks - 1 && start == i * PartSize(|data|, chunks)
    ensures Slot(data, chunks, i)
         == data[Min(start, |data|)..Min(start + PartSize(|data|, chunks), |data|)]
  {
  }

  /** The last slot: everything from (chunks-1)*p on. */
  lemma SlotLast(data: Bytes, chunks: nat, start: nat)
    requires chunks >= 1 && start == (chunks - 1) * PartSize(|data|, chunks)
    ensures Slot(data, chunks, chunks - 1) == data[Min(start, |data|)..]
  {
  }

  lemma PrefixStep(data: Bytes, start: nat, p: nat)
    ensures data[..Min(start, |data|)] + data[Min(start, |data|)..Min(start + p, |data|)]
         == data[..Min(start + p, |data|)]
  {
  }

  lemma ConcatSnoc(s: seq<Any>, n: nat)
    requires 0 < n <= |s|
    ensures Concat(s[..n]) == Concat(s[..n - 1]) + ElementBytes(s[n - 1])
  {
    assert s[..n][..n - 1] == s[..n - 1];
  }

  /** The encoded bytes up to n*p, cut at the end of the data. */
  function Covered(data: Bytes, chunks: nat, n: nat): Bytes
    requires chunks >= 1
  {
    MulStep(n, PartSize(|data|, chunks));
    Take(data, n * PartSize(|data|, chunks))
  }

  /** A slot before the last one carries on where the previous slots stopped. */
  lemma SlotExtends(data: Bytes, chunks: nat, i: nat)
    requires i < chunks - 1
    ensures Covered(data, chunks, i) + Slot(data, chunks, i) == Covered(data, chunks, i + 1)
  {
    var p := PartSize(|data|, chunks);
    MulStep(i, p);
    var start: nat := i * p;
    assert Covered(data, chunks, i) == data[..Min(start, |data|)];
    assert Covered(data, chunks, i + 1) == data[..Min(start + p, |data|)];
    SlotInside(data, chunks, i, start);
    PrefixStep(data, start, p);
  }

  /** One more slot extends the covered prefix by p bytes. */
  lemma SlotsPrefixStep(data: Bytes, chunks: nat, n: nat)
    requires 0 < n < chunks
    requires Concat(Slots(data, chunks)[..n - 1]) == Covered(data, chunks, n - 1)
    ensures Concat(Slots(data, chunks)[..n]) == Covered(data, chunks, n)
  {
    var s := Slots(data, chunks);
    ConcatSnoc(s, n);
    assert ElementBytes(s[n - 1]) == Slot(data, chunks, n - 1);
    SlotExtends(data, chunks, n - 1);
  }

  /** The first `n` slots, all before the last one, hold the encoded bytes up to n*p. */
  lemma {:induction false} SlotsPrefix(data: Bytes, chunks: nat, n: nat)
    requires n < chunks
    ensures Concat(Slots(data, chunks)[..n]) == Covered(data, chunks, n)
  {
    if n > 0 {
      SlotsPrefix(data, chunks, n - 1);
      SlotsPrefixStep(data, chunks, n);
    }
  }

  /** The slots tile the encoded bytes: concatenated in order, they are the whole buffer. */
  lemma SlotsTile(data: Bytes, chunks: nat)
    requires chunks >= 1
    ensures Concat(Slots(data, chunks)) == data
  {
    var s := Slots(data, chunks);
    MulStep(chunks - 1, PartSize(|data|, chunks));
    var start: nat := (chunks - 1) * PartSize(|data|, chunks);
    var lo := Min(start, |data|);
    SlotsPrefix(data, chunks, chunks - 1);
    assert Covered(data, chunks, chunks - 1) == data[..lo];
    SlotLast(data, chunks, start);
    ConcatSnoc(s, chunks);
    assert s[..chunks] == s;
    assert Concat(s) == data[..lo] + data[lo..];
    SplitAt(data, lo);
  }

  /** Seven bytes in three slots: sizes 2, 2 and 3. Two bytes in three slots: 1, 1 and an empty one. */
  lemma SlotSizes()
    ensures var d: Bytes := [1, 2, 3, 4, 5, 6, 7];
      |Slot(d, 3, 0)| == 2 && |Slot(d, 3, 1)| == 2 && |Slot(d, 3, 2)| == 3
    ensures var d: Bytes := [1, 2];
      |Slot(d, 3, 0)| == 1 && |Slot(d, 3, 1)| == 1 && Slot(d, 3, 2) == []
  {
  }

  // ---------------------------------------------------------------------------
  // MergeData

  /** The position of the first element that is not a `[]byte`. */
  function FirstNonBytes(a: seq<Any>): (r: Option<nat>)
    ensures r.None? <==> forall j :: 0 <= j < |a| ==> a[j].ByteSlice?
    ensures r.Some? ==> r.value < |a| && !a[r.value].ByteSlice?
    ensures r.Some? ==> forall j :: 0 <= j < r.value ==> a[j].ByteSlice?
  {
    if a == [] then None
    else if !a[0].ByteSlice? then Some(0)
    else match FirstNonBytes(a[1..])
      case None => None
      case Some(j) => Some(j + 1)
  }

  /** What MergeData returns: the decoded value, or the first error it meets. */
  function MergeDataSpec(a: seq<Any>, out: Any, decode: Bytes -> Option<Any>): Result<Any> {
    if out == Nil then Failure(OutputNil)
    else if |a| == 0 then Failure(NoChunksProvided)
    else match FirstNonBytes(a)
      case Some(i) => Failure(NotByteSlice(i))
      case None =>
        var combined := Concat(a);
        if |combined| == 0 then Failure(NoDataToDecode)
        else match decode(combined)
          case None => Failure(DecodeFailed)
          case Some(x) => Success(x)
  }

  /** MergeData: appends every element, failing at the first that is not a `[]byte`, then decodes. */
  method MergeData(a: seq<Any>, out: Any, decode: Bytes -> Option<Any>) returns (r: Result<Any>)
    ensures r == MergeDataSpec(a, out, decode)
  {
    if out == Nil {
      return Failure(OutputNil);
    }
    if |a| == 0 {
      return Failure(NoChunksProvided);
    }
    var combined: Bytes := [];
    for i := 0 to |a|
      invariant combined == Concat(a[..i])
      invariant forall j :: 0 <= j < i ==> a[j].ByteSlice?
    {
      if !a[i].ByteSlice? {
        return Failure(NotByteSlice(i));
      }
      assert a[..i + 1][..i] == a[..i];
      combined := combined + a[i].bytes;
    }
    assert a[..|a|] == a;
    if |combined| == 0 {
      return Failure(NoDataToDecode);
    }
    var decoded := decode(combined);
    if decoded.None? {
      return Failure(DecodeFailed);
    }
    return Success(decoded.value);
  }

  // ---------------------------------------------------------------------------
  // The in-memory round trip

  /**
   * Merging the slots SplitData filled hands the decoder exactly the encoded
   * bytes; with a decoder that inverts the encoder, the value comes back.
   * Only an encoding with no bytes at all is refused.
   */
  lemma DataRoundTrip(v: Any, chunks: nat, out: Any, encode: Any -> Option<Bytes>, decode: Bytes -> Option<Any>)
    requires chunks >= 2 && out != Nil && encode(v).Some?
    ensures var e := encode(v).value;
      MergeDataSpec(Slots(e, chunks), out, decode)
      == if |e| == 0 then Failure(NoDataToDecode)
         else if decode(e).None? then Failure(DecodeFailed)
         else Success(decode(e).value)
    ensures decode(encode(v).value) == Some(v) && |encode(v).value| > 0 ==>
      MergeDataSpec(Slots(encode(v).value, chunks), out, decode) == Success(v)
  {
    SlotsTile(encode(v).value, chunks);
  }
}
