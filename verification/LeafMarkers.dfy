/** The second half of `leafCompressedDims` in fixtures/src/CompressedDimSpy.java: the
    header of every leaf block, up to its marker byte.

    How document ids are packed is Lucene's own `DocIdsWriter`; here it is any function
    that says where the ids of a block end. */
module LeafMarkers {
  import opened VarInt
  import opened PackedIndex

  /** The end of the ids of a block holding `count` documents. */
  type IdReader = (seq<Byte>, nat, int) -> Result<nat>

  function SignedByte(b: Byte): int {
    if b < 128 then b else b - 256
  }

  /** One common prefix per dimension: its length and its bytes. */
  function SkipPrefixes(data: seq<Byte>, pos: nat, dims: nat): (r: Result<nat>)
    decreases dims
  {
    if dims == 0 then Ok(pos)
    else
      var p :- SkipPrefix(data, pos);
      SkipPrefixes(data, p, dims - 1)
  }

  function SkipPrefix(data: seq<Byte>, pos: nat): (r: Result<nat>) {
    var (prefix, p1) :- DecodeVInt(data, pos);
    if prefix > 0 then DecodeSkip(data, p1, prefix) else Ok(p1)
  }

  function Marker(data: seq<Byte>, fp: int, dims: nat, ids: IdReader): (r: Result<int>) {
    if fp < 0 || fp > |data| then Err(Truncated)
    else
      var (count, p1) :- DecodeVInt(data, fp);
      var p2 :- ids(data, p1, count);
      var p3 :- SkipPrefixes(data, p2, dims);
      if p3 >= |data| then Err(Truncated) else Ok(SignedByte(data[p3]))
  }

  /** The first fault in leaf order wins. */
  function Markers(data: seq<Byte>, fps: seq<int>, dims: nat, ids: IdReader): (r: Result<seq<int>>) {
    if fps == [] then Ok([])
    else
      var init :- Markers(data, fps[..|fps| - 1], dims, ids);
      var last :- Marker(data, fps[|fps| - 1], dims, ids);
      Ok(init + [last])
  }

  method ReadMarker(data: seq<Byte>, fp: int, dims: nat, ids: IdReader) returns (r: Result<int>)
    ensures r == Marker(data, fp, dims, ids)
    ensures r.Ok? ==> -128 <= r.value < 128 && exists p :: 0 <= p < |data| && (r.value - data[p]) % 256 == 0
  {
    if fp < 0 || fp > |data| {
      return Err(Truncated);
    }
    var input := new IndexInput(data);
    input.pos := fp;
    var count := input.ReadVInt();
    if count.Err? { return count; }
    var afterIds := ids(data, input.pos, count.value);
    if afterIds.Err? { return Err(afterIds.fault); }
    input.pos := afterIds.value;
    for dim := 0 to dims
      invariant SkipPrefixes(data, afterIds.value, dims) == SkipPrefixes(data, input.pos, dims - dim)
    {
      hide DecodeVInt, DecodeSkip;
      var prefix := input.ReadVInt();
      if prefix.Err? { return prefix; }
      if prefix.value > 0 {
        var skipped := input.SkipBytes(prefix.value);
        if skipped.Err? { return skipped; }
      }
    }
    if input.pos >= |data| {
      return Err(Truncated);
    }
    return Ok(SignedByte(data[input.pos]));
  }

  /** `leafCompressedDims` */
  method LeafCompressedDims(index: seq<Byte>, data: seq<Byte>, n: nat, c: Config, dims: nat, ids: IdReader)
    returns (r: Result<seq<int>>)
    requires ValidConfig(c)
    ensures var found := LeafPointers(index, n, c);
            r == if found.Err? then Err(found.fault) else Markers(data, found.value.0, dims, ids)
  {
    var fps := ReadLeafPointers(index, n, c);
    if fps.Err? {
      return Err(fps.fault);
    }
    var leaves := fps.value;
    var result := new int[|leaves|];
    for leafIdx := 0 to |leaves|
      invariant Markers(data, leaves[..leafIdx], dims, ids) == Ok(result[..leafIdx])
    {
      assert leaves[..leafIdx + 1][..leafIdx] == leaves[..leafIdx];
      var marker := ReadMarker(data, leaves[leafIdx], dims, ids);
      if marker.Err? {
        FirstFaultStays(data, leaves, leafIdx + 1, dims, ids);
        return Err(marker.fault);
      }
      result[leafIdx] := marker.value;
      assert result[..leafIdx + 1] == result[..leafIdx] + [marker.value];
    }
    assert leaves[..|leaves|] == leaves && result[..|leaves|] == result[..];
    return Ok(result[..]);
  }

  lemma {:induction false} FirstFaultStays(data: seq<Byte>, fps: seq<int>, k: nat, dims: nat, ids: IdReader)
    requires k <= |fps| && Markers(data, fps[..k], dims, ids).Err?
    ensures Markers(data, fps, dims, ids) == Markers(data, fps[..k], dims, ids)
    decreases |fps|
  {
    if k < |fps| {
      assert fps[..|fps| - 1][..k] == fps[..k];
      FirstFaultStays(data, fps[..|fps| - 1], k, dims, ids);
    } else {
      assert fps[..k] == fps;
    }
  }

  // ---------------------------------------------------------------------------
  // Written leaf blocks
  // ---------------------------------------------------------------------------

  datatype Block = Block(count: nat, ids: seq<Byte>, prefixes: seq<seq<Byte>>, marker: Byte)

  function WritePrefixes(prefixes: seq<seq<Byte>>): seq<Byte> {
    if prefixes == [] then []
    else Encode(|prefixes[0]|) + prefixes[0] + WritePrefixes(prefixes[1..])
  }

  function WriteBlock(b: Block): seq<Byte> {
    Encode(b.count) + b.ids + WritePrefixes(b.prefixes) + [b.marker]
  }

  /** A block of `dims` dimensions whose ids the reader measures right wherever they stand. */
  ghost predicate ValidBlock(b: Block, dims: nat, ids: IdReader) {
    && b.count < TWO31 && |b.prefixes| == dims
    && (forall k :: 0 <= k < dims ==> |b.prefixes[k]| < TWO31)
    && forall data: seq<Byte>, pos: nat :: At(data, pos, b.ids) ==> ids(data, pos, b.count) == Ok(pos + |b.ids|)
  }

  /** The markers of the blocks of the given leaves. */
  function MarkersAt(blocks: seq<Block>, order: seq<nat>): (m: seq<int>)
    requires forall k :: 0 <= k < |order| ==> order[k] < |blocks|
    ensures |m| == |order| && forall k :: 0 <= k < |m| ==> m[k] == SignedByte(blocks[order[k]].marker)
  {
    seq(|order|, k requires 0 <= k < |order| => SignedByte(blocks[order[k]].marker))
  }

  lemma {:induction false} SkipWrittenPrefixes(prefixes: seq<seq<Byte>>, data: seq<Byte>, pos: nat)
    requires forall k :: 0 <= k < |prefixes| ==> |prefixes[k]| < TWO31
    requires At(data, pos, WritePrefixes(prefixes))
    ensures SkipPrefixes(data, pos, |prefixes|) == Ok(pos + |WritePrefixes(prefixes)|)
    decreases |prefixes|
  {
    hide DecodeVInt, Encode;
    if prefixes != [] {
      var length := Encode(|prefixes[0]|);
      AtParts(data, pos, length + prefixes[0], WritePrefixes(prefixes[1..]));
      AtParts(data, pos, length, prefixes[0]);
      ReadSmallVInt(|prefixes[0]|, data, pos);
      SkipWrittenPrefixes(prefixes[1..], data, pos + |length| + |prefixes[0]|);
    }
  }

  lemma MarkerOfWrittenBlock(b: Block, data: seq<Byte>, fp: nat, dims: nat, ids: IdReader)
    requires ValidBlock(b, dims, ids) && At(data, fp, WriteBlock(b))
    ensures Marker(data, fp, dims, ids) == Ok(SignedByte(b.marker))
    ensures var m := Marker(data, fp, dims, ids).value; -128 <= m < 128 && (m - b.marker) % 256 == 0
  {
    hide DecodeVInt, Encode, WritePrefixes, SkipPrefixes;
    var count, prefixes := Encode(b.count), WritePrefixes(b.prefixes);
    AtParts(data, fp, count + b.ids + prefixes, [b.marker]);
    AtParts(data, fp, count + b.ids, prefixes);
    AtParts(data, fp, count, b.ids);
    ReadSmallVInt(b.count, data, fp);
    var p3 := fp + |count| + |b.ids| + |prefixes|;
    SkipWrittenPrefixes(b.prefixes, data, fp + |count| + |b.ids|);
    assert data[p3] == data[p3..p3 + 1][0];
  }

  /** From a written index and the blocks its pointers point at, the markers come out in
      left-to-right leaf order: first of the leaves numbered from the next power of two,
      then of those numbered from n. */
  lemma MarkersOfWrittenTree(
    t: Tree, n: nat, c: Config, after: seq<Byte>, blocks: seq<Block>, data: seq<Byte>, dims: nat, ids: IdReader)
    requires ValidConfig(c) && ValidTree(t, n, c) && |blocks| == 2 * n
    requires forall i :: n <= i < 2 * n ==>
               ValidBlock(blocks[i], dims, ids) && At(data, t.fps[i], WriteBlock(blocks[i]))
    ensures DeltasFit(t, n)
    ensures var order := Range(DoubledTo(1, n), 2 * n) + Range(n, DoubledTo(1, n));
            var found := LeafPointers(WriteIndex(t, n, c) + after, n, c);
            && found.Ok? && InTree(order, n)
            && Markers(data, found.value.0, dims, ids) == Ok(MarkersAt(blocks, order))
            && forall k :: 0 <= k < n ==>
                 var m := MarkersAt(blocks, order)[k];
                 -128 <= m < 128 && (m - blocks[order[k]].marker) % 256 == 0
  {
    hide LeafPointers, WriteIndex, LeafOrder, DoubledTo, SignedByte, ValidBlock, Markers, WriteBlock;
    ReadWrittenIndex(t, n, c, after);
    LeafOrderIsRotation(n);
    MarkersOfLeaves(t, n, blocks, data, dims, ids, LeafOrder(1, n));
    JavaBytes(blocks, LeafOrder(1, n));
  }

  lemma JavaBytes(blocks: seq<Block>, order: seq<nat>)
    requires forall k :: 0 <= k < |order| ==> order[k] < |blocks|
    ensures forall k :: 0 <= k < |order| ==>
              var m := MarkersAt(blocks, order)[k];
              -128 <= m < 128 && (m - blocks[order[k]].marker) % 256 == 0
  {
  }

  lemma {:induction false} MarkersOfLeaves(
    t: Tree, n: nat, blocks: seq<Block>, data: seq<Byte>, dims: nat, ids: IdReader, order: seq<nat>)
    requires Shape(t, n) && |blocks| == 2 * n && InTree(order, n)
    requires forall i :: n <= i < 2 * n ==>
               ValidBlock(blocks[i], dims, ids) && At(data, t.fps[i], WriteBlock(blocks[i]))
    ensures Markers(data, PointersOf(t, order, n), dims, ids) == Ok(MarkersAt(blocks, order))
    decreases |order|
  {
    hide Marker, ValidBlock, WriteBlock, At;
    if order != [] {
      var init, id := order[..|order| - 1], order[|order| - 1];
      MarkersOfLeaves(t, n, blocks, data, dims, ids, init);
      var fps := PointersOf(t, order, n);
      assert fps[..|fps| - 1] == PointersOf(t, init, n);
      MarkerOfWrittenBlock(blocks[id], data, t.fps[id], dims, ids);
      assert MarkersAt(blocks, order) == MarkersAt(blocks, init) + [SignedByte(blocks[id].marker)];
    }
  }
}
