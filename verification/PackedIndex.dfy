/** The packed BKD index and the walk over it in fixtures/src/CompressedDimSpy.java.

    A tree of n leaves is heap-numbered: node 1 is the root, node i has children 2i
    and 2i+1, and an id is a leaf exactly when it is at least n. An inner node is
    written as one split code, its raw suffix bytes, a skip hint when its left child
    is an inner node, the left subtree, the file-pointer delta of the right subtree,
    and the right subtree. */
module PackedIndex {
  import opened VarInt

  datatype Config = Config(numIndexDims: nat, bytesPerDim: nat)

  ghost predicate ValidConfig(c: Config) {
    c.numIndexDims >= 1 && c.bytesPerDim >= 1
  }

  // ---------------------------------------------------------------------------
  // Java arithmetic
  // ---------------------------------------------------------------------------

  const TWO31: int := 0x8000_0000
  const TWO32: int := 0x1_0000_0000
  const TWO63: int := 0x8000_0000_0000_0000
  const TWO64: int := 0x1_0000_0000_0000_0000

  /** The `int` whose 32 bits are those of `v`. */
  function ToInt(v: int): int {
    var u := v % TWO32;
    if u < TWO31 then u else u - TWO32
  }

  /** The `long` whose 64 bits are those of `v`. */
  function ToLong(v: int): int {
    var u := v % TWO64;
    if u < TWO63 then u else u - TWO64
  }

  /** Java's `/` and `%` truncate toward zero. */
  function Quotient(a: int, b: int): int
    requires b > 0
  {
    if a >= 0 then a / b else -(-a / b)
  }

  function Remainder(a: int, b: int): int
    requires b > 0
  {
    if a >= 0 then a % b else -(-a % b)
  }

  /** A long is in range and keeps the low 64 bits, an int the low 32. */
  lemma Wraps(v: int)
    ensures -0x8000_0000_0000_0000 <= ToLong(v) < 0x8000_0000_0000_0000
    ensures (ToLong(v) - v) % 0x1_0000_0000_0000_0000 == 0
    ensures -0x8000_0000 <= ToInt(v) < 0x8000_0000 && (ToInt(v) - v) % 0x1_0000_0000 == 0
  {
  }

  /** Quotient and remainder belong together, and the remainder has the sign of the dividend. */
  lemma Truncates(a: int, b: int)
    requires b > 0
    ensures a == b * Quotient(a, b) + Remainder(a, b)
    ensures if a >= 0 then 0 <= Remainder(a, b) < b else -b < Remainder(a, b) <= 0
  {
  }

  // ---------------------------------------------------------------------------
  // The input cursor
  // ---------------------------------------------------------------------------

  function DecodeVInt(data: seq<Byte>, pos: nat): (r: Result<(int, nat)>) {
    var (v, end) :- Decode(data, pos, VINT_BYTES);
    if v >= TWO32 then Err(TooLong) else Ok((ToInt(v), end))
  }

  function DecodeVLong(data: seq<Byte>, pos: nat): (r: Result<(int, nat)>) {
    var (v, end) :- Decode(data, pos, VLONG_BYTES);
    Ok((v, end))
  }

  function DecodeSkip(data: seq<Byte>, pos: nat, count: int): (r: Result<nat>) {
    if count < 0 then Err(NegativeSkip)
    else if pos + count > |data| then Err(Truncated)
    else Ok(pos + count)
  }

  class IndexInput {
    const data: seq<Byte>
    var pos: nat

    constructor (data: seq<Byte>)
      ensures this.data == data && pos == 0
    {
      this.data := data;
      pos := 0;
    }

    method ReadVInt() returns (r: Result<int>)
      modifies this
      ensures var d := DecodeVInt(data, old(pos));
              if d.Ok? then r == Ok(d.value.0) && pos == d.value.1 else r == Err(d.fault)
    {
      var d := ReadVarInt(data, pos, VINT_BYTES);
      if d.Err? {
        return Err(d.fault);
      }
      if d.value.0 >= TWO32 {
        return Err(TooLong);
      }
      pos := d.value.1;
      return Ok(ToInt(d.value.0));
    }

    method ReadVLong() returns (r: Result<int>)
      modifies this
      ensures var d := DecodeVLong(data, old(pos));
              if d.Ok? then r == Ok(d.value.0) && pos == d.value.1 else r == Err(d.fault)
    {
      var d := ReadVarInt(data, pos, VLONG_BYTES);
      if d.Err? {
        return Err(d.fault);
      }
      pos := d.value.1;
      return Ok(d.value.0);
    }

    method SkipBytes(count: int) returns (r: Result<int>)
      modifies this
      ensures var d := DecodeSkip(data, old(pos), count);
              if d.Ok? then r.Ok? && pos == d.value else r == Err(d.fault)
    {
      if count < 0 {
        return Err(NegativeSkip);
      }
      if pos + count > |data| {
        return Err(Truncated);
      }
      pos := pos + count;
      return Ok(count);
    }
  }

  // ---------------------------------------------------------------------------
  // The walk
  // ---------------------------------------------------------------------------

  /** The leaf pointers collected so far and where the cursor stands. */
  type Walked = Result<(seq<int>, nat)>

  /** How many bytes of the split value a code says are not shared with its prefix. */
  function SuffixLength(code: int, c: Config): int
    requires ValidConfig(c)
  {
    c.bytesPerDim - Remainder(Quotient(code, c.numIndexDims), 1 + c.bytesPerDim)
  }

  /** A code below zero takes bytes for a split value longer than a dimension. */
  lemma SuffixLengthExact(code: int, c: Config)
    requires ValidConfig(c)
    ensures code >= 0 ==> SuffixLength(code, c) == c.bytesPerDim - code / c.numIndexDims % (1 + c.bytesPerDim)
    ensures code < 0 ==> SuffixLength(code, c) == c.bytesPerDim + -code / c.numIndexDims % (1 + c.bytesPerDim)
  {
    var b := c.numIndexDims;
    Mirrored(code, b);
    Mirrored(Quotient(code, b), 1 + c.bytesPerDim);
    hide Quotient, Remainder;
  }

  lemma Mirrored(a: int, b: int)
    requires b > 0
    ensures a >= 0 ==> Quotient(a, b) == a / b >= 0 && Remainder(a, b) == a % b
    ensures a < 0 ==> Quotient(a, b) == -(-a / b) <= 0
    ensures a <= 0 ==> Remainder(a, b) == -(-a % b)
  {
  }

  /** The code, the raw suffix and the skip hint of an inner node: the position
      where its left subtree starts. */
  function SkipNodeHead(data: seq<Byte>, pos: nat, node: nat, n: nat, c: Config): (r: Result<nat>)
    requires ValidConfig(c)
  {
    var (code, p1) :- DecodeVInt(data, pos);
    var suffix := SuffixLength(code, c);
    var p2 :- if suffix > 0 then DecodeSkip(data, p1, suffix - 1) else Ok(p1);
    if 2 * node < n then
      var (_, p3) :- DecodeVInt(data, p2);
      Ok(p3)
    else Ok(p2)
  }

  /** A walk from `node` that has already collected `leaves`. */
  function Walk(data: seq<Byte>, pos: nat, node: nat, fp: int, n: nat, c: Config, leaves: seq<int>): (r: Walked)
    requires ValidConfig(c) && node >= 1
    decreases n - node
  {
    if node >= n then Ok((leaves + [fp], pos))
    else
      var p1 :- SkipNodeHead(data, pos, node, n, c);
      var (left, p2) :- Walk(data, p1, 2 * node, fp, n, c, leaves);
      var (delta, p3) :- DecodeVLong(data, p2);
      Walk(data, p3, 2 * node + 1, ToLong(fp + delta), n, c, left)
  }

  class LeafList {
    var items: seq<int>

    constructor ()
      ensures items == []
    {
      items := [];
    }
  }

  /** The part of `walk` before its first recursive call. */
  method ReadNodeHead(input: IndexInput, node: nat, n: nat, c: Config) returns (r: Result<int>)
    requires ValidConfig(c)
    modifies input
    ensures var d := SkipNodeHead(input.data, old(input.pos), node, n, c);
            if d.Ok? then r.Ok? && input.pos == d.value else r == Err(d.fault)
  {
    r := input.ReadVInt();
    if r.Err? { return; }
    var suffix := SuffixLength(r.value, c);
    if suffix > 0 {
      r := input.SkipBytes(suffix - 1);
      if r.Err? { return; }
    }
    if node * 2 < n {
      r := input.ReadVInt(); // the skip hint
    }
  }

  /** `walk`: the recursion over the shared cursor and the shared leaf list. */
  method WalkInto(input: IndexInput, node: nat, fp: int, n: nat, c: Config, leaves: LeafList)
    returns (r: Result<int>)
    requires ValidConfig(c) && node >= 1
    modifies input, leaves
    ensures var w := Walk(input.data, old(input.pos), node, fp, n, c, old(leaves.items));
            if w.Ok? then r.Ok? && leaves.items == w.value.0 && input.pos == w.value.1
            else r == Err(w.fault)
    decreases n - node
  {
    hide SkipNodeHead, DecodeVLong, ToLong;
    if node >= n {
      leaves.items := leaves.items + [fp];
      return Ok(0);
    }
    r := ReadNodeHead(input, node, n, c);
    if r.Err? { return; }
    r := WalkInto(input, node * 2, fp, n, c, leaves);
    if r.Err? { return; }
    r := input.ReadVLong();
    if r.Err? { return; }
    r := WalkInto(input, node * 2 + 1, ToLong(fp + r.value), n, c, leaves);
  }

  /** The head of `leafCompressedDims`: the root pointer, then the walk from node 1. */
  function LeafPointers(data: seq<Byte>, n: nat, c: Config): (r: Walked)
    requires ValidConfig(c)
  {
    var (rootFp, pos) :- DecodeVLong(data, 0);
    Walk(data, pos, 1, rootFp, n, c, [])
  }

  /** Whatever the bytes, the pointers are Java longs. */
  lemma {:induction false} PointersAreLongs(
    data: seq<Byte>, pos: nat, node: nat, fp: int, n: nat, c: Config, leaves: seq<int>)
    requires ValidConfig(c) && node >= 1 && JavaLongs(leaves) && JavaLongs([fp])
    ensures Walk(data, pos, node, fp, n, c, leaves).Ok? ==> JavaLongs(Walk(data, pos, node, fp, n, c, leaves).value.0)
    decreases n - node
  {
    hide SkipNodeHead, DecodeVLong, ToLong;
    if node < n {
      var p1 := SkipNodeHead(data, pos, node, n, c);
      if p1.Ok? {
        PointersAreLongs(data, p1.value, 2 * node, fp, n, c, leaves);
        var left := Walk(data, p1.value, 2 * node, fp, n, c, leaves);
        if left.Ok? {
          var delta := DecodeVLong(data, left.value.1);
          if delta.Ok? {
            Wraps(fp + delta.value.0);
            PointersAreLongs(
              data, delta.value.1, 2 * node + 1, ToLong(fp + delta.value.0), n, c, left.value.0);
          }
        }
      }
    }
  }

  ghost predicate JavaLongs(vs: seq<int>) {
    forall k :: 0 <= k < |vs| ==> -0x8000_0000_0000_0000 <= vs[k] < 0x8000_0000_0000_0000
  }

  method ReadLeafPointers(data: seq<Byte>, n: nat, c: Config) returns (r: Result<seq<int>>)
    requires ValidConfig(c)
    ensures var w := LeafPointers(data, n, c);
            r == if w.Ok? then Ok(w.value.0) else Err(w.fault)
  {
    var input := new IndexInput(data);
    var rootFp := input.ReadVLong();
    if rootFp.Err? {
      return Err(rootFp.fault);
    }
    var leaves := new LeafList();
    var walked := WalkInto(input, 1, rootFp.value, n, c, leaves);
    if walked.Err? {
      return Err(walked.fault);
    }
    return Ok(leaves.items);
  }

  // ---------------------------------------------------------------------------
  // Leaf order
  // ---------------------------------------------------------------------------

  /** The leaf ids below `node`, left to right. */
  function LeafOrder(node: nat, n: nat): (ids: seq<nat>)
    requires node >= 1
    ensures |ids| >= 1
    decreases n - node
  {
    if node >= n then [node] else LeafOrder(2 * node, n) + LeafOrder(2 * node + 1, n)
  }

  function Range(a: nat, b: nat): (s: seq<nat>)
    ensures |s| == if a <= b then b - a else 0
    ensures forall k :: 0 <= k < |s| ==> s[k] == a + k
  {
    seq(if a <= b then b - a else 0, k requires 0 <= k => a + k)
  }

  /** The leaves below the nodes a, a+1, .., b-1 of one level. */
  function LevelOrder(a: nat, b: nat, n: nat): (ids: seq<nat>)
    requires a >= 1
    decreases b - a
  {
    if a >= b then [] else LeafOrder(a, n) + LevelOrder(a + 1, b, n)
  }

  /** `p` doubled until it is at least n; from 1, the least power of two that is. */
  function DoubledTo(p: nat, n: nat): (top: nat)
    requires 1 <= p <= n
    ensures n <= top < 2 * n
    decreases n - p
  {
    if p == n then p else if 2 * p >= n then 2 * p else DoubledTo(2 * p, n)
  }

  lemma {:induction false} LevelSplit(a: nat, m: nat, b: nat, n: nat)
    requires 1 <= a <= m <= b
    ensures LevelOrder(a, b, n) == LevelOrder(a, m, n) + LevelOrder(m, b, n)
    decreases m - a
  {
    if a < m {
      LevelSplit(a + 1, m, b, n);
    }
  }

  /** A level of inner nodes has the leaves of the next level. */
  lemma {:induction false} LevelDown(a: nat, b: nat, n: nat)
    requires 1 <= a <= b <= n
    ensures LevelOrder(a, b, n) == LevelOrder(2 * a, 2 * b, n)
    decreases b - a
  {
    if a < b {
      LevelDown(a + 1, b, n);
      LevelSplit(2 * a, 2 * a + 2, 2 * b, n);
      assert LevelOrder(2 * a + 1, 2 * a + 2, n) == LeafOrder(2 * a + 1, n) + LevelOrder(2 * a + 2, 2 * a + 2, n);
      assert LevelOrder(2 * a, 2 * a + 2, n) == LeafOrder(2 * a, n) + LevelOrder(2 * a + 1, 2 * a + 2, n);
    }
  }

  lemma {:induction false} LevelOfLeaves(a: nat, b: nat, n: nat)
    requires a >= 1 && n <= a <= b
    ensures LevelOrder(a, b, n) == Range(a, b)
    decreases b - a
  {
    if a < b {
      LevelOfLeaves(a + 1, b, n);
      assert Range(a, b) == [a] + Range(a + 1, b);
    }
  }

  /** Level by level from the one starting at `p`, itself a power of two times 1. */
  lemma {:induction false} LevelsBelow(p: nat, n: nat)
    requires 1 <= p <= n
    ensures LevelOrder(p, 2 * p, n) == Range(DoubledTo(p, n), 2 * n) + Range(n, DoubledTo(p, n))
    decreases n - p
  {
    if p == n {
      LevelOfLeaves(p, 2 * p, n);
    } else if 2 * p >= n {
      LevelSplit(p, n, 2 * p, n);
      LevelDown(p, n, n);
      LevelOfLeaves(2 * p, 2 * n, n);
      LevelOfLeaves(n, 2 * p, n);
    } else {
      LevelDown(p, 2 * p, n);
      LevelsBelow(2 * p, n);
    }
  }

  /** Left to right, the leaves are the deep ones, numbered from the next power of
      two, and then the shallow ones, numbered from n: a rotation of n .. 2n-1. */
  lemma LeafOrderIsRotation(n: nat)
    requires n >= 1
    ensures LeafOrder(1, n) == Range(DoubledTo(1, n), 2 * n) + Range(n, DoubledTo(1, n))
  {
    LevelsBelow(1, n);
    assert LevelOrder(1, 2, n) == LeafOrder(1, n) + LevelOrder(2, 2, n);
  }

  /** So every leaf id of n .. 2n-1 is visited, and none twice. */
  lemma LeafOrderVisitsEachOnce(n: nat)
    requires n >= 1
    ensures |LeafOrder(1, n)| == n
    ensures forall id :: id in LeafOrder(1, n) <==> n <= id < 2 * n
    ensures forall j, k :: 0 <= j < k < n ==> LeafOrder(1, n)[j] != LeafOrder(1, n)[k]
  {
    LeafOrderIsRotation(n);
    var top := DoubledTo(1, n);
    var ids := LeafOrder(1, n);
    forall id | n <= id < 2 * n
      ensures id in ids
    {
      assert ids[if id >= top then id - top else 2 * n - top + (id - n)] == id;
    }
  }

  // ---------------------------------------------------------------------------
  // The encoding
  // ---------------------------------------------------------------------------

  /** What an inner node holds besides its subtrees. The hint is whatever the
      writer put there: the walk never uses it. */
  datatype Split = Split(dim: nat, prefix: nat, delta: nat, suffix: seq<Byte>, hint: nat)

  /** A tree: `splits[i]` for the inner nodes 1 .. n-1 and `fps[i]` for the leaves n .. 2n-1. */
  datatype Tree = Tree(splits: seq<Split>, fps: seq<nat>)

  function SplitCode(s: Split, c: Config): nat {
    (s.delta * (1 + c.bytesPerDim) + s.prefix) * c.numIndexDims + s.dim
  }

  ghost predicate ValidSplit(s: Split, c: Config) {
    && s.dim < c.numIndexDims
    && s.prefix <= c.bytesPerDim
    && SplitCode(s, c) < TWO31
    && |s.suffix| == (if s.prefix < c.bytesPerDim then c.bytesPerDim - s.prefix - 1 else 0)
    && s.hint < TWO31
  }

  ghost predicate Shape(t: Tree, n: nat) {
    n >= 1 && |t.splits| == n && |t.fps| == 2 * n
  }

  /** The file pointer of a subtree is that of its leftmost leaf. */
  function Pointer(t: Tree, node: nat, n: nat): nat
    requires Shape(t, n) && 1 <= node < 2 * n
    decreases 2 * n - node
  {
    if node >= n then t.fps[node] else Pointer(t, 2 * node, n)
  }

  /** Splits fit their configuration, and file pointers are longs that never
      decrease from left to right. */
  ghost predicate ValidTree(t: Tree, n: nat, c: Config) {
    && Shape(t, n)
    && (forall i :: 1 <= i < n ==> ValidSplit(t.splits[i], c))
    && (forall i :: n <= i < 2 * n ==> t.fps[i] < TWO63)
    && LeftToRight(t, n)
  }

  ghost predicate LeftToRight(t: Tree, n: nat)
    requires Shape(t, n)
  {
    var ids := LeafOrder(1, n);
    LeafOrderVisitsEachOnce(n);
    assert forall k :: 0 <= k < n ==> ids[k] in ids;
    forall j, k :: 0 <= j < k < n ==> t.fps[ids[j]] <= t.fps[ids[k]]
  }

  /** No right subtree starts before its left sibling, so every delta can be written. */
  ghost predicate DeltasFit(t: Tree, n: nat)
    requires Shape(t, n)
  {
    forall i :: 1 <= i < n ==> DeltaFits(t, i, n)
  }

  ghost predicate DeltaFits(t: Tree, node: nat, n: nat)
    requires Shape(t, n) && 1 <= node < n
  {
    Pointer(t, 2 * node, n) <= Pointer(t, 2 * node + 1, n)
  }

  function WriteHead(s: Split, innerLeft: bool, c: Config): seq<Byte> {
    Encode(SplitCode(s, c)) + s.suffix + (if innerLeft then Encode(s.hint) else [])
  }

  function WriteNode(t: Tree, node: nat, n: nat, c: Config): (bytes: seq<Byte>)
    requires Shape(t, n) && DeltasFit(t, n) && 1 <= node < 2 * n
    decreases n - node
  {
    if node >= n then []
    else
      assert DeltaFits(t, node, n);
      var s := t.splits[node];
      WriteHead(s, 2 * node < n, c)
      + WriteNode(t, 2 * node, n, c)
      + Encode(Pointer(t, 2 * node + 1, n) - Pointer(t, 2 * node, n))
      + WriteNode(t, 2 * node + 1, n, c)
  }

  /** The whole packed index. */
  function WriteIndex(t: Tree, n: nat, c: Config): seq<Byte>
    requires Shape(t, n) && DeltasFit(t, n)
  {
    Encode(Pointer(t, 1, n)) + WriteNode(t, 1, n, c)
  }

  // ---------------------------------------------------------------------------
  // The walk undoes the encoding
  // ---------------------------------------------------------------------------

  /** Every subtree's leaves stand together in the whole order. */
  lemma {:induction false} SubtreeStandsTogether(node: nat, n: nat)
    returns (before: seq<nat>, after: seq<nat>)
    requires 1 <= node < 2 * n
    ensures LeafOrder(1, n) == before + LeafOrder(node, n) + after
    decreases node
  {
    if node == 1 {
      before, after := [], [];
    } else {
      var up := node / 2;
      before, after := SubtreeStandsTogether(up, n);
      var left, right := LeafOrder(2 * up, n), LeafOrder(2 * up + 1, n);
      assert before + (left + right) + after == (before + left) + right + after == before + left + (right + after);
      if node % 2 == 0 {
        after := right + after;
      } else {
        before := before + left;
      }
    }
  }

  lemma {:induction false} PointerIsFirstLeaf(t: Tree, node: nat, n: nat)
    requires Shape(t, n) && 1 <= node < 2 * n
    ensures n <= LeafOrder(node, n)[0] < 2 * n && Pointer(t, node, n) == t.fps[LeafOrder(node, n)[0]]
    decreases 2 * n - node
  {
    if node < n {
      PointerIsFirstLeaf(t, 2 * node, n);
    }
  }

  lemma LeftToRightFits(t: Tree, n: nat)
    requires Shape(t, n) && LeftToRight(t, n)
    ensures DeltasFit(t, n)
  {
    LeafOrderVisitsEachOnce(n);
    forall i | 1 <= i < n
      ensures DeltaFits(t, i, n)
    {
      PointerIsFirstLeaf(t, 2 * i, n);
      PointerIsFirstLeaf(t, 2 * i + 1, n);
      var before, after := SubtreeStandsTogether(i, n);
      var ids, left, right := LeafOrder(1, n), LeafOrder(2 * i, n), LeafOrder(2 * i + 1, n);
      assert ids == before + (left + right) + after;
      assert ids[|before|] == left[0] && ids[|before| + |left|] == right[0];
    }
  }

  /** The mixed-radix code gives back its prefix. */
  lemma PrefixFromCode(s: Split, c: Config)
    requires ValidConfig(c) && s.dim < c.numIndexDims && s.prefix <= c.bytesPerDim
    ensures Remainder(Quotient(SplitCode(s, c), c.numIndexDims), 1 + c.bytesPerDim) == s.prefix
  {
    var radix := 1 + c.bytesPerDim;
    var high := s.delta * radix + s.prefix;
    DivideDigit(high, c.numIndexDims, s.dim);
    DivideDigit(s.delta, radix, s.prefix);
  }

  lemma DivideDigit(q: nat, b: nat, r: nat)
    requires r < b
    ensures (q * b + r) / b == q
  {
    var x := q * b + r;
    assert x == b * (x / b) + x % b;
    var d := x / b - q;
    assert b * d == r - x % b;
    assert d >= 1 ==> b * d >= b;
    assert d <= -1 ==> b * d + b <= 0;
  }

  lemma Widths()
    ensures Pow128(VINT_BYTES) == 0x8_0000_0000 && Pow128(VLONG_BYTES) == TWO63
  {
    assert Pow128(3) == 0x20_0000;
    assert Pow128(6) == 0x20_0000 * 0x20_0000;
  }

  lemma ReadSmallVInt(v: nat, data: seq<Byte>, pos: nat)
    requires v < TWO31 && At(data, pos, Encode(v))
    ensures DecodeVInt(data, pos) == Ok((v, pos + |Encode(v)|))
  {
    Widths();
    DecodeEncode(v, data, pos, VINT_BYTES);
  }

  /** The walk's reading of a node head is exact. */
  lemma SkipWrittenHead(s: Split, node: nat, n: nat, c: Config, data: seq<Byte>, pos: nat)
    requires ValidConfig(c) && ValidSplit(s, c)
    requires At(data, pos, WriteHead(s, 2 * node < n, c))
    ensures SkipNodeHead(data, pos, node, n, c) == Ok(pos + |WriteHead(s, 2 * node < n, c)|)
  {
    hide Encode, DecodeVInt, SplitCode, Quotient, Remainder;
    var code := Encode(SplitCode(s, c));
    var hint := if 2 * node < n then Encode(s.hint) else [];
    AtParts(data, pos, code + s.suffix, hint);
    AtParts(data, pos, code, s.suffix);
    ReadSmallVInt(SplitCode(s, c), data, pos);
    PrefixFromCode(s, c);
    assert SuffixLength(SplitCode(s, c), c) == c.bytesPerDim - s.prefix;
    if 2 * node < n {
      ReadSmallVInt(s.hint, data, pos + |code| + |s.suffix|);
    }
  }

  ghost predicate InTree(ids: seq<nat>, n: nat) {
    forall k :: 0 <= k < |ids| ==> n <= ids[k] < 2 * n
  }

  /** The pointers of the given leaves. */
  function PointersOf(t: Tree, ids: seq<nat>, n: nat): (fps: seq<int>)
    requires Shape(t, n) && InTree(ids, n)
    ensures |fps| == |ids| && forall k :: 0 <= k < |ids| ==> fps[k] == t.fps[ids[k]]
  {
    seq(|ids|, k requires 0 <= k < |ids| => t.fps[ids[k]])
  }

  lemma {:induction false} LeavesInTree(node: nat, n: nat)
    requires 1 <= node < 2 * n
    ensures InTree(LeafOrder(node, n), n)
    decreases 2 * n - node
  {
    if node < n {
      LeavesInTree(2 * node, n);
      LeavesInTree(2 * node + 1, n);
    }
  }

  /** Walking a written subtree, wherever it stands and whatever follows: the leaf
      pointers from left to right, and the cursor exactly behind it. */
  lemma {:induction false} WalkWrittenNode(
    t: Tree, node: nat, n: nat, c: Config, data: seq<Byte>, pos: nat, leaves: seq<int>)
    requires ValidConfig(c) && ValidTree(t, n, c) && DeltasFit(t, n) && 1 <= node < 2 * n
    requires At(data, pos, WriteNode(t, node, n, c))
    ensures InTree(LeafOrder(node, n), n)
    ensures Walk(data, pos, node, Pointer(t, node, n), n, c, leaves)
         == Ok((leaves + PointersOf(t, LeafOrder(node, n), n), pos + |WriteNode(t, node, n, c)|))
    decreases 2 * n - node
  {
    hide Walk, SkipNodeHead, DecodeVLong, ToLong, WriteNode, LeafOrder, ValidSplit, At, PointersOf, WriteHead, Encode;
    LeavesInTree(node, n);
    var fp := Pointer(t, node, n);
    if node >= n {
      LeafParts(t, node, n, c);
      WalkLeaf(data, pos, node, fp, n, c, leaves);
    } else {
      var p1, p2, p3 := InnerParts(t, node, n, c, data, pos);
      var fpsLeft := PointersOf(t, LeafOrder(2 * node, n), n);
      SkipWrittenHead(t.splits[node], node, n, c, data, pos);
      WalkWrittenNode(t, 2 * node, n, c, data, p1, leaves);
      ReadWrittenDelta(t, node, n, c, data, p2);
      WalkInner(data, pos, node, fp, n, c, leaves);
      WalkWrittenNode(t, 2 * node + 1, n, c, data, p3, leaves + fpsLeft);
      PointersAppend(t, LeafOrder(2 * node, n), LeafOrder(2 * node + 1, n), n);
      assert leaves + fpsLeft + PointersOf(t, LeafOrder(2 * node + 1, n), n)
          == leaves + (fpsLeft + PointersOf(t, LeafOrder(2 * node + 1, n), n));
    }
  }

  lemma PointersAppend(t: Tree, a: seq<nat>, b: seq<nat>, n: nat)
    requires Shape(t, n) && InTree(a, n) && InTree(b, n)
    ensures InTree(a + b, n) && PointersOf(t, a + b, n) == PointersOf(t, a, n) + PointersOf(t, b, n)
  {
  }

  lemma LeafParts(t: Tree, node: nat, n: nat, c: Config)
    requires Shape(t, n) && DeltasFit(t, n) && n <= node < 2 * n
    ensures WriteNode(t, node, n, c) == [] && LeafOrder(node, n) == [node]
    ensures PointersOf(t, [node], n) == [Pointer(t, node, n)]
  {
  }

  /** Where the four parts of a written inner node stand, and its leaves. */
  lemma InnerParts(t: Tree, node: nat, n: nat, c: Config, data: seq<Byte>, pos: nat)
    returns (p1: nat, p2: nat, p3: nat)
    requires Shape(t, n) && DeltasFit(t, n) && 1 <= node < n
    requires At(data, pos, WriteNode(t, node, n, c))
    ensures Pointer(t, node, n) == Pointer(t, 2 * node, n) <= Pointer(t, 2 * node + 1, n)
    ensures var delta := Encode(Pointer(t, 2 * node + 1, n) - Pointer(t, node, n));
            && At(data, pos, WriteHead(t.splits[node], 2 * node < n, c))
            && p1 == pos + |WriteHead(t.splits[node], 2 * node < n, c)|
            && At(data, p1, WriteNode(t, 2 * node, n, c))
            && p2 == p1 + |WriteNode(t, 2 * node, n, c)|
            && At(data, p2, delta)
            && p3 == p2 + |delta|
            && At(data, p3, WriteNode(t, 2 * node + 1, n, c))
            && pos + |WriteNode(t, node, n, c)| == p3 + |WriteNode(t, 2 * node + 1, n, c)|
    ensures InTree(LeafOrder(2 * node, n), n) && InTree(LeafOrder(2 * node + 1, n), n)
    ensures LeafOrder(node, n) == LeafOrder(2 * node, n) + LeafOrder(2 * node + 1, n)
  {
    hide At, WriteHead, Encode;
    assert DeltaFits(t, node, n);
    LeavesInTree(2 * node, n);
    LeavesInTree(2 * node + 1, n);
    var head := WriteHead(t.splits[node], 2 * node < n, c);
    var left, right := WriteNode(t, 2 * node, n, c), WriteNode(t, 2 * node + 1, n, c);
    var delta := Encode(Pointer(t, 2 * node + 1, n) - Pointer(t, node, n));
    AtParts(data, pos, head + left + delta, right);
    AtParts(data, pos, head + left, delta);
    AtParts(data, pos, head, left);
    p1 := pos + |head|;
    p2 := p1 + |left|;
    p3 := p2 + |delta|;
  }

  lemma WalkLeaf(data: seq<Byte>, pos: nat, node: nat, fp: int, n: nat, c: Config, leaves: seq<int>)
    requires ValidConfig(c) && 1 <= node && n <= node
    ensures Walk(data, pos, node, fp, n, c, leaves) == Ok((leaves + [fp], pos))
  {
  }

  /** One inner node of a walk whose first three steps succeed. */
  lemma WalkInner(data: seq<Byte>, pos: nat, node: nat, fp: int, n: nat, c: Config, leaves: seq<int>)
    requires ValidConfig(c) && 1 <= node < n
    ensures var head := SkipNodeHead(data, pos, node, n, c);
            head.Ok? ==>
              var left := Walk(data, head.value, 2 * node, fp, n, c, leaves);
              left.Ok? ==>
                var delta := DecodeVLong(data, left.value.1);
                delta.Ok? ==>
                  Walk(data, pos, node, fp, n, c, leaves) ==
                  Walk(data, delta.value.1, 2 * node + 1, ToLong(fp + delta.value.0), n, c, left.value.0)
  {
    hide SkipNodeHead, DecodeVLong, ToLong;
  }

  lemma ReadWrittenDelta(t: Tree, node: nat, n: nat, c: Config, data: seq<Byte>, pos: nat)
    requires ValidTree(t, n, c) && DeltasFit(t, n) && 1 <= node < n
    requires Pointer(t, node, n) <= Pointer(t, 2 * node + 1, n)
    requires At(data, pos, Encode(Pointer(t, 2 * node + 1, n) - Pointer(t, node, n)))
    ensures var delta := Pointer(t, 2 * node + 1, n) - Pointer(t, node, n);
            && DecodeVLong(data, pos) == Ok((delta, pos + |Encode(delta)|))
            && ToLong(Pointer(t, node, n) + delta) == Pointer(t, 2 * node + 1, n)
  {
    hide LeafOrder, Pointer, Encode;
    PointerIsFirstLeaf(t, 2 * node + 1, n);
    Widths();
    DecodeEncode(Pointer(t, 2 * node + 1, n) - Pointer(t, node, n), data, pos, VLONG_BYTES);
  }

  /** Reading a written index gives the pointers of all leaves in left-to-right
      order and uses exactly its bytes. */
  lemma ReadWrittenIndex(t: Tree, n: nat, c: Config, after: seq<Byte>)
    requires ValidConfig(c) && ValidTree(t, n, c)
    ensures DeltasFit(t, n) && InTree(LeafOrder(1, n), n)
    ensures LeafPointers(WriteIndex(t, n, c) + after, n, c)
         == Ok((PointersOf(t, LeafOrder(1, n), n), |WriteIndex(t, n, c)|))
  {
    hide Walk, WriteNode, Pointer, Encode, Decode;
    LeftToRightFits(t, n);
    LeavesInTree(1, n);
    var root, bytes := Encode(Pointer(t, 1, n)), WriteNode(t, 1, n, c);
    var data := WriteIndex(t, n, c) + after;
    PointerIsFirstLeaf(t, 1, n);
    Widths();
    assert data[0..|root| + |bytes|] == root + bytes;
    AtParts(data, 0, root, bytes);
    DecodeEncode(Pointer(t, 1, n), data, 0, VLONG_BYTES);
    WalkWrittenNode(t, 1, n, c, data, |root|, []);
    assert [] + PointersOf(t, LeafOrder(1, n), n) == PointersOf(t, LeafOrder(1, n), n);
  }
}
