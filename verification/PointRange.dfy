/** The point-range visitors of fixtures/src/AppendPointEstimateManifest.java: a box over
    packed points, the relation of a cell to it, and the exact count a traversal driven by
    that relation arrives at. */
module PointRange {
  import opened VarInt
  import opened TextOrder

  datatype Relation = Outside | Inside | Crosses

  /** The box: packed bounds, indexed dimensions and bytes per dimension. */
  datatype Box = Box(lower: Text, upper: Text, dims: nat, width: nat)

  /** A packed value has at least its indexed dimensions. */
  predicate Packed(v: Text, b: Box) {
    |v| >= b.dims * b.width
  }

  ghost predicate ValidBox(b: Box) {
    Packed(b.lower, b) && Packed(b.upper, b)
  }

  lemma {:induction false} Room(dim: nat, dims: nat, width: nat)
    requires dim < dims
    ensures 0 <= dim * width <= (dim + 1) * width == dim * width + width <= dims * width
    decreases dims
  {
    if dim < dims - 1 {
      Room(dim, dims - 1, width);
      assert dims * width == (dims - 1) * width + width;
    }
  }

  /** One dimension of a packed value. */
  function Dim(v: Text, b: Box, dim: nat): Text
    requires Packed(v, b) && dim < b.dims
  {
    Room(dim, b.dims, b.width);
    v[dim * b.width..dim * b.width + b.width]
  }

  /** Unsigned byte-wise order, which is total. */
  predicate AtMost(x: Text, y: Text) {
    !Less(y, x)
  }

  lemma AtMostTransitive(x: Text, y: Text, z: Text)
    requires AtMost(x, y) && AtMost(y, z)
    ensures AtMost(x, z)
  {
    LessTotal(x, y);
    LessTotal(y, z);
    if x != y && y != z {
      LessTransitive(x, y, z);
      if Less(z, x) {
        LessTransitive(x, z, x);
        LessIrreflexive(x);
      }
    }
  }

  /** The point lies in the box on every indexed dimension. */
  ghost predicate InBox(v: Text, b: Box)
    requires ValidBox(b) && Packed(v, b)
  {
    forall d :: 0 <= d < b.dims ==> AtMost(Dim(b.lower, b, d), Dim(v, b, d)) && AtMost(Dim(v, b, d), Dim(b.upper, b, d))
  }

  /** Every indexed dimension of v is between those of min and max. */
  ghost predicate Between(v: Text, min: Text, max: Text, b: Box)
    requires Packed(v, b) && Packed(min, b) && Packed(max, b)
  {
    forall d :: 0 <= d < b.dims ==> AtMost(Dim(min, b, d), Dim(v, b, d)) && AtMost(Dim(v, b, d), Dim(max, b, d))
  }

  // ---------------------------------------------------------------------------
  // Cells
  // ---------------------------------------------------------------------------

  /** Points with their documents, or two halves. */
  datatype Cell =
    | Points(min: Text, max: Text, docs: seq<int>, values: seq<Text>)
    | Split(min: Text, max: Text, left: Cell, right: Cell)

  function ValuesOf(c: Cell): seq<Text> {
    match c
    case Points(_, _, _, values) => values
    case Split(_, _, left, right) => ValuesOf(left) + ValuesOf(right)
  }

  function DocsOf(c: Cell): seq<int> {
    match c
    case Points(_, _, docs, _) => docs
    case Split(_, _, left, right) => DocsOf(left) + DocsOf(right)
  }

  lemma {:induction false} DocPerValue(c: Cell, b: Box)
    requires Sound(c, b)
    ensures |DocsOf(c)| == |ValuesOf(c)|
    decreases c
  {
    if c.Split? {
      DocPerValue(c.left, b);
      DocPerValue(c.right, b);
    }
  }

  /** Bounds contain the points below them, all the way down. */
  ghost predicate Sound(c: Cell, b: Box) {
    && Packed(c.min, b) && Packed(c.max, b)
    && (forall k :: 0 <= k < |ValuesOf(c)| ==> Packed(ValuesOf(c)[k], b) && Between(ValuesOf(c)[k], c.min, c.max, b))
    && (c.Points? ==> |c.docs| == |c.values|)
    && (c.Split? ==> Sound(c.left, b) && Sound(c.right, b))
  }

  /** How many of the values lie in the box. */
  ghost function CountIn(values: seq<Text>, b: Box): (n: nat)
    requires ValidBox(b) && forall k :: 0 <= k < |values| ==> Packed(values[k], b)
    ensures n <= |values|
  {
    if values == [] then 0
    else CountIn(values[..|values| - 1], b) + if InBox(values[|values| - 1], b) then 1 else 0
  }

  lemma {:induction false} CountAppend(x: seq<Text>, y: seq<Text>, b: Box)
    requires ValidBox(b)
    requires forall k :: 0 <= k < |x| ==> Packed(x[k], b)
    requires forall k :: 0 <= k < |y| ==> Packed(y[k], b)
    ensures CountIn(x + y, b) == CountIn(x, b) + CountIn(y, b)
    decreases |y|
  {
    hide InBox;
    if y == [] {
      assert x + y == x;
    } else {
      assert (x + y)[..|x + y| - 1] == x + y[..|y| - 1];
      CountAppend(x, y[..|y| - 1], b);
    }
  }

  lemma {:induction false} CountAll(values: seq<Text>, b: Box)
    requires ValidBox(b) && forall k :: 0 <= k < |values| ==> Packed(values[k], b) && InBox(values[k], b)
    ensures CountIn(values, b) == |values|
    decreases |values|
  {
    hide InBox;
    if values != [] {
      CountAll(values[..|values| - 1], b);
    }
  }

  lemma {:induction false} CountNone(values: seq<Text>, b: Box)
    requires ValidBox(b) && forall k :: 0 <= k < |values| ==> Packed(values[k], b) && !InBox(values[k], b)
    ensures CountIn(values, b) == 0
    decreases |values|
  {
    hide InBox;
    if values != [] {
      CountNone(values[..|values| - 1], b);
    }
  }

  // ---------------------------------------------------------------------------
  // The relation
  // ---------------------------------------------------------------------------

  ghost predicate Apart(min: Text, max: Text, b: Box, d: nat)
    requires ValidBox(b) && Packed(min, b) && Packed(max, b) && d < b.dims
  {
    Less(Dim(b.upper, b, d), Dim(min, b, d)) || Less(Dim(max, b, d), Dim(b.lower, b, d))
  }

  ghost predicate Contained(min: Text, max: Text, b: Box, d: nat)
    requires ValidBox(b) && Packed(min, b) && Packed(max, b) && d < b.dims
  {
    AtMost(Dim(b.lower, b, d), Dim(min, b, d)) && AtMost(Dim(max, b, d), Dim(b.upper, b, d))
  }

  /** `compare`: outside when some dimension is apart, inside when every one is contained. */
  method Compare(min: Text, max: Text, b: Box) returns (r: Relation)
    requires ValidBox(b) && Packed(min, b) && Packed(max, b)
    ensures r.Outside? <==> exists d :: 0 <= d < b.dims && Apart(min, max, b, d)
    ensures r.Inside? <==> forall d :: 0 <= d < b.dims ==> !Apart(min, max, b, d) && Contained(min, max, b, d)
  {
    hide Less;
    var crosses := false;
    var offset := 0;
    for dim := 0 to b.dims
      invariant offset == dim * b.width
      invariant forall d :: 0 <= d < dim ==> !Apart(min, max, b, d)
      invariant crosses <==> exists d :: 0 <= d < dim && !Contained(min, max, b, d)
    {
      Room(dim, b.dims, b.width);
      var end := offset + b.width;
      var lo, hi := b.lower[offset..end], b.upper[offset..end];
      if Less(hi, min[offset..end]) || Less(max[offset..end], lo) {
        assert Apart(min, max, b, dim);
        return Outside;
      }
      if !crosses {
        crosses := Less(min[offset..end], lo) || Less(hi, max[offset..end]);
        assert crosses <==> !Contained(min, max, b, dim);
      }
      offset := end;
    }
    return if crosses then Crosses else Inside;
  }

  lemma ApartExcludes(v: Text, min: Text, max: Text, b: Box, d: nat)
    requires ValidBox(b) && Packed(v, b) && Packed(min, b) && Packed(max, b) && d < b.dims
    ensures Between(v, min, max, b) && Apart(min, max, b, d) ==> !InBox(v, b)
  {
    hide Less;
    if Between(v, min, max, b) && Apart(min, max, b, d) && InBox(v, b) {
      AtMostTransitive(Dim(min, b, d), Dim(v, b, d), Dim(b.upper, b, d));
      AtMostTransitive(Dim(b.lower, b, d), Dim(v, b, d), Dim(max, b, d));
      assert false;
    }
  }

  lemma ContainedIncludes(v: Text, min: Text, max: Text, b: Box)
    requires ValidBox(b) && Packed(v, b) && Packed(min, b) && Packed(max, b)
    requires Between(v, min, max, b) && forall d :: 0 <= d < b.dims ==> Contained(min, max, b, d)
    ensures InBox(v, b)
  {
    hide Less;
    forall d | 0 <= d < b.dims
      ensures AtMost(Dim(b.lower, b, d), Dim(v, b, d)) && AtMost(Dim(v, b, d), Dim(b.upper, b, d))
    {
      assert Contained(min, max, b, d);
      AtMostTransitive(Dim(b.lower, b, d), Dim(min, b, d), Dim(v, b, d));
      AtMostTransitive(Dim(v, b, d), Dim(max, b, d), Dim(b.upper, b, d));
    }
  }

  // ---------------------------------------------------------------------------
  // Counting
  // ---------------------------------------------------------------------------

  class CountingVisitor {
    const box: Box
    var count: nat

    constructor (box: Box)
      ensures this.box == box && count == 0
    {
      this.box, count := box, 0;
    }

    /** `visit(docID)`: the cell was inside. */
    method VisitDoc(doc: int)
      modifies this
      ensures count == old(count) + 1
    {
      count := count + 1;
    }

    /** `visit(docID, packedValue)`: counts the point exactly when it lies in the box. */
    method Visit(doc: int, value: Text)
      requires ValidBox(box) && Packed(value, box)
      modifies this
      ensures count == old(count) + if InBox(value, box) then 1 else 0
    {
      hide Less;
      var offset := 0;
      for dim := 0 to box.dims
        invariant offset == dim * box.width && count == old(count)
        invariant forall d :: 0 <= d < dim ==>
                    && AtMost(Dim(box.lower, box, d), Dim(value, box, d))
                    && AtMost(Dim(value, box, d), Dim(box.upper, box, d))
      {
        Room(dim, box.dims, box.width);
        var end := offset + box.width;
        if Less(value[offset..end], box.lower[offset..end]) || Less(box.upper[offset..end], value[offset..end]) {
          var at := Dim(value, box, dim);
          assert !(AtMost(Dim(box.lower, box, dim), at) && AtMost(at, Dim(box.upper, box, dim)));
          return;
        }
        offset := end;
      }
      count := count + 1;
    }

    method VisitAll(docs: nat)
      modifies this
      ensures count == old(count) + docs
    {
      for i := 0 to docs
        invariant count == old(count) + i
      {
        VisitDoc(i);
      }
    }

    method VisitValues(docs: seq<int>, values: seq<Text>)
      requires ValidBox(box) && |docs| == |values| && forall k :: 0 <= k < |values| ==> Packed(values[k], box)
      modifies this
      ensures count == old(count) + CountIn(values, box)
    {
      hide InBox;
      for i := 0 to |values|
        invariant count == old(count) + CountIn(values[..i], box)
      {
        assert values[..i + 1][..i] == values[..i];
        Visit(docs[i], values[i]);
      }
      assert values[..|values|] == values;
    }

    /** Any traversal: it skips what is outside, counts what is inside without looking, and
        of a crossing cell either checks every value or takes it apart, as it pleases. */
    method Intersect(c: Cell, descend: Cell -> bool)
      requires ValidBox(box) && Sound(c, box)
      modifies this
      ensures count == old(count) + CountIn(ValuesOf(c), box)
      decreases c
    {
      hide InBox, Between, Apart, Contained, Packed;
      var relation := Compare(c.min, c.max, box);
      RelationDecides(c, box);
      match relation
      case Outside =>
      case Inside =>
        VisitAll(|ValuesOf(c)|);
      case Crosses =>
        if c.Split? && descend(c) {
          SoundHalves(c, box);
          Intersect(c.left, descend);
          Intersect(c.right, descend);
          CountAppend(ValuesOf(c.left), ValuesOf(c.right), box);
        } else {
          DocPerValue(c, box);
          VisitValues(DocsOf(c), ValuesOf(c));
        }
    }
  }

  lemma SoundHalves(c: Cell, b: Box)
    requires Sound(c, b) && c.Split?
    ensures forall k :: 0 <= k < |ValuesOf(c.left)| ==> Packed(ValuesOf(c.left)[k], b)
    ensures forall k :: 0 <= k < |ValuesOf(c.right)| ==> Packed(ValuesOf(c.right)[k], b)
  {
  }

  /** What the relation of a sound cell says about all its points. */
  lemma RelationDecides(c: Cell, b: Box)
    requires ValidBox(b) && Sound(c, b)
    ensures (exists d :: 0 <= d < b.dims && Apart(c.min, c.max, b, d)) ==> CountIn(ValuesOf(c), b) == 0
    ensures (forall d :: 0 <= d < b.dims ==> Contained(c.min, c.max, b, d)) ==>
              CountIn(ValuesOf(c), b) == |ValuesOf(c)|
  {
    hide InBox, Between, Apart, Contained, Packed, ValuesOf;
    var values := ValuesOf(c);
    if exists d :: 0 <= d < b.dims && Apart(c.min, c.max, b, d) {
      var d :| 0 <= d < b.dims && Apart(c.min, c.max, b, d);
      forall k | 0 <= k < |values|
        ensures !InBox(values[k], b)
      {
        ApartExcludes(values[k], c.min, c.max, b, d);
      }
      CountNone(values, b);
    }
    if forall d :: 0 <= d < b.dims ==> Contained(c.min, c.max, b, d) {
      forall k | 0 <= k < |values|
        ensures InBox(values[k], b)
      {
        ContainedIncludes(values[k], c.min, c.max, b);
      }
      CountAll(values, b);
    }
  }
}
