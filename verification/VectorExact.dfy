/** When the term-vector stream of fixtures/bwc/BwcDump.java determines the vectors of a segment
    whose number of documents is known: the dump prints it. From two documents on, exactly
    when both guards hold; for one document, when no name above another is a later term. */
module VectorExact {
  import opened Common
  import opened VarInt
  import opened TextOrder
  import opened Fnv
  import opened PostingsStream
  import opened VectorStream
  import opened VectorAmbiguity
  import opened VectorCrossing

  // ---------------------------------------------------------------------------
  // Small segments
  // ---------------------------------------------------------------------------

  lemma {:induction false} VectorBytesAppend(x: seq<DocVectors>, y: seq<DocVectors>, o: Schema)
    ensures VectorBytes(x + y, o) == VectorBytes(x, o) + VectorBytes(y, o)
    decreases |y|
  {
    hide DocBytes;
    if y == [] {
      assert x + y == x;
    } else {
      assert (x + y)[..|x + y| - 1] == x + y[..|y| - 1];
      VectorBytesAppend(x, y[..|y| - 1], o);
    }
  }

  lemma TwoDocBytes(d: DocVectors, e: DocVectors, o: Schema)
    requires d != [] && e != []
    ensures VectorBytes([d, e], o) == FieldsBytes(d, o) + FieldsBytes(e, o)
    ensures |Flat([d, e])| == |d| + |e| && Flat([d, e])[0] == Field(d[0])
  {
    hide FieldsBytes, VectorBytes, Flat;
    OneDoc(d, o);
    OneDoc(e, o);
    VectorBytesAppend([d], [e], o);
    FlatAppend([d], [e]);
    assert [d] + [e] == [d, e];
  }

  lemma PadBytes(
    x: seq<DocVectors>, y: seq<DocVectors>, k: nat, names: set<Text>, excluded: set<Text>, o: Schema)
    requires VectorBytes(x, o) == VectorBytes(y, o)
    requires ValidDocs(x, names, excluded, o) && ValidDocs(y, names, excluded, o)
    ensures VectorBytes(x + Nulls(k), o) == VectorBytes(y + Nulls(k), o)
    ensures ValidDocs(x + Nulls(k), names, excluded, o) && ValidDocs(y + Nulls(k), names, excluded, o)
    ensures Flat(x) != Flat(y) ==> Flat(x + Nulls(k)) != Flat(y + Nulls(k))
  {
    hide VectorBytes, DocBytes, ValidDocs, Flat;
    VectorBytesAppend(x, Nulls(k), o);
    VectorBytesAppend(y, Nulls(k), o);
    PadDocs(x, k, names, excluded, o);
    PadDocs(y, k, names, excluded, o);
    var a, b, c := Flat(x), Flat(y), Flat(Nulls(k));
    if a + c == b + c {
      assert |a| == |b|;
      assert a == (a + c)[..|a|] == (b + c)[..|b|] == b;
    }
  }

  // ---------------------------------------------------------------------------
  // A name that may be a later term
  // ---------------------------------------------------------------------------

  /** Two documents with one name: the field or the next one has the further terms. */
  lemma ConfusedTwo(n: Text, a: Text, names: set<Text>, excluded: set<Text>, o: Schema)
    returns (x: seq<DocVectors>, y: seq<DocVectors>)
    requires Confuses(names, excluded, n, a) && Short(names) && Short(excluded)
    ensures ValidDocs(x, names, excluded, o) && ValidDocs(y, names, excluded, o) && |x| == |y| == 2
    ensures VectorBytes(x, o) == VectorBytes(y, o) && Flat(x) != Flat(y)
  {
    hide TermBytes, Less, ValidEntry, Flat, VectorBytes, FieldsBytes, B;
    var p := o(n);
    var first := First(a, p);
    EntryValid(a, 1, if p.positions then [Plain(0, p)] else [], excluded, p);
    var name, s, us := SwallowNext(n, excluded, p);
    var f, g, f', g' := FieldVector(n, [first, name]), FieldVector(n, [s]), FieldVector(n, [first]), FieldVector(n, us);
    x, y := [[f], [g]], [[f'], [g']];
    TwoStream(first, name, p);
    EntryStream(first, p);
    EntryStream(s, p);
    Sides(B(n), TermBytes(first, p, false), TermBytes(name, p, false), B(n) + TermBytes(s, p, false),
          B(n) + Stream(us, p, false));
    TwoDocBytes([f], [g], o);
    TwoDocBytes([f'], [g'], o);
    OneField(f, o);
    OneField(g, o);
    OneField(f', o);
    OneField(g', o);
    assert |f.terms| != |f'.terms|;
  }

  lemma Sides(n: Text, first: Text, name: Text, s: Text, us: Text)
    requires name + s == us
    ensures (n + (first + name)) + s == (n + first) + us
  {
    assert (n + (first + name)) + s == (n + first) + (name + s);
  }

  /** One field with a later term n, or two fields of which the second has the name n, whatever
      the two record. */
  lemma OneFieldOrTwo(
    m: Text, n: Text, a: Text, names: set<Text>, excluded: set<Text>, o: Schema)
    returns (joint: FieldVector, left: FieldVector, right: FieldVector)
    requires m in names && Confuses(names, excluded, n, a) && Short(names) && Short(excluded)
    ensures joint.name == left.name == m && right.name == n
    ensures ValidVector(joint, names, excluded, o)
    ensures ValidVector(left, names, excluded, o) && ValidVector(right, names, excluded, o)
    ensures FieldBytes(joint, o) == FieldBytes(left, o) + FieldBytes(right, o)
  {
    hide TermBytes, Less, ValidEntry, B;
    var p := o(m);
    var ts, us := NameAsTerms(n, excluded, p, o(n));
    var first := First(a, p);
    EntryValid(a, 1, if p.positions then [Plain(0, p)] else [], excluded, p);
    joint, left, right := FieldVector(m, [first] + ts), FieldVector(m, [first]), FieldVector(n, us);
    EntryStream(first, p);
    assert ([first] + ts)[1..] == ts;
    forall i | 0 <= i < |ts|
      ensures Less(a, ts[i].term)
    {
      if i > 0 {
        LessTransitive(a, n, ts[i].term);
      }
    }
    assert B(m) + (TermBytes(first, p, false) + (B(n) + Stream(us, o(n), false)))
        == (B(m) + TermBytes(first, p, false)) + (B(n) + Stream(us, o(n), false));
  }

  /** With a smaller name, one document is enough. */
  lemma ConfusedInOneDocument(
    m: Text, n: Text, t: Text, names: set<Text>, excluded: set<Text>, o: Schema)
    returns (a: seq<DocVectors>, b: seq<DocVectors>)
    requires Confuses(names, excluded, n, t) && m in names && Less(m, n)
    requires Short(names) && Short(excluded)
    ensures ValidDocs(a, names, excluded, o) && ValidDocs(b, names, excluded, o) && |a| == |b| == 1
    ensures VectorBytes(a, o) == VectorBytes(b, o) && Flat(a) != Flat(b)
  {
    hide FieldBytes, ValidVector, Less, Flat, VectorBytes, FieldsBytes;
    var joint, left, right := OneFieldOrTwo(m, n, t, names, excluded, o);
    a, b := [[joint]], [[left, right]];
    OneDoc([joint], o);
    OneDoc([left, right], o);
    OneField(joint, o);
    TwoFields(left, right, o);
    assert |Flat(a)| == 1 && |Flat(b)| == 2;
  }

  // ---------------------------------------------------------------------------
  // The exact condition
  // ---------------------------------------------------------------------------

  /** The stream determines the vectors of all segments of that size. */
  ghost predicate Determined(names: set<Text>, excluded: set<Text>, o: Schema, count: nat) {
    forall a, b ::
      (ValidDocs(a, names, excluded, o) && ValidDocs(b, names, excluded, o) &&
       |a| == |b| == count && VectorBytes(a, o) == VectorBytes(b, o)) ==> a == b
  }

  /** Under both guards the stream and the number of documents determine the vectors. */
  lemma StreamTellsVectors(
    a: seq<DocVectors>, b: seq<DocVectors>, names: set<Text>, excluded: set<Text>, o: Schema, count: nat)
    requires !Confusable(names, excluded) && OneWay(names, count) && |a| == |b| == count
    requires ValidDocs(a, names, excluded, o) && ValidDocs(b, names, excluded, o)
    ensures VectorBytes(a, o) == VectorBytes(b, o) <==> a == b
  {
    hide Confusable, OneWay, ValidDocs, VectorBytes, Flat;
    StreamTellsFlat(a, b, names, excluded, o);
    if Flat(a) == Flat(b) {
      FlatTellsDocs(a, b, names, excluded, o, count);
    }
  }

  /** Where a name may be a later term, two segments of any size from two documents on feed
      the same bytes and hold different fields. */
  lemma ConfusedDocs(names: set<Text>, excluded: set<Text>, o: Schema, count: nat)
    returns (a: seq<DocVectors>, b: seq<DocVectors>)
    requires Confusable(names, excluded) && count >= 2 && Short(names) && Short(excluded)
    ensures ValidDocs(a, names, excluded, o) && ValidDocs(b, names, excluded, o) && |a| == |b| == count
    ensures VectorBytes(a, o) == VectorBytes(b, o) && Flat(a) != Flat(b)
  {
    hide ValidDocs, VectorBytes, Flat, Less;
    var n, t :| Confuses(names, excluded, n, t);
    var x, y := ConfusedTwo(n, t, names, excluded, o);
    PadBytes(x, y, count - 2, names, excluded, o);
    a, b := x + Nulls(count - 2), y + Nulls(count - 2);
  }

  /** The stream tells the flat list of fields and absent documents, for all segments of a
      size from two documents on, exactly when no name may be a later term. */
  lemma StreamTellsFlatIff(names: set<Text>, excluded: set<Text>, o: Schema, count: nat)
    requires count >= 2 && Short(names) && Short(excluded)
    ensures (forall a, b ::
               (ValidDocs(a, names, excluded, o) && ValidDocs(b, names, excluded, o) &&
                |a| == |b| == count && VectorBytes(a, o) == VectorBytes(b, o)) ==> Flat(a) == Flat(b))
            <==> !Confusable(names, excluded)
  {
    hide Confusable, VectorBytes, ValidDocs, Flat;
    if Confusable(names, excluded) {
      var a, b := ConfusedDocs(names, excluded, o, count);
    } else {
      forall a, b |
        ValidDocs(a, names, excluded, o) && ValidDocs(b, names, excluded, o) &&
        |a| == |b| == count && VectorBytes(a, o) == VectorBytes(b, o)
        ensures Flat(a) == Flat(b)
      {
        StreamTellsFlat(a, b, names, excluded, o);
      }
    }
  }

  /** The stream and the number of documents determine the vectors, for all segments of a size
      from two documents on, exactly when no name may be a later term and the fields can be
      dealt out in one way only. */
  lemma ManyDocumentsIff(names: set<Text>, excluded: set<Text>, o: Schema, count: nat)
    requires count >= 2 && Short(names) && Short(excluded)
    ensures Determined(names, excluded, o, count) <==> !Confusable(names, excluded) && OneWay(names, count)
  {
    hide Confusable, VectorBytes, ValidDocs, Flat, OneWay;
    if Confusable(names, excluded) {
      var a, b := ConfusedDocs(names, excluded, o, count);
      assert a != b;
    } else if !OneWay(names, count) {
      var a, b := TwoWays(names, excluded, o, count);
      StreamTellsFlat(a, b, names, excluded, o);
    } else {
      forall a, b |
        ValidDocs(a, names, excluded, o) && ValidDocs(b, names, excluded, o) &&
        |a| == |b| == count && VectorBytes(a, o) == VectorBytes(b, o)
        ensures a == b
      {
        StreamTellsVectors(a, b, names, excluded, o, count);
      }
    }
  }

  // ---------------------------------------------------------------------------
  // One document
  // ---------------------------------------------------------------------------

  /** In one document only a name above another one can be mistaken. */
  ghost predicate ConfusableBehind(names: set<Text>, excluded: set<Text>) {
    exists m, n, a :: m in names && Less(m, n) && Confuses(names, excluded, n, a)
  }

  ghost function Above(names: set<Text>, m: Text): set<Text> {
    set n | n in names && Less(m, n)
  }

  lemma LaterTermNotAbove(f: FieldVector, names: set<Text>, excluded: set<Text>, o: Schema, i: nat)
    requires ValidVector(f, names, excluded, o) && !ConfusableBehind(names, excluded) && 0 < i < |f.terms|
    ensures f.terms[i].term !in Above(names, f.name)
  {
    hide Less;
    assert ValidEntry(f.terms[i], excluded, o(f.name)) && ValidEntry(f.terms[0], excluded, o(f.name));
    assert Less(f.name, f.terms[i].term) ==> !Confuses(names, excluded, f.terms[i].term, f.terms[0].term);
  }

  lemma RestAbove(d: DocVectors, names: set<Text>, excluded: set<Text>, o: Schema)
    requires d != [] && Ordered(d) && forall i :: 0 <= i < |d| ==> ValidVector(d[i], names, excluded, o)
    ensures ValidItems(FieldItems(d[1..]), Above(names, d[0].name), excluded, o)
  {
    hide Less;
    var items := FieldItems(d[1..]);
    forall i | 0 <= i < |items|
      ensures ValidVector(items[i].vector, Above(names, d[0].name), excluded, o)
    {
      assert items[i] == Field(d[i + 1]);
    }
  }

  /** The first field of a document off the front. */
  lemma CutFirst(d: DocVectors, e: DocVectors, names: set<Text>, excluded: set<Text>, o: Schema)
    requires !ConfusableBehind(names, excluded) && d != [] && e != [] && Ordered(d) && Ordered(e)
    requires forall i :: 0 <= i < |d| ==> ValidVector(d[i], names, excluded, o)
    requires forall i :: 0 <= i < |e| ==> ValidVector(e[i], names, excluded, o)
    requires (FieldBytes(d[0], o) + ItemsBytes(FieldItems(d[1..]), o)) ==
             (FieldBytes(e[0], o) + ItemsBytes(FieldItems(e[1..]), o))
    ensures d[0] == e[0] && ItemsBytes(FieldItems(d[1..]), o) == ItemsBytes(FieldItems(e[1..]), o)
  {
    hide TermBytes, ItemsBytes, ValidTerm, VectorTerm, ValidItems, ConfusableBehind, Less, L, Ordered;
    var f, g := d[0], e[0];
    assert ValidVector(f, names, excluded, o) && ValidVector(g, names, excluded, o);
    var p := o(f.name);
    var xb, yb := ItemsBytes(FieldItems(d[1..]), o), ItemsBytes(FieldItems(e[1..]), o);
    var ft, gt := Stream(f.terms, p, false), Stream(g.terms, o(g.name), false);
    assert FieldBytes(f, o) + xb == B(f.name) + (ft + xb) && FieldBytes(g, o) + yb == B(g.name) + (gt + yb);
    CutBlock(f.name, g.name, ft + xb, gt + yb);
    var fr, gr := Stream(f.terms[1..], p, false), Stream(g.terms[1..], p, false);
    assert ft + xb == TermBytes(f.terms[0], p, false) + (fr + xb);
    assert gt + yb == TermBytes(g.terms[0], p, false) + (gr + yb);
    CutTerm(f.terms[0], g.terms[0], p, false, fr + xb, gr + yb);
    forall i | 0 < i < |f.terms|
      ensures f.terms[i].term !in Above(names, f.name)
    {
      LaterTermNotAbove(f, names, excluded, o, i);
    }
    forall i | 0 < i < |g.terms|
      ensures g.terms[i].term !in Above(names, f.name)
    {
      LaterTermNotAbove(g, names, excluded, o, i);
    }
    RestAbove(d, names, excluded, o);
    RestAbove(e, names, excluded, o);
    CutField(f.terms[1..], g.terms[1..], FieldItems(d[1..]), FieldItems(e[1..]), Above(names, f.name), excluded, o, p);
    assert f.terms == [f.terms[0]] + f.terms[1..] && g.terms == [g.terms[0]] + g.terms[1..];
  }

  lemma {:induction false} CutDocument(d: DocVectors, e: DocVectors, names: set<Text>, excluded: set<Text>, o: Schema)
    requires !ConfusableBehind(names, excluded) && Ordered(d) && Ordered(e)
    requires forall i :: 0 <= i < |d| ==> ValidVector(d[i], names, excluded, o)
    requires forall i :: 0 <= i < |e| ==> ValidVector(e[i], names, excluded, o)
    requires ItemsBytes(FieldItems(d), o) == ItemsBytes(FieldItems(e), o)
    ensures d == e
    decreases |d|
  {
    hide FieldBytes, ValidVector, ConfusableBehind, Less, ItemsBytes, FieldItems;
    FirstItem(d, o);
    FirstItem(e, o);
    if d != [] && e != [] {
      CutFirst(d, e, names, excluded, o);
      CutDocument(d[1..], e[1..], names, excluded, o);
      assert d == [d[0]] + d[1..] && e == [e[0]] + e[1..];
    }
  }

  lemma FirstItem(d: DocVectors, o: Schema)
    ensures d != [] ==> ItemsBytes(FieldItems(d), o) == FieldBytes(d[0], o) + ItemsBytes(FieldItems(d[1..]), o)
    ensures d == [] <==> ItemsBytes(FieldItems(d), o) == []
  {
    hide FieldBytes, ItemsBytes;
    NonEmptyItems(FieldItems(d), o);
    if d != [] {
      assert FieldItems(d)[1..] == FieldItems(d[1..]);
      ItemsStep(FieldItems(d), o);
    }
  }

  lemma ItemsStep(items: seq<Item>, o: Schema)
    requires items != []
    ensures ItemsBytes(items, o) == ItemBytes(items[0], o) + ItemsBytes(items[1..], o)
  {
  }

  lemma OneDocumentTells(
    a: seq<DocVectors>, b: seq<DocVectors>, names: set<Text>, excluded: set<Text>, o: Schema)
    requires !ConfusableBehind(names, excluded) && |a| == |b| == 1
    requires ValidDocs(a, names, excluded, o) && ValidDocs(b, names, excluded, o)
    requires VectorBytes(a, o) == VectorBytes(b, o)
    ensures a == b
  {
    hide ValidVector, ConfusableBehind, VectorBytes, Ordered, ItemsBytes, Flat, FieldBytes, L, Less;
    StreamOfFlat(a, o);
    StreamOfFlat(b, o);
    assert a == [a[0]] && b == [b[0]];
    OneDocItems(a[0]);
    OneDocItems(b[0]);
    NullItem(o);
    if a[0] != [] && b[0] != [] {
      CutDocument(a[0], b[0], names, excluded, o);
    } else {
      if a[0] != [] {
        FirstItem(a[0], o);
        NullIsNoField(a[0][0], ItemsBytes(FieldItems(a[0][1..]), o), [], names, excluded, o);
      }
      if b[0] != [] {
        FirstItem(b[0], o);
        NullIsNoField(b[0][0], ItemsBytes(FieldItems(b[0][1..]), o), [], names, excluded, o);
      }
    }
  }

  lemma NullItem(o: Schema)
    ensures ItemsBytes([Null], o) == L(-1) + []
  {
    assert [Null][1..] == [];
  }

  /** One document: the stream determines its vectors exactly
      when no name above another one may be a later term. */
  lemma OneDocumentIff(names: set<Text>, excluded: set<Text>, o: Schema)
    requires Short(names) && Short(excluded)
    ensures Determined(names, excluded, o, 1) <==> !ConfusableBehind(names, excluded)
  {
    hide VectorBytes, ValidDocs, Flat, Less, Confuses;
    if ConfusableBehind(names, excluded) {
      var m, n, t :| m in names && Less(m, n) && Confuses(names, excluded, n, t);
      ConfusesName(names, excluded, n, t);
      var a, b := ConfusedInOneDocument(m, n, t, names, excluded, o);
      assert a != b;
    } else {
      forall a, b |
        ValidDocs(a, names, excluded, o) && ValidDocs(b, names, excluded, o) &&
        |a| == |b| == 1 && VectorBytes(a, o) == VectorBytes(b, o)
        ensures a == b
      {
        OneDocumentTells(a, b, names, excluded, o);
      }
    }
  }

  lemma ConfusesName(names: set<Text>, excluded: set<Text>, n: Text, a: Text)
    requires Confuses(names, excluded, n, a)
    ensures n in names
  {
  }

  // ---------------------------------------------------------------------------
  // Any number of documents
  // ---------------------------------------------------------------------------

  /** What to check of the names and the number of documents. */
  ghost predicate Safe(names: set<Text>, excluded: set<Text>, count: nat) {
    if count == 0 then true
    else if count == 1 then !ConfusableBehind(names, excluded)
    else !Confusable(names, excluded) && OneWay(names, count)
  }

  /** The stream and the number of documents determine the vectors of all segments of that size
      exactly when the names are safe, whatever the fields record. */
  lemma StreamTellsVectorsIff(names: set<Text>, excluded: set<Text>, o: Schema, count: nat)
    requires forall t :: t in names || t in excluded ==> |t| < 800
    ensures Determined(names, excluded, o, count) <==> Safe(names, excluded, count)
  {
    hide VectorBytes, ValidDocs, Confusable, ConfusableBehind, OneWay;
    if count == 1 {
      OneDocumentIff(names, excluded, o);
    } else if count >= 2 {
      ManyDocumentsIff(names, excluded, o, count);
    }
  }
}
