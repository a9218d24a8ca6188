/** The term-vector stream of fixtures/bwc/BwcDump.java: one digest for all documents of a
    segment, with no document number, field count or term count.

    So it does not always determine the vectors. It tells the fields one after the other
    exactly when no field name can be taken for a term behind another, and it tells which
    document a field belongs to exactly when there are too few names or documents to doubt. */
module VectorStream {
  import opened VarInt
  import opened TextOrder
  import opened Fnv
  import opened PostingsStream

  /** One field of one document: its terms as postings of the one document. */
  datatype FieldVector = FieldVector(name: Text, terms: seq<TermEntry>)

  /** The fields of a document; none stands for `null`. */
  type DocVectors = seq<FieldVector>

  /** What the vectors of a field record. */
  type Schema = Text -> Options

  function FieldBytes(f: FieldVector, o: Schema): seq<Byte> {
    B(f.name) + Stream(f.terms, o(f.name), false)
  }

  function FieldsBytes(fs: seq<FieldVector>, o: Schema): seq<Byte> {
    if fs == [] then [] else FieldsBytes(fs[..|fs| - 1], o) + FieldBytes(fs[|fs| - 1], o)
  }

  function DocBytes(d: DocVectors, o: Schema): seq<Byte> {
    if d == [] then L(-1) else FieldsBytes(d, o)
  }

  function VectorBytes(docs: seq<DocVectors>, o: Schema): seq<Byte> {
    if docs == [] then [] else VectorBytes(docs[..|docs| - 1], o) + DocBytes(docs[|docs| - 1], o)
  }

  // ---------------------------------------------------------------------------
  // The writer
  // ---------------------------------------------------------------------------

  ghost predicate FieldFreqsMatch(f: FieldVector, o: Schema) {
    forall i :: 0 <= i < |f.terms| ==> FreqsMatch(f.terms[i].postings, o(f.name))
  }

  /** The loop over the fields of one document. */
  method WriteDoc(d: DocVectors, o: Schema, f: Hasher)
    requires f.Valid() && forall i :: 0 <= i < |d| ==> FieldFreqsMatch(d[i], o)
    modifies f
    ensures f.Valid() && f.stream == old(f.stream) + FieldsBytes(d, o)
  {
    hide Digest, LongBytes, Stream;
    assert d[..0] == [];
    for i := 0 to |d|
      invariant f.Valid() && f.stream == old(f.stream) + FieldsBytes(d[..i], o)
    {
      ghost var before := f.stream;
      assert FieldFreqsMatch(d[i], o);
      f.Block(d[i].name);
      WriteTerms(d[i].terms, o(d[i].name), false, f);
      assert f.stream == before + FieldBytes(d[i], o);
      assert d[..i + 1][..i] == d[..i];
    }
    assert d[..|d|] == d;
  }

  /** The loop over the documents. */
  method WriteVectors(docs: seq<DocVectors>, o: Schema, f: Hasher)
    requires f.Valid()
    requires forall d, i :: 0 <= d < |docs| && 0 <= i < |docs[d]| ==> FieldFreqsMatch(docs[d][i], o)
    modifies f
    ensures f.Valid() && f.stream == old(f.stream) + VectorBytes(docs, o)
  {
    hide Digest, LongBytes, FieldFreqsMatch, FieldsBytes;
    assert docs[..0] == [];
    for d := 0 to |docs|
      invariant f.Valid() && f.stream == old(f.stream) + VectorBytes(docs[..d], o)
    {
      ghost var before := f.stream;
      if docs[d] == [] {
        f.Long(-1);
      } else {
        WriteDoc(docs[d], o, f);
      }
      assert f.stream == before + DocBytes(docs[d], o);
      assert docs[..d + 1][..d] == docs[..d];
    }
    assert docs[..|docs|] == docs;
  }

  // ---------------------------------------------------------------------------
  // The flat list of fields and absent documents
  // ---------------------------------------------------------------------------

  datatype Item = Null | Field(vector: FieldVector)

  function FieldItems(d: DocVectors): (items: seq<Item>)
    ensures |items| == |d| && forall i :: 0 <= i < |d| ==> items[i] == Field(d[i])
  {
    seq(|d|, i requires 0 <= i < |d| => Field(d[i]))
  }

  function DocItems(d: DocVectors): (items: seq<Item>) {
    if d == [] then [Null] else FieldItems(d)
  }

  function Flat(docs: seq<DocVectors>): (items: seq<Item>) {
    if docs == [] then [] else Flat(docs[..|docs| - 1]) + DocItems(docs[|docs| - 1])
  }

  function ItemBytes(i: Item, o: Schema): seq<Byte> {
    match i
    case Null => L(-1)
    case Field(v) => FieldBytes(v, o)
  }

  function ItemsBytes(items: seq<Item>, o: Schema): seq<Byte> {
    if items == [] then [] else ItemBytes(items[0], o) + ItemsBytes(items[1..], o)
  }

  lemma {:induction false} ItemsBytesAppend(x: seq<Item>, y: seq<Item>, o: Schema)
    ensures ItemsBytes(x + y, o) == ItemsBytes(x, o) + ItemsBytes(y, o)
    decreases |x|
  {
    hide ItemBytes;
    if x == [] {
      assert x + y == y;
    } else {
      assert (x + y)[1..] == x[1..] + y;
      ItemsBytesAppend(x[1..], y, o);
    }
  }

  lemma {:induction false} DocIsItems(d: DocVectors, o: Schema)
    ensures FieldsBytes(d, o) == ItemsBytes(FieldItems(d), o)
    decreases |d|
  {
    hide FieldBytes;
    if d != [] {
      var init, last := d[..|d| - 1], d[|d| - 1];
      DocIsItems(init, o);
      assert FieldItems(d) == FieldItems(init) + [Field(last)];
      ItemsBytesAppend(FieldItems(init), [Field(last)], o);
      assert ItemsBytes([Field(last)], o) == ItemBytes(Field(last), o) + ItemsBytes([Field(last)][1..], o);
    }
  }

  /** The stream is that of the flat list: it cannot tell more. */
  lemma {:induction false} StreamOfFlat(docs: seq<DocVectors>, o: Schema)
    ensures VectorBytes(docs, o) == ItemsBytes(Flat(docs), o)
    decreases |docs|
  {
    hide FieldBytes, FieldsBytes, FieldItems;
    if docs != [] {
      var init, d := docs[..|docs| - 1], docs[|docs| - 1];
      StreamOfFlat(init, o);
      ItemsBytesAppend(Flat(init), DocItems(d), o);
      if d == [] {
        assert [Null][1..] == [];
        assert ItemsBytes([Null], o) == L(-1) + [];
      } else {
        DocIsItems(d, o);
      }
    }
  }

  // ---------------------------------------------------------------------------
  // What a segment can hold
  // ---------------------------------------------------------------------------

  /** The longest term Lucene takes. */
  const MAX_TERM: nat := 32766

  /** Terms ascend, are at least one, and are none of the excluded ones. */
  ghost predicate ValidVector(f: FieldVector, names: set<Text>, excluded: set<Text>, o: Schema) {
    && f.name in names && IsLong(|f.name|) && f.terms != []
    && (forall i :: 0 <= i < |f.terms| ==> ValidEntry(f.terms[i], excluded, o(f.name)))
    && forall i, j :: 0 <= i < j < |f.terms| ==> Less(f.terms[i].term, f.terms[j].term)
  }

  ghost predicate ValidEntry(t: TermEntry, excluded: set<Text>, o: Options) {
    ValidTerm(t, o) && VectorTerm(t) && |t.term| <= MAX_TERM && t.term !in excluded
  }

  /** Such a term has one posting with a positive frequency, and positions that count it and do
      not go backwards, if any are recorded. */
  lemma RealEntry(t: TermEntry, excluded: set<Text>, o: Options)
    requires ValidEntry(t, excluded, o)
    ensures |t.term| <= 32766 && t.term !in excluded && |t.postings| == 1
    ensures var p := t.postings[0];
            && 1 <= p.freq <= 2147483647 && |p.positions| == (if o.positions then p.freq else 0)
            && (forall x :: 0 <= x < |p.positions| ==> 0 <= p.positions[x].pos <= 2147483647)
            && (forall x, y :: 0 <= x < y < |p.positions| ==>
                  p.positions[x].pos <= p.positions[y].pos && p.positions[x].start <= p.positions[y].start)
            && (forall x :: 0 <= x < |p.positions| ==>
                  if o.offsets then 0 <= p.positions[x].start <= p.positions[x].end <= 2147483647
                  else p.positions[x].start == p.positions[x].end == -1)
  {
    assert ValidPosting(t.postings[0], o);
  }

  ghost predicate ValidItems(items: seq<Item>, names: set<Text>, excluded: set<Text>, o: Schema) {
    forall i :: 0 <= i < |items| && items[i].Field? ==> ValidVector(items[i].vector, names, excluded, o)
  }

  /** Names ascend within a document. */
  ghost predicate Ordered(d: DocVectors) {
    forall i, j :: 0 <= i < j < |d| ==> Less(d[i].name, d[j].name)
  }

  ghost predicate ValidDocs(docs: seq<DocVectors>, names: set<Text>, excluded: set<Text>, o: Schema) {
    forall k :: 0 <= k < |docs| ==>
      Ordered(docs[k]) && forall i :: 0 <= i < |docs[k]| ==> ValidVector(docs[k][i], names, excluded, o)
  }

  lemma {:induction false} FlatValid(docs: seq<DocVectors>, names: set<Text>, excluded: set<Text>, o: Schema)
    requires ValidDocs(docs, names, excluded, o)
    ensures ValidItems(Flat(docs), names, excluded, o)
    decreases |docs|
  {
    hide ValidVector, Ordered;
    if docs != [] {
      FlatValid(docs[..|docs| - 1], names, excluded, o);
    }
  }

  /** The guard: a field name may occur as a term, behind another term. */
  ghost predicate Confusable(names: set<Text>, excluded: set<Text>) {
    exists n, a :: Confuses(names, excluded, n, a)
  }

  ghost predicate Confuses(names: set<Text>, excluded: set<Text>, n: Text, a: Text) {
    n in names && n !in excluded && |n| <= MAX_TERM && a !in excluded && |a| <= MAX_TERM && Less(a, n)
  }

  // ---------------------------------------------------------------------------
  // Not confusable: the stream tells the flat list
  // ---------------------------------------------------------------------------

  lemma LaterTermIsNoName(f: FieldVector, names: set<Text>, excluded: set<Text>, o: Schema, i: nat)
    requires ValidVector(f, names, excluded, o) && !Confusable(names, excluded) && 0 < i < |f.terms|
    ensures f.terms[i].term !in names
  {
    hide Less;
    assert !Confuses(names, excluded, f.terms[i].term, f.terms[0].term);
    assert ValidEntry(f.terms[i], excluded, o(f.name)) && ValidEntry(f.terms[0], excluded, o(f.name));
  }

  /** A term behind the first and the start of an item are never taken for one another. */
  lemma {:induction false} TermIsNoItem(
    t: TermEntry, rest: seq<Byte>, x: seq<Item>, names: set<Text>, excluded: set<Text>, o: Schema, p: Options)
    requires ValidTerm(t, p) && t.term !in names && ValidItems(x, names, excluded, o)
    ensures TermBytes(t, p, false) + rest != ItemsBytes(x, o)
  {
    hide L, PostingsBytes, Stream, Less;
    if TermBytes(t, p, false) + rest == ItemsBytes(x, o) {
      var behind := PostingsBytes(t.postings, p, false) + rest;
      assert TermBytes(t, p, false) + rest == B(t.term) + behind;
      assert B(t.term) + behind == L(|t.term|) + (t.term + behind);
      assert x != [];
      var more := ItemsBytes(x[1..], o);
      match x[0]
      case Null =>
        CutLong(|t.term|, -1, t.term + behind, more);
      case Field(v) =>
        assert ItemsBytes(x, o) == B(v.name) + (Stream(v.terms, o(v.name), false) + more);
        CutBlock(t.term, v.name, behind, Stream(v.terms, o(v.name), false) + more);
    }
  }

  /** The rest of a field and the items behind it. */
  lemma {:induction false} CutField(
    ts: seq<TermEntry>, us: seq<TermEntry>, x: seq<Item>, y: seq<Item>,
    names: set<Text>, excluded: set<Text>, o: Schema, p: Options)
    requires ValidItems(x, names, excluded, o) && ValidItems(y, names, excluded, o)
    requires forall i :: 0 <= i < |ts| ==> ValidEntry(ts[i], excluded, p) && ts[i].term !in names
    requires forall i :: 0 <= i < |us| ==> ValidEntry(us[i], excluded, p) && us[i].term !in names
    requires Stream(ts, p, false) + ItemsBytes(x, o) == Stream(us, p, false) + ItemsBytes(y, o)
    ensures ts == us && ItemsBytes(x, o) == ItemsBytes(y, o)
    decreases |ts|
  {
    hide TermBytes, ItemsBytes, ValidTerm, VectorTerm, ValidItems;
    var xb, yb := ItemsBytes(x, o), ItemsBytes(y, o);
    assert ts == [] ==> Stream(ts, p, false) + xb == xb;
    assert us == [] ==> Stream(us, p, false) + yb == yb;
    if ts != [] {
      var rest := Stream(ts[1..], p, false) + xb;
      assert Stream(ts, p, false) + xb == TermBytes(ts[0], p, false) + rest;
      if us == [] {
        TermIsNoItem(ts[0], rest, y, names, excluded, o, p);
      }
    }
    if us != [] {
      var rest := Stream(us[1..], p, false) + yb;
      assert Stream(us, p, false) + yb == TermBytes(us[0], p, false) + rest;
      if ts == [] {
        TermIsNoItem(us[0], rest, x, names, excluded, o, p);
      }
    }
    if ts != [] && us != [] {
      CutTerm(ts[0], us[0], p, false, Stream(ts[1..], p, false) + xb, Stream(us[1..], p, false) + yb);
      CutField(ts[1..], us[1..], x, y, names, excluded, o, p);
      assert ts == [ts[0]] + ts[1..] && us == [us[0]] + us[1..];
    }
  }

  /** One field off the front. */
  lemma CutVector(
    f: FieldVector, g: FieldVector, x: seq<Item>, y: seq<Item>, names: set<Text>, excluded: set<Text>, o: Schema)
    requires !Confusable(names, excluded)
    requires ValidVector(f, names, excluded, o) && ValidVector(g, names, excluded, o)
    requires ValidItems(x, names, excluded, o) && ValidItems(y, names, excluded, o)
    requires FieldBytes(f, o) + ItemsBytes(x, o) == FieldBytes(g, o) + ItemsBytes(y, o)
    ensures f == g && ItemsBytes(x, o) == ItemsBytes(y, o)
  {
    hide TermBytes, ItemsBytes, ValidTerm, VectorTerm, ValidItems, Confusable, Less, L;
    var p := o(f.name);
    var xb, yb := ItemsBytes(x, o), ItemsBytes(y, o);
    var ft, gt := Stream(f.terms, p, false), Stream(g.terms, o(g.name), false);
    assert FieldBytes(f, o) + xb == B(f.name) + (ft + xb) && FieldBytes(g, o) + yb == B(g.name) + (gt + yb);
    CutBlock(f.name, g.name, ft + xb, gt + yb);
    var fr, gr := Stream(f.terms[1..], p, false), Stream(g.terms[1..], p, false);
    assert ft + xb == TermBytes(f.terms[0], p, false) + (fr + xb);
    assert gt + yb == TermBytes(g.terms[0], p, false) + (gr + yb);
    CutTerm(f.terms[0], g.terms[0], p, false, fr + xb, gr + yb);
    forall i | 0 < i < |f.terms|
      ensures f.terms[i].term !in names
    {
      LaterTermIsNoName(f, names, excluded, o, i);
    }
    forall i | 0 < i < |g.terms|
      ensures g.terms[i].term !in names
    {
      LaterTermIsNoName(g, names, excluded, o, i);
    }
    CutField(f.terms[1..], g.terms[1..], x, y, names, excluded, o, p);
    assert f.terms == [f.terms[0]] + f.terms[1..] && g.terms == [g.terms[0]] + g.terms[1..];
  }

  lemma {:induction false} CutItems(x: seq<Item>, y: seq<Item>, names: set<Text>, excluded: set<Text>, o: Schema)
    requires !Confusable(names, excluded)
    requires ValidItems(x, names, excluded, o) && ValidItems(y, names, excluded, o)
    requires ItemsBytes(x, o) == ItemsBytes(y, o)
    ensures x == y
    decreases |x|
  {
    hide FieldBytes, ValidVector, Confusable, LongBytes;
    if x == [] || y == [] {
      NonEmptyItems(x, o);
      NonEmptyItems(y, o);
    } else {
      var xb, yb := ItemsBytes(x[1..], o), ItemsBytes(y[1..], o);
      if x[0].Field? && y[0].Field? {
        CutVector(x[0].vector, y[0].vector, x[1..], y[1..], names, excluded, o);
      } else {
        if x[0].Field? {
          NullIsNoField(x[0].vector, xb, yb, names, excluded, o);
        }
        if y[0].Field? {
          NullIsNoField(y[0].vector, yb, xb, names, excluded, o);
        }
        assert (L(-1) + xb)[8..] == xb && (L(-1) + yb)[8..] == yb;
      }
      CutItems(x[1..], y[1..], names, excluded, o);
      assert x == [x[0]] + x[1..] && y == [y[0]] + y[1..];
    }
  }

  lemma NonEmptyItems(x: seq<Item>, o: Schema)
    ensures ItemsBytes(x, o) == [] <==> x == []
  {
    if x != [] {
      assert |ItemBytes(x[0], o)| >= 8;
    }
  }

  lemma NullIsNoField(
    f: FieldVector, x: seq<Byte>, y: seq<Byte>, names: set<Text>, excluded: set<Text>, o: Schema)
    requires ValidVector(f, names, excluded, o)
    ensures FieldBytes(f, o) + x != L(-1) + y
  {
    hide L, Stream, Less;
    var behind := Stream(f.terms, o(f.name), false) + x;
    assert FieldBytes(f, o) + x == L(|f.name|) + (f.name + behind);
    if L(|f.name|) + (f.name + behind) == L(-1) + y {
      CutLong(|f.name|, -1, f.name + behind, y);
    }
  }

  /** Where no name can be a later term, equal streams are those of equal flat lists. */
  lemma StreamTellsFlat(a: seq<DocVectors>, b: seq<DocVectors>, names: set<Text>, excluded: set<Text>, o: Schema)
    requires !Confusable(names, excluded)
    requires ValidDocs(a, names, excluded, o) && ValidDocs(b, names, excluded, o)
    ensures VectorBytes(a, o) == VectorBytes(b, o) <==> Flat(a) == Flat(b)
  {
    hide Confusable, VectorBytes, ValidDocs, ValidItems, Flat, ItemsBytes;
    StreamOfFlat(a, o);
    StreamOfFlat(b, o);
    FlatValid(a, names, excluded, o);
    FlatValid(b, names, excluded, o);
    if VectorBytes(a, o) == VectorBytes(b, o) {
      CutItems(Flat(a), Flat(b), names, excluded, o);
    }
  }
}
