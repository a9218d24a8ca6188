/** Term-vector streams of fixtures/bwc/BwcDump.java whose fields can be dealt out to the
    documents in several ways: exactly where the second guard fails. */
module VectorAmbiguity {
  import opened Common
  import opened VarInt
  import opened TextOrder
  import opened Fnv
  import opened PostingsStream
  import opened VectorStream

  // ---------------------------------------------------------------------------
  // Entries
  // ---------------------------------------------------------------------------

  function Entry(term: Text, freq: int, positions: seq<Position>): TermEntry {
    TermEntry(term, 1, freq, [Posting(0, freq, positions)])
  }

  lemma EntryBytes(term: Text, freq: int, positions: seq<Position>, o: Options)
    ensures TermBytes(Entry(term, freq, positions), o, false) ==
            B(term) + (L(freq) + (if o.positions then PositionsBytes(positions, o) else []))
  {
    hide L, PositionsBytes;
    var p := Posting(0, freq, positions);
    assert [p][1..] == [];
    assert PostingsBytes([p], o, false) == PostingBytes(p, o, false) + [];
  }

  lemma EntryStream(t: TermEntry, o: Options)
    ensures Stream([t], o, false) == TermBytes(t, o, false)
  {
    hide TermBytes;
    assert [t][1..] == [] && TermBytes(t, o, false) + [] == TermBytes(t, o, false);
  }

  lemma EntryValid(term: Text, freq: int, positions: seq<Position>, excluded: set<Text>, o: Options)
    requires |term| <= MAX_TERM && term !in excluded && IsFrequency(freq)
    requires if o.positions then freq == |positions| && ValidPositions(positions, o) else positions == []
    ensures ValidEntry(Entry(term, freq, positions), excluded, o)
  {
  }

  lemma {:induction false} PositionsBytesAppend(x: seq<Position>, y: seq<Position>, o: Options)
    ensures PositionsBytes(x + y, o) == PositionsBytes(x, o) + PositionsBytes(y, o)
    decreases |x|
  {
    hide PositionBytes;
    if x == [] {
      assert x + y == y;
    } else {
      assert (x + y)[1..] == x[1..] + y;
      PositionsBytesAppend(x[1..], y, o);
    }
  }

  lemma OnePosition(z: Position, o: Options)
    ensures PositionsBytes([z], o) == PositionBytes(z, o)
  {
    hide PositionBytes;
    assert [z][1..] == [] && PositionBytes(z, o) + [] == PositionBytes(z, o);
  }

  lemma {:induction false} LongerIsLess(a: Text, b: Text)
    requires b != []
    ensures Less(a, a + b)
    decreases |a|
  {
    if a == [] {
      assert a + b == b;
    } else {
      LongerIsLess(a[1..], b);
      assert (a + b)[1..] == a[1..] + b;
    }
  }

  function Zeros(k: nat): (z: Text)
    ensures |z| == k
  {
    seq(k, _ => 0)
  }

  /** A plain position, with zero offsets and no payload. */
  function Plain(pos: nat, o: Options): Position {
    Position(pos, if o.offsets then 0 else -1, if o.offsets then 0 else -1, None)
  }

  /** Positions that go on where others stopped. */
  lemma ValidAppend(x: seq<Position>, y: seq<Position>, o: Options)
    requires ValidPositions(x, o) && ValidPositions(y, o)
    requires forall i, j :: 0 <= i < |x| && 0 <= j < |y| ==> x[i].pos <= y[j].pos && x[i].start <= y[j].start
    ensures ValidPositions(x + y, o)
  {
    hide ValidPosition;
    var all := x + y;
    assert forall k :: 0 <= k < |all| ==> all[k] == if k < |x| then x[k] else y[k - |x|];
  }

  /** Texts so short that everything built from them is a term Lucene takes. */
  ghost predicate Short(texts: set<Text>) {
    forall t :: t in texts ==> |t| < 800
  }

  /** The least length above those of all the given texts. */
  lemma {:induction false} Longer(texts: set<Text>) returns (k: nat)
    requires Short(texts)
    ensures k <= 800 && (forall t :: t in texts ==> |t| < k)
    ensures k > 0 ==> exists t :: t in texts && |t| == k - 1
    decreases texts
  {
    k := 0;
    if texts != {} {
      var x :| x in texts;
      k := Longer(texts - {x});
      if |x| >= k {
        k := |x| + 1;
      }
    }
  }

  function First(a: Text, o: Options): TermEntry {
    Entry(a, 1, if o.positions then [Plain(0, o)] else [])
  }

  lemma OneDoc(d: DocVectors, o: Schema)
    requires d != []
    ensures VectorBytes([d], o) == FieldsBytes(d, o) && Flat([d]) == FieldItems(d)
  {
    hide FieldsBytes, FieldItems;
    assert [d][..0] == [] && [d][0] == d;
    assert VectorBytes([], o) == [] && Flat([]) == [];
  }

  lemma OneField(f: FieldVector, o: Schema)
    ensures FieldsBytes([f], o) == FieldBytes(f, o)
  {
    hide FieldBytes;
    assert [f][..0] == [];
    assert FieldsBytes([], o) == [];
  }

  lemma TwoFields(f: FieldVector, g: FieldVector, o: Schema)
    ensures FieldsBytes([f, g], o) == FieldBytes(f, o) + FieldBytes(g, o)
  {
    hide FieldBytes;
    OneField(f, o);
    assert [f, g][..1] == [f];
  }

  // ---------------------------------------------------------------------------
  // The second guard: which document a field belongs to
  // ---------------------------------------------------------------------------

  /** So few names or documents that the fields can be dealt out in one way only. */
  predicate OneWay(names: set<Text>, count: nat) {
    |names| <= 1 || count <= 1 || (count == 2 && |names| <= 2)
  }

  lemma {:induction false} DocItemsInjective(d: DocVectors, e: DocVectors)
    requires DocItems(d) == DocItems(e)
    ensures d == e
  {
    assert DocItems(d)[0].Null? <==> d == [];
    assert DocItems(e)[0].Null? <==> e == [];
    if d != [] && e != [] {
      forall i | 0 <= i < |d|
        ensures d[i] == e[i]
      {
        assert FieldItems(d)[i] == FieldItems(e)[i];
      }
    }
  }

  ghost predicate AtMostOne(docs: seq<DocVectors>) {
    forall k :: 0 <= k < |docs| ==> |docs[k]| <= 1
  }

  /** One field a document: every item is a document. */
  lemma {:induction false} SingleFields(a: seq<DocVectors>, b: seq<DocVectors>)
    requires AtMostOne(a) && AtMostOne(b) && Flat(a) == Flat(b)
    ensures a == b
    decreases |a|
  {
    hide Flat, DocItems;
    FlatGrows(a);
    FlatGrows(b);
    if a != [] && b != [] {
      var x, d, y, e := a[..|a| - 1], a[|a| - 1], b[..|b| - 1], b[|b| - 1];
      OneItem(d);
      OneItem(e);
      assert a == x + [d] && b == y + [e];
      FlatAppend(x, [d]);
      FlatAppend(y, [e]);
      OneDocItems(d);
      OneDocItems(e);
      var s := Flat(a);
      assert Flat(x) == s[..|s| - 1] == Flat(y);
      assert DocItems(d) == s[|s| - 1..] == DocItems(e);
      DocItemsInjective(d, e);
      SingleFields(x, y);
    }
  }

  lemma OneItem(d: DocVectors)
    requires |d| <= 1
    ensures |DocItems(d)| == 1
  {
  }

  lemma FlatGrows(docs: seq<DocVectors>)
    ensures docs == [] <==> Flat(docs) == []
  {
  }

  ghost function NamesOf(d: DocVectors): set<Text> {
    set i | 0 <= i < |d| :: d[i].name
  }

  lemma {:induction false} NamesCount(d: DocVectors)
    requires Ordered(d)
    ensures |NamesOf(d)| == |d|
    decreases |d|
  {
    hide Less;
    if d == [] {
      assert NamesOf(d) == {};
    } else {
      var init, last := d[..|d| - 1], d[|d| - 1];
      NamesCount(init);
      assert NamesOf(d) == NamesOf(init) + {last.name};
      LessIrreflexive(last.name);
    }
  }

  lemma {:induction false} FewFields(d: DocVectors, names: set<Text>)
    requires Ordered(d) && NamesOf(d) <= names
    ensures |d| <= |names|
  {
    NamesCount(d);
    Subset(NamesOf(d), names);
  }

  lemma {:induction false} Subset(x: set<Text>, y: set<Text>)
    requires x <= y
    ensures |x| <= |y|
    decreases x
  {
    if x != {} {
      var t :| t in x;
      Subset(x - {t}, y - {t});
    }
  }

  lemma DocNames(docs: seq<DocVectors>, k: nat, names: set<Text>, excluded: set<Text>, o: Schema)
    requires ValidDocs(docs, names, excluded, o) && k < |docs|
    ensures Ordered(docs[k]) && NamesOf(docs[k]) <= names
  {
    hide Less;
  }

  lemma TwoDocs(x: DocVectors, y: DocVectors)
    ensures Flat([x, y]) == DocItems(x) + DocItems(y)
  {
    hide DocItems;
    assert [x, y][..1] == [x] && [x][..0] == [];
    assert Flat([x]) == Flat([]) + DocItems(x);
  }

  /** Two documents over two names: a boundary that could move would need three. */
  lemma {:induction false} TwoNames(
    x: DocVectors, y: DocVectors, x': DocVectors, y': DocVectors, names: set<Text>)
    requires Ordered(y) && Ordered(x') && |names| <= 2 && NamesOf(x) + NamesOf(y) <= names
    requires DocItems(x) + DocItems(y) == DocItems(x') + DocItems(y')
    ensures |DocItems(x)| >= |DocItems(x')|
  {
    hide Less;
    if |DocItems(x)| < |DocItems(x')| {
      var items := DocItems(x) + DocItems(y);
      assert items[0] == DocItems(x)[0] == DocItems(x')[0];
      assert x' != [] && x != [];
      var n := |x|;
      assert items[n] == DocItems(y)[0] == DocItems(x')[n] == Field(x'[n]);
      assert items[0] == Field(x[0]) == Field(x'[0]);
      assert |y| >= 2 && y[0] == x'[n];
      var three := [x[0], y[0], y[1]];
      assert Less(x'[0].name, x'[n].name);
      LessTransitive(x[0].name, y[0].name, y[1].name);
      assert Ordered(three);
      assert NamesOf(three) <= NamesOf(x) + NamesOf(y);
      FewFields(three, names);
    }
  }

  /** Enough order among names, from the smallest on. */
  lemma {:induction false} Smallest(names: set<Text>) returns (m: Text)
    requires names != {}
    ensures m in names && forall x :: x in names && x != m ==> Less(m, x)
    decreases names
  {
    hide Less;
    m :| m in names;
    if names != {m} {
      var rest := names - {m};
      assert names == rest + {m};
      var k := Smallest(rest);
      LessTotal(m, k);
      if Less(k, m) {
        m := k;
      } else {
        forall x | x in names && x != m
          ensures Less(m, x)
        {
          if x != k {
            LessTransitive(m, k, x);
          }
        }
      }
    }
  }

  /** A field with that name and one allowed term. */
  lemma SomeVector(n: Text, names: set<Text>, excluded: set<Text>, o: Schema) returns (f: FieldVector)
    requires n in names && |n| < 800 && Short(excluded)
    ensures f.name == n && ValidVector(f, names, excluded, o)
  {
    hide ValidEntry;
    var p := o(n);
    var k := Longer(excluded);
    var t := First(Zeros(k), p);
    EntryValid(Zeros(k), 1, if p.positions then [Plain(0, p)] else [], excluded, p);
    f := FieldVector(n, [t]);
  }

  function Nulls(k: nat): (docs: seq<DocVectors>)
    ensures |docs| == k && forall i :: 0 <= i < k ==> docs[i] == []
  {
    seq(k, _ => [])
  }

  lemma {:induction false} FlatAppend(x: seq<DocVectors>, y: seq<DocVectors>)
    ensures Flat(x + y) == Flat(x) + Flat(y)
    decreases |y|
  {
    hide DocItems;
    if y == [] {
      assert x + y == x;
    } else {
      assert (x + y)[..|x + y| - 1] == x + y[..|y| - 1];
      FlatAppend(x, y[..|y| - 1]);
    }
  }

  lemma ThreeDocs(x: DocVectors, y: DocVectors, z: DocVectors)
    ensures Flat([x, y, z]) == DocItems(x) + DocItems(y) + DocItems(z)
  {
    hide DocItems;
    TwoDocs(x, y);
    assert [x, y, z][..2] == [x, y];
  }

  /** Three fields in two documents, dealt out in two ways. */
  lemma TwoDocuments(
    f: FieldVector, g: FieldVector, h: FieldVector, names: set<Text>, excluded: set<Text>, o: Schema)
    requires ValidVector(f, names, excluded, o) && ValidVector(g, names, excluded, o)
    requires ValidVector(h, names, excluded, o) && Less(f.name, g.name) && Less(g.name, h.name)
    ensures ValidDocs([[f, g], [h]], names, excluded, o) && ValidDocs([[f], [g, h]], names, excluded, o)
    ensures Flat([[f, g], [h]]) == Flat([[f], [g, h]])
  {
    hide ValidVector, Less, Flat;
    TwoDocs([f, g], [h]);
    TwoDocs([f], [g, h]);
    assert Flat([[f, g], [h]]) == [Field(f), Field(g), Field(h)];
    assert Flat([[f], [g, h]]) == [Field(f), Field(g), Field(h)];
  }

  /** Two names in three documents, dealt out in two ways. */
  lemma ThreeDocuments(f: FieldVector, g: FieldVector, names: set<Text>, excluded: set<Text>, o: Schema)
    requires ValidVector(f, names, excluded, o) && ValidVector(g, names, excluded, o) && Less(f.name, g.name)
    ensures ValidDocs([[f], [g], [f, g]], names, excluded, o) && ValidDocs([[f, g], [f], [g]], names, excluded, o)
    ensures Flat([[f], [g], [f, g]]) == Flat([[f, g], [f], [g]])
  {
    hide ValidVector, Less, Flat;
    ThreeDocs([f], [g], [f, g]);
    ThreeDocs([f, g], [f], [g]);
    assert Flat([[f], [g], [f, g]]) == [Field(f), Field(g), Field(f), Field(g)];
    assert Flat([[f, g], [f], [g]]) == [Field(f), Field(g), Field(f), Field(g)];
  }

  lemma PadDocs(docs: seq<DocVectors>, k: nat, names: set<Text>, excluded: set<Text>, o: Schema)
    requires ValidDocs(docs, names, excluded, o)
    ensures ValidDocs(docs + Nulls(k), names, excluded, o)
    ensures Flat(docs + Nulls(k)) == Flat(docs) + Flat(Nulls(k))
  {
    hide ValidVector, Less, Flat;
    FlatAppend(docs, Nulls(k));
  }

  /** Enough names and documents: fields that can be dealt out in two ways. */
  lemma TwoWays(names: set<Text>, excluded: set<Text>, o: Schema, count: nat)
    returns (a: seq<DocVectors>, b: seq<DocVectors>)
    requires !OneWay(names, count)
    requires Short(names) && Short(excluded)
    ensures ValidDocs(a, names, excluded, o) && ValidDocs(b, names, excluded, o)
    ensures |a| == |b| == count && a != b && Flat(a) == Flat(b)
  {
    hide ValidVector, ValidDocs, Less, Flat;
    var u := Smallest(names);
    assert names == (names - {u}) + {u};
    var v := Smallest(names - {u});
    var f := SomeVector(u, names, excluded, o);
    var g := SomeVector(v, names, excluded, o);
    if count == 2 {
      assert names == (names - {u} - {v}) + {u} + {v};
      var w := Smallest(names - {u} - {v});
      var h := SomeVector(w, names, excluded, o);
      a, b := [[f, g], [h]], [[f], [g, h]];
      TwoDocuments(f, g, h, names, excluded, o);
    } else {
      var x, y := [[f], [g], [f, g]], [[f, g], [f], [g]];
      ThreeDocuments(f, g, names, excluded, o);
      PadDocs(x, count - 3, names, excluded, o);
      PadDocs(y, count - 3, names, excluded, o);
      a, b := x + Nulls(count - 3), y + Nulls(count - 3);
    }
    assert |a[0]| != |b[0]|;
  }

  lemma FlatTellsDocs(
    a: seq<DocVectors>, b: seq<DocVectors>, names: set<Text>, excluded: set<Text>, o: Schema, count: nat)
    requires OneWay(names, count) && |a| == |b| == count && Flat(a) == Flat(b)
    requires ValidDocs(a, names, excluded, o) && ValidDocs(b, names, excluded, o)
    ensures a == b
  {
    hide ValidDocs, Less, DocItems, Ordered;
    forall k | 0 <= k < count
      ensures Ordered(a[k]) && NamesOf(a[k]) <= names && Ordered(b[k]) && NamesOf(b[k]) <= names
      ensures |a[k]| <= |names| && |b[k]| <= |names|
    {
      DocNames(a, k, names, excluded, o);
      DocNames(b, k, names, excluded, o);
      FewFields(a[k], names);
      FewFields(b[k], names);
    }
    if |names| <= 1 {
      SingleFields(a, b);
    } else if count == 1 {
      assert a == [] + [a[0]] && b == [] + [b[0]];
      FlatAppend([], [a[0]]);
      OneDocItems(a[0]);
      OneDocItems(b[0]);
      DocItemsInjective(a[0], b[0]);
    } else if count == 2 {
      assert a == [a[0], a[1]] && b == [b[0], b[1]];
      TwoDocs(a[0], a[1]);
      TwoDocs(b[0], b[1]);
      SameSplit(a[0], a[1], b[0], b[1], names);
    }
  }

  lemma OneDocItems(d: DocVectors)
    ensures Flat([d]) == DocItems(d)
  {
    hide DocItems;
    assert [d][..0] == [];
    assert Flat([]) == [];
  }

  lemma SameSplit(x: DocVectors, y: DocVectors, x': DocVectors, y': DocVectors, names: set<Text>)
    requires Ordered(x) && Ordered(y) && Ordered(x') && Ordered(y') && |names| <= 2
    requires NamesOf(x) + NamesOf(y) <= names && NamesOf(x') + NamesOf(y') <= names
    requires DocItems(x) + DocItems(y) == DocItems(x') + DocItems(y')
    ensures x == x' && y == y'
  {
    hide DocItems, Ordered;
    var p, q, p', q' := DocItems(x), DocItems(y), DocItems(x'), DocItems(y');
    if |p| < |p'| {
      TwoNames(x, y, x', y', names);
    } else if |p'| < |p| {
      TwoNames(x', y', x, y, names);
    } else {
      assert p == (p + q)[..|p|] == (p' + q')[..|p'|] == p';
      assert q == (p + q)[|p|..] == (p' + q')[|p'|..] == q';
      DocItemsInjective(x, x');
      DocItemsInjective(y, y');
    }
  }

  /** The flat list tells which document every field belongs to, for all segments of `count`
      documents over these names, exactly when the fields can be dealt out in one way only. */
  lemma FlatTellsDocsIff(names: set<Text>, excluded: set<Text>, o: Schema, count: nat)
    requires Short(names) && Short(excluded)
    ensures (forall a, b ::
               (ValidDocs(a, names, excluded, o) && ValidDocs(b, names, excluded, o) &&
                |a| == |b| == count && Flat(a) == Flat(b)) ==> a == b)
            <==> OneWay(names, count)
  {
    hide ValidDocs, Flat, OneWay;
    if OneWay(names, count) {
      forall a, b |
        ValidDocs(a, names, excluded, o) && ValidDocs(b, names, excluded, o) &&
        |a| == |b| == count && Flat(a) == Flat(b)
        ensures a == b
      {
        FlatTellsDocs(a, b, names, excluded, o, count);
      }
    } else {
      var a, b := TwoWays(names, excluded, o, count);
    }
  }
}
