/** `exact_top10` in scripts/bench-sparse-plugin.py: an inverted index (flatten, stable sort by
    token, offsets, scatter-add) scores every document, and the ten best are kept. Scores are
    real numbers; weights are float32 bit patterns cut to their upper seventeen bits. */
module SparseIndex {
  import opened Common

  const VOCAB: nat := 30000

  // ---------------------------------------------------------------------------
  // Weights
  // ---------------------------------------------------------------------------

  /** A non-negative finite float32. */
  type Bits = b: nat | b < 0x7F80_0000

  /** `w.view(uint32) >> 15 << 15` */
  function Truncate(b: Bits): (t: Bits) {
    b / 0x8000 * 0x8000
  }

  /** The number a pattern stands for, in units of 2^-149: exponent b / 2^23, fraction b % 2^23. */
  function Value(b: Bits): nat {
    var e, m := b / 0x80_0000, b % 0x80_0000;
    if e == 0 then m else (0x80_0000 + m) * Pow2(e - 1)
  }

  lemma ValueStep(b: Bits)
    requires b + 1 < 0x7F80_0000
    ensures Value(b) < Value(b + 1)
  {
    var e, m := b / 0x80_0000, b % 0x80_0000;
    if m + 1 < 0x80_0000 {
      assert (b + 1) / 0x80_0000 == e && (b + 1) % 0x80_0000 == m + 1;
      if e > 0 {
        assert (0x80_0000 + m + 1) * Pow2(e - 1) == (0x80_0000 + m) * Pow2(e - 1) + Pow2(e - 1);
      }
    } else {
      assert (b + 1) / 0x80_0000 == e + 1 && (b + 1) % 0x80_0000 == 0;
      if e > 0 {
        var p := Pow2(e - 1);
        assert Value(b) == (0x100_0000 - 1) * p && Value(b + 1) == 0x80_0000 * (2 * p);
      }
    }
  }

  lemma {:induction false} ValueMonotone(a: Bits, b: Bits)
    requires a <= b
    ensures Value(a) <= Value(b) && (Value(a) == Value(b) ==> a == b)
    decreases b - a
  {
    if a < b {
      ValueMonotone(a, b - 1);
      ValueStep(b - 1);
    }
  }

  /** Truncation never makes a weight larger and keeps the order of weights. */
  lemma TruncateMonotone(a: Bits, b: Bits)
    ensures Value(Truncate(a)) <= Value(a)
    ensures Value(a) <= Value(b) ==> Value(Truncate(a)) <= Value(Truncate(b))
  {
    hide Value;
    ValueMonotone(Truncate(a), a);
    if Value(a) <= Value(b) {
      if b < a {
        ValueMonotone(b, a);
      }
      assert a <= b;
      ValueMonotone(Truncate(a), Truncate(b));
    }
  }

  function Weight(b: Bits): real {
    Value(Truncate(b)) as real
  }

  /** A weight loses the low fifteen bits of its fraction, and less than a 256th of its size. Below
      exponent two it is the pattern, and a step of the exponent doubles it: 1.0 is 2^149. */
  lemma WeightExact(b: Bits)
    ensures b < 0x100_0000 ==> Weight(b) == (b - b % 0x8000) as real
    ensures 0x80_0000 <= b < 0x7F00_0000 ==> Weight(b + 0x80_0000) == 2.0 * Weight(b)
    ensures Value(Truncate(b)) as real == Weight(b)
    ensures 0x80_0000 <= b ==> 0 <= 256 * (Value(b) - Value(Truncate(b))) < Value(b)
    ensures Weight(0x3F80_0000) == Pow2(149) as real
  {
    Parts(b);
    if b >= 0x80_0000 {
      Shortened(b);
    }
    if 0x80_0000 <= b < 0x7F00_0000 {
      Doubled(b);
    }
    OneIs();
    hide Value;
    assert b < 0x100_0000 ==> Value(Truncate(b)) == Truncate(b) by {
      Small(Truncate(b));
    }
  }

  lemma Small(b: Bits)
    ensures b < 0x100_0000 ==> Value(b) == b
  {
  }

  lemma OneIs()
    ensures Weight(0x3F80_0000) == Pow2(149) as real
  {
    assert Truncate(0x3F80_0000) == 0x3F80_0000 == 127 * 0x80_0000;
    PowSum(126);
  }

  /** Truncation cuts the low bits, and exponent and high fraction bits stay. */
  lemma Parts(b: Bits)
    ensures Truncate(b) == b - b % 0x8000
    ensures Truncate(b) / 0x80_0000 == b / 0x80_0000
    ensures Truncate(b) % 0x80_0000 == b % 0x80_0000 - b % 0x8000
  {
  }

  lemma Doubled(b: Bits)
    requires 0x80_0000 <= b < 0x7F00_0000
    ensures Value(Truncate(b + 0x80_0000)) == 2 * Value(Truncate(b))
  {
    Parts(b);
    var t := Truncate(b);
    assert Truncate(b + 0x80_0000) == t + 0x80_0000;
    hide Truncate;
    ValueDoubles(t / 0x80_0000, t % 0x80_0000);
    assert t == t / 0x80_0000 * 0x80_0000 + t % 0x80_0000;
  }

  lemma ValueDoubles(e: nat, m: nat)
    requires 1 <= e < 254 && m < 0x80_0000
    ensures Value((e + 1) * 0x80_0000 + m) == 2 * Value(e * 0x80_0000 + m)
  {
    ValueOf(e, m);
    ValueOf(e + 1, m);
    hide Value;
    var p := Pow2(e - 1);
    assert (0x80_0000 + m) * (2 * p) == 2 * ((0x80_0000 + m) * p);
  }

  lemma ValueOf(e: nat, m: nat)
    requires 1 <= e < 255 && m < 0x80_0000
    ensures Value(e * 0x80_0000 + m) == (0x80_0000 + m) * Pow2(e - 1)
  {
    assert (e * 0x80_0000 + m) / 0x80_0000 == e && (e * 0x80_0000 + m) % 0x80_0000 == m;
  }

  lemma Shortened(b: Bits)
    requires 0x80_0000 <= b
    ensures 0 <= 256 * (Value(b) - Value(Truncate(b))) < Value(b)
  {
    Parts(b);
    var m, cut, p := b % 0x80_0000, b % 0x8000, Pow2(b / 0x80_0000 - 1);
    Scaled(m, cut, p);
  }

  lemma Scaled(m: nat, cut: nat, p: nat)
    requires cut < 0x8000 && p >= 1 && cut <= m
    ensures 0 <= 256 * ((0x80_0000 + m) * p - (0x80_0000 + (m - cut)) * p) < (0x80_0000 + m) * p
  {
    assert (0x80_0000 + m) * p - (0x80_0000 + (m - cut)) * p == cut * p;
    assert 256 * (cut * p) == (256 * cut) * p;
    var gap := 0x80_0000 + m - 256 * cut;
    assert gap * p >= 1;
    assert (0x80_0000 + m) * p == (256 * cut) * p + gap * p;
  }

  /** 2^23 units at exponent one. */
  lemma {:induction false} PowSum(k: nat)
    ensures 0x80_0000 * Pow2(k) == Pow2(k + 23)
    decreases k
  {
    if k > 0 {
      PowSum(k - 1);
    } else {
      assert Pow2(8) == 0x100 && Pow2(16) == 0x100 * Pow2(8) && Pow2(23) == 0x80 * Pow2(16);
    }
  }

  // ---------------------------------------------------------------------------
  // Documents and scores
  // ---------------------------------------------------------------------------

  /** A sparse vector: tokens with weights, no token twice. */
  type Vector = seq<(nat, Bits)>

  type Query = seq<(nat, real)>

  ghost predicate ValidVector(v: Vector) {
    && (forall i :: 0 <= i < |v| ==> v[i].0 < VOCAB)
    && forall i, j :: 0 <= i < j < |v| ==> v[i].0 != v[j].0
  }

  ghost predicate ValidDocs(docs: seq<Vector>) {
    forall d :: 0 <= d < |docs| ==> ValidVector(docs[d])
  }

  ghost predicate ValidQuery(q: Query) {
    forall i :: 0 <= i < |q| ==> q[i].0 < VOCAB
  }

  /** The weight of a token in a document, zero when it has none. */
  function WeightOf(v: Vector, t: nat): real {
    if v == [] then 0.0
    else if v[|v| - 1].0 == t then Weight(v[|v| - 1].1)
    else WeightOf(v[..|v| - 1], t)
  }

  /** The direct dot product. */
  function Dot(q: Query, v: Vector): real {
    if q == [] then 0.0
    else Dot(q[..|q| - 1], v) + q[|q| - 1].1 * WeightOf(v, q[|q| - 1].0)
  }

  // ---------------------------------------------------------------------------
  // The inverted index
  // ---------------------------------------------------------------------------

  datatype Entry = Entry(doc: nat, tok: nat, w: real)

  function EntriesOf(v: Vector, d: nat): (es: seq<Entry>) {
    if v == [] then []
    else EntriesOf(v[..|v| - 1], d) + [Entry(d, v[|v| - 1].0, Weight(v[|v| - 1].1))]
  }

  /** `doc`, `tok` and `w` side by side, document after document. */
  function Flatten(docs: seq<Vector>): (es: seq<Entry>) {
    if docs == [] then []
    else Flatten(docs[..|docs| - 1]) + EntriesOf(docs[|docs| - 1], |docs| - 1)
  }

  /** Stable insertion by token: behind everything not larger. */
  function Insert(s: seq<Entry>, e: Entry): (r: seq<Entry>)
    ensures |r| == |s| + 1
  {
    if s == [] || s[|s| - 1].tok <= e.tok then s + [e]
    else Insert(s[..|s| - 1], e) + [s[|s| - 1]]
  }

  /** `argsort(tok, kind="stable")` applied to the three arrays. */
  function SortByToken(es: seq<Entry>): (r: seq<Entry>)
    ensures |r| == |es|
  {
    if es == [] then [] else Insert(SortByToken(es[..|es| - 1]), es[|es| - 1])
  }

  /** `searchsorted(tok, t)`: the first entry with a token of at least t. */
  function Start(s: seq<Entry>, t: nat): (a: nat)
    ensures a <= |s|
  {
    if s == [] then 0
    else
      var a := Start(s[..|s| - 1], t);
      if a < |s| - 1 || s[|s| - 1].tok >= t then a else |s|
  }

  ghost predicate Sorted(s: seq<Entry>) {
    forall i, j :: 0 <= i < j < |s| ==> s[i].tok <= s[j].tok
  }

  lemma {:induction false} InsertSorted(s: seq<Entry>, e: Entry)
    requires Sorted(s)
    ensures Sorted(Insert(s, e))
    ensures forall x :: x in Insert(s, e) <==> x in s || x == e
    decreases |s|
  {
    if s != [] && s[|s| - 1].tok > e.tok {
      var init, last := s[..|s| - 1], s[|s| - 1];
      InsertSorted(init, e);
      var r := Insert(init, e);
      assert forall k :: 0 <= k < |r| ==> r[k] in r;
      assert s == init + [last];
    }
  }

  lemma {:induction false} SortSorted(es: seq<Entry>)
    ensures Sorted(SortByToken(es))
    ensures forall x :: x in SortByToken(es) <==> x in es
    decreases |es|
  {
    if es != [] {
      SortSorted(es[..|es| - 1]);
      InsertSorted(SortByToken(es[..|es| - 1]), es[|es| - 1]);
      assert es == es[..|es| - 1] + [es[|es| - 1]];
    }
  }

  lemma {:induction false} StartExact(s: seq<Entry>, t: nat)
    requires Sorted(s)
    ensures forall k :: 0 <= k < |s| ==> (k < Start(s, t) <==> s[k].tok < t)
    decreases |s|
  {
    if s != [] {
      var init := s[..|s| - 1];
      StartExact(init, t);
      var a := Start(init, t);
      assert forall k :: 0 <= k < |init| ==> init[k] == s[k];
      assert a < |init| ==> s[a].tok >= t;
    }
  }

  lemma {:induction false} StartGrows(s: seq<Entry>, t: nat)
    ensures Start(s, t) <= Start(s, t + 1)
    decreases |s|
  {
    if s != [] {
      StartGrows(s[..|s| - 1], t);
    }
  }

  // ---------------------------------------------------------------------------
  // Sums
  // ---------------------------------------------------------------------------

  /** What entries of token t give to document d. */
  function Gives(es: seq<Entry>, t: nat, d: nat): real {
    if es == [] then 0.0
    else
      var e := es[|es| - 1];
      Gives(es[..|es| - 1], t, d) + if e.tok == t && e.doc == d then e.w else 0.0
  }

  lemma {:induction false} GivesAppend(a: seq<Entry>, b: seq<Entry>, t: nat, d: nat)
    ensures Gives(a + b, t, d) == Gives(a, t, d) + Gives(b, t, d)
    decreases |b|
  {
    if b == [] {
      assert a + b == a;
    } else {
      assert (a + b)[..|a + b| - 1] == a + b[..|b| - 1];
      GivesAppend(a, b[..|b| - 1], t, d);
    }
  }

  lemma GivesOne(e: Entry, t: nat, d: nat)
    ensures Gives([e], t, d) == if e.tok == t && e.doc == d then e.w else 0.0
  {
    assert [e][..0] == [];
  }

  /** Sorting moves entries but gives nothing away. */
  lemma {:induction false} GivesInsert(s: seq<Entry>, e: Entry, t: nat, d: nat)
    ensures Gives(Insert(s, e), t, d) == Gives(s, t, d) + Gives([e], t, d)
    decreases |s|
  {
    if s == [] || s[|s| - 1].tok <= e.tok {
      GivesAppend(s, [e], t, d);
    } else {
      var init, last := s[..|s| - 1], s[|s| - 1];
      GivesInsert(init, e, t, d);
      GivesAppend(Insert(init, e), [last], t, d);
      GivesAppend(init, [last], t, d);
      assert s == init + [last];
    }
  }

  lemma {:induction false} GivesSort(es: seq<Entry>, t: nat, d: nat)
    ensures Gives(SortByToken(es), t, d) == Gives(es, t, d)
    decreases |es|
  {
    if es != [] {
      var init, last := es[..|es| - 1], es[|es| - 1];
      GivesSort(init, t, d);
      GivesInsert(SortByToken(init), last, t, d);
      GivesOne(last, t, d);
    }
  }

  lemma {:induction false} GivesNothing(es: seq<Entry>, t: nat, d: nat)
    requires forall k :: 0 <= k < |es| ==> es[k].tok != t || es[k].doc != d
    ensures Gives(es, t, d) == 0.0
    decreases |es|
  {
    if es != [] {
      GivesNothing(es[..|es| - 1], t, d);
    }
  }

  /** The slice between two offsets holds everything of its token. */
  lemma {:induction false} SliceGivesAll(s: seq<Entry>, t: nat, d: nat)
    requires Sorted(s)
    ensures Start(s, t) <= Start(s, t + 1)
    ensures Gives(s[Start(s, t)..Start(s, t + 1)], t, d) == Gives(s, t, d)
    ensures forall k :: Start(s, t) <= k < Start(s, t + 1) ==> s[k].tok == t
  {
    StartExact(s, t);
    StartExact(s, t + 1);
    var a, b := Start(s, t), Start(s, t + 1);
    StartGrows(s, t);
    assert s == s[..a] + s[a..b] + s[b..];
    GivesAppend(s[..a] + s[a..b], s[b..], t, d);
    GivesAppend(s[..a], s[a..b], t, d);
    GivesNothing(s[..a], t, d);
    GivesNothing(s[b..], t, d);
  }

  lemma {:induction false} VectorGives(v: Vector, own: nat, t: nat, d: nat)
    requires ValidVector(v)
    ensures Gives(EntriesOf(v, own), t, d) == if own == d then WeightOf(v, t) else 0.0
    ensures forall k :: 0 <= k < |EntriesOf(v, own)| ==>
              EntriesOf(v, own)[k].doc == own && EntriesOf(v, own)[k].tok < VOCAB
    decreases |v|
  {
    if v != [] {
      var init, last := v[..|v| - 1], v[|v| - 1];
      VectorGives(init, own, t, d);
      GivesAppend(EntriesOf(init, own), [Entry(own, last.0, Weight(last.1))], t, d);
      GivesOne(Entry(own, last.0, Weight(last.1)), t, d);
      if last.0 == t {
        Absent(init, t);
      }
    }
  }

  /** A document has each of its tokens with the weight given for it. */
  lemma {:induction false} WeightOfToken(v: Vector, i: nat)
    requires i < |v| && forall j, k :: 0 <= j < k < |v| ==> v[j].0 != v[k].0
    ensures WeightOf(v, v[i].0) == Weight(v[i].1)
    decreases |v|
  {
    hide Weight;
    if i < |v| - 1 {
      WeightOfToken(v[..|v| - 1], i);
    }
  }

  lemma {:induction false} Absent(v: Vector, t: nat)
    requires forall i :: 0 <= i < |v| ==> v[i].0 != t
    ensures WeightOf(v, t) == 0.0
    decreases |v|
  {
    if v != [] {
      Absent(v[..|v| - 1], t);
    }
  }

  /** The flattened corpus gives every document its own weight of the token. */
  lemma {:induction false} FlattenGives(docs: seq<Vector>, t: nat, d: nat)
    requires ValidDocs(docs)
    ensures Gives(Flatten(docs), t, d) == if d < |docs| then WeightOf(docs[d], t) else 0.0
    ensures forall k :: 0 <= k < |Flatten(docs)| ==> Flatten(docs)[k].doc < |docs|
    decreases |docs|
  {
    hide Gives, WeightOf, ValidVector, EntriesOf;
    GivesNothing([], t, d);
    if docs != [] {
      var init, n := docs[..|docs| - 1], |docs| - 1;
      FlattenGives(init, t, d);
      VectorGives(docs[n], n, t, d);
      GivesAppend(Flatten(init), EntriesOf(docs[n], n), t, d);
    }
  }

  // ---------------------------------------------------------------------------
  // Scoring
  // ---------------------------------------------------------------------------

  /** `np.add.at(s, doc[a:b], qw * w[a:b])` */
  method ScatterAdd(s: array<real>, es: seq<Entry>, t: nat, qw: real)
    requires forall k :: 0 <= k < |es| ==> es[k].doc < s.Length && es[k].tok == t
    modifies s
    ensures forall d :: 0 <= d < s.Length ==> s[d] == old(s[d]) + qw * Gives(es, t, d)
  {
    hide Gives;
    forall d | 0 <= d < s.Length
      ensures qw * Gives(es[..0], t, d) == 0.0
    {
      GivesNothing(es[..0], t, d);
    }
    for i := 0 to |es|
      invariant forall d :: 0 <= d < s.Length ==> s[d] == old(s[d]) + qw * Gives(es[..i], t, d)
    {
      var e := es[i];
      s[e.doc] := s[e.doc] + qw * e.w;
      forall d | 0 <= d < s.Length
        ensures qw * Gives(es[..i + 1], t, d) == qw * Gives(es[..i], t, d) + if e.doc == d then qw * e.w else 0.0
      {
        GivesNext(es, i, t, d);
        Distribute(qw, Gives(es[..i], t, d), if e.doc == d then e.w else 0.0);
      }
    }
    assert es[..|es|] == es;
  }

  lemma GivesNext(es: seq<Entry>, i: nat, t: nat, d: nat)
    requires i < |es| && es[i].tok == t
    ensures Gives(es[..i + 1], t, d) == Gives(es[..i], t, d) + if es[i].doc == d then es[i].w else 0.0
  {
    assert es[..i + 1][..i] == es[..i];
  }

  lemma Distribute(a: real, x: real, y: real)
    ensures a * (x + y) == a * x + a * y && a * 0.0 == 0.0
  {
  }

  ghost predicate IndexOf(index: seq<Entry>, docs: seq<Vector>) {
    ValidDocs(docs) && index == SortByToken(Flatten(docs))
  }

  /** One query: every document gets its dot product. */
  method ScoreQuery(index: seq<Entry>, q: Query, ghost docs: seq<Vector>, n: nat) returns (s: array<real>)
    requires IndexOf(index, docs) && ValidQuery(q) && n == |docs|
    ensures fresh(s) && s.Length == n
    ensures forall d :: 0 <= d < n ==> s[d] == Dot(q, docs[d])
  {
    hide Gives, SortByToken, Flatten, WeightOf;
    s := new real[n](_ => 0.0);
    IndexFacts(index, docs);
    for i := 0 to |q|
      invariant forall d :: 0 <= d < n ==> s[d] == Dot(q[..i], docs[d])
    {
      var t, qw := q[i].0, q[i].1;
      SliceFacts(index, docs, t);
      var a, b := Start(index, t), Start(index, t + 1);
      assert q[..i + 1][..i] == q[..i];
      ScatterAdd(s, index[a..b], t, qw);
    }
    assert q[..|q|] == q;
  }

  lemma IndexFacts(index: seq<Entry>, docs: seq<Vector>)
    requires IndexOf(index, docs)
    ensures Sorted(index) && forall k :: 0 <= k < |index| ==> index[k].doc < |docs|
  {
    hide SortByToken, Flatten;
    SortSorted(Flatten(docs));
    FlattenGives(docs, 0, 0);
    assert forall k :: 0 <= k < |index| ==> index[k] in index;
  }

  lemma SliceFacts(index: seq<Entry>, docs: seq<Vector>, t: nat)
    requires IndexOf(index, docs)
    ensures Start(index, t) <= Start(index, t + 1)
    ensures forall k :: Start(index, t) <= k < Start(index, t + 1) ==> index[k].tok == t && index[k].doc < |docs|
    ensures forall d :: 0 <= d < |docs| ==>
              Gives(index[Start(index, t)..Start(index, t + 1)], t, d) == WeightOf(docs[d], t)
  {
    hide SortByToken, Flatten, Gives, WeightOf, Start;
    IndexFacts(index, docs);
    SliceGivesAll(index, t, 0);
    forall d | 0 <= d < |docs|
      ensures Gives(index[Start(index, t)..Start(index, t + 1)], t, d) == WeightOf(docs[d], t)
    {
      SliceGivesAll(index, t, d);
      GivesSort(Flatten(docs), t, d);
      FlattenGives(docs, t, d);
    }
  }

  // ---------------------------------------------------------------------------
  // The ten best
  // ---------------------------------------------------------------------------

  /** j comes before i: a higher score, or the same score and a lower id. */
  predicate Better(s: seq<real>, j: nat, i: nat)
    requires j < |s| && i < |s|
  {
    s[j] > s[i] || (s[j] == s[i] && j < i)
  }

  /** `argsort(-s, kind="stable")` of the first n ids, id by id. */
  function Place(s: seq<real>, order: seq<nat>, i: nat): (r: seq<nat>)
    requires i < |s| && forall k :: 0 <= k < |order| ==> order[k] < |s|
    ensures |r| == |order| + 1 && forall k :: 0 <= k < |r| ==> r[k] < |s|
  {
    if order == [] || !Better(s, i, order[|order| - 1]) then order + [i]
    else Place(s, order[..|order| - 1], i) + [order[|order| - 1]]
  }

  function Ordered(s: seq<real>, n: nat): (order: seq<nat>)
    requires n <= |s|
    ensures |order| == n && forall k :: 0 <= k < n ==> order[k] < |s|
  {
    if n == 0 then [] else Place(s, Ordered(s, n - 1), n - 1)
  }

  ghost predicate InOrder(s: seq<real>, order: seq<nat>) {
    && (forall k :: 0 <= k < |order| ==> order[k] < |s|)
    && forall j, k :: 0 <= j < k < |order| ==> Better(s, order[j], order[k])
  }

  lemma {:induction false} PlaceInOrder(s: seq<real>, order: seq<nat>, i: nat)
    requires i < |s| && InOrder(s, order) && i !in order
    ensures InOrder(s, Place(s, order, i))
    ensures forall x :: x in Place(s, order, i) <==> x in order || x == i
    decreases |order|
  {
    if order != [] {
      var init, last := order[..|order| - 1], order[|order| - 1];
      assert order == init + [last];
      if Better(s, i, last) {
        PlaceInOrder(s, init, i);
        var r := Place(s, init, i);
        forall j | 0 <= j < |r|
          ensures Better(s, r[j], last)
        {
          assert r[j] in r;
        }
      } else {
        assert last in order;
      }
    }
  }

  lemma {:induction false} OrderedInOrder(s: seq<real>, n: nat)
    requires n <= |s|
    ensures InOrder(s, Ordered(s, n))
    ensures forall x: nat :: x in Ordered(s, n) <==> x < n
    decreases n
  {
    if n > 0 {
      OrderedInOrder(s, n - 1);
      PlaceInOrder(s, Ordered(s, n - 1), n - 1);
    }
  }

  /** The documents that come before i. */
  ghost function Ahead(s: seq<real>, i: nat): set<nat>
    requires i < |s|
  {
    set j | 0 <= j < |s| && Better(s, j, i)
  }

  /** A document's position in the order is the number of documents ahead of it. */
  lemma {:induction false} PositionIsRank(s: seq<real>, p: nat)
    requires p < |s|
    ensures |Ahead(s, Ordered(s, |s|)[p])| == p
  {
    hide Ordered;
    var order := Ordered(s, |s|);
    OrderedInOrder(s, |s|);
    var i := order[p];
    var before := ToSet(order[..p]);
    forall j: nat
      ensures j in before <==> j in Ahead(s, i)
    {
      if j in Ahead(s, i) {
        assert j in order;
        var k :| 0 <= k < |order| && order[k] == j;
        assert k < p;
        assert order[..p][k] == j;
      }
      if j in before {
        var k :| 0 <= k < p && order[..p][k] == j;
        assert Better(s, order[k], order[p]);
      }
    }
    assert before == Ahead(s, i);
    DistinctCard(order[..p]);
  }

  ghost function ToSet(ids: seq<nat>): set<nat> {
    set k | k in ids
  }

  lemma {:induction false} DistinctCard(ids: seq<nat>)
    requires forall j, k :: 0 <= j < k < |ids| ==> ids[j] != ids[k]
    ensures |ToSet(ids)| == |ids|
    decreases |ids|
  {
    if ids == [] {
      assert ToSet(ids) == {};
    } else {
      var init, last := ids[..|ids| - 1], ids[|ids| - 1];
      DistinctCard(init);
      assert ids == init + [last];
      assert ToSet(ids) == ToSet(init) + {last};
    }
  }

  /** The positive-scoring documents with fewer than ten ahead of them. */
  ghost predicate IsTop(s: seq<real>, i: nat) {
    i < |s| && s[i] > 0.0 && |Ahead(s, i)| < 10
  }

  method Top10(s: seq<real>) returns (top: set<nat>)
    ensures forall i :: i in top <==> IsTop(s, i)
    ensures forall i: nat :: i in top <==>
              && i < |s| && s[i] > 0.0
              && |set j | 0 <= j < |s| && (s[j] > s[i] || (s[j] == s[i] && j < i))| < 10
  {
    hide Ordered, Ahead;
    var order := Ordered(s, |s|);
    OrderedInOrder(s, |s|);
    var n := if |s| < 10 then |s| else 10;
    top := {};
    for p := 0 to n
      invariant forall i :: i in top <==> exists k :: 0 <= k < p && order[k] == i && s[i] > 0.0
    {
      if s[order[p]] > 0.0 {
        top := top + {order[p]};
      }
    }
    forall i
      ensures i in top <==> IsTop(s, i)
    {
      if IsTop(s, i) {
        assert i in order;
        var p :| 0 <= p < |order| && order[p] == i;
        PositionIsRank(s, p);
        assert p < n;
      }
      if i in top {
        var p :| 0 <= p < n && order[p] == i;
        PositionIsRank(s, p);
      }
    }
    forall i: nat | i < |s|
      ensures Ahead(s, i) == set j | 0 <= j < |s| && (s[j] > s[i] || (s[j] == s[i] && j < i))
    {
      AheadExact(s, i);
    }
  }

  lemma AheadExact(s: seq<real>, i: nat)
    requires i < |s|
    ensures Ahead(s, i) == set j | 0 <= j < |s| && (s[j] > s[i] || (s[j] == s[i] && j < i))
  {
  }

  /** `exact_top10`: for every query, the positive part of the ten best by dot product. */
  method ExactTop10(docs: seq<Vector>, qs: seq<Query>) returns (out: seq<set<nat>>)
    requires forall d :: 0 <= d < |docs| ==>
               && (forall i :: 0 <= i < |docs[d]| ==> docs[d][i].0 < 30000)
               && forall i, j :: 0 <= i < j < |docs[d]| ==> docs[d][i].0 != docs[d][j].0
    requires forall k, i :: 0 <= k < |qs| && 0 <= i < |qs[k]| ==> qs[k][i].0 < 30000
    ensures |out| == |qs|
    ensures forall k, i :: 0 <= k < |qs| ==> (i in out[k] <==> IsTop(Scores(docs, qs[k]), i))
  {
    hide SortByToken, Flatten, Dot, IsTop;
    var index := SortByToken(Flatten(docs));
    out := [];
    for k := 0 to |qs|
      invariant |out| == k
      invariant forall j, i :: 0 <= j < k ==> (i in out[j] <==> IsTop(Scores(docs, qs[j]), i))
    {
      var s := ScoreQuery(index, qs[k], docs, |docs|);
      assert s[..] == Scores(docs, qs[k]);
      var top := Top10(s[..]);
      out := out + [top];
    }
  }

  function Scores(docs: seq<Vector>, q: Query): (s: seq<real>)
    ensures |s| == |docs| && forall d :: 0 <= d < |docs| ==> s[d] == Dot(q, docs[d])
  {
    seq(|docs|, d requires 0 <= d < |docs| => Dot(q, docs[d]))
  }
}
