/** The slots and the postings part of `describe` in fixtures/bwc/BwcMergeCheck.java.

    Whatever the leaf split, the merge order, the deleted postings and the terms left with
    none, the description of a field is the same as that of one leaf holding the live
    documents in rank order; and it is the same for two readers exactly when the documents
    with equal ranks have equal postings. */
module MergePostings {
  import opened Common
  import opened VarInt
  import opened TextOrder
  import opened PostingsStream
  import opened PostingText
  import opened MergeRanks

  // ---------------------------------------------------------------------------
  // Slots
  // ---------------------------------------------------------------------------

  predicate Before(x: Doc, leaf: nat, doc: nat) {
    x.leaf < leaf || (x.leaf == leaf && x.doc < doc)
  }

  /** The slots of the documents already seen are filled, the others empty. */
  ghost predicate FilledUpTo(slots: seq<Option<Doc>>, order: seq<Doc>, leaf: nat, doc: nat) {
    && |slots| == |order|
    && forall k :: 0 <= k < |order| ==> slots[k] == if Before(order[k], leaf, doc) then Some(order[k]) else None
  }

  /** `live` of `describe`: every slot gets exactly the document with that rank. */
  method FillSlots(r: Reader, ranks: Ranks, ghost order: seq<Doc>) returns (slots: seq<Option<Doc>>)
    requires ValidReader(r) && Numbers(ranks, r, order)
    ensures |slots| == |order| && forall k :: 0 <= k < |order| ==> slots[k] == Some(order[k])
  {
    hide LiveOf;
    var live := Live(r);
    slots := seq(|live|, _ => None);
    for leaf := 0 to |r|
      invariant FilledUpTo(slots, order, leaf, 0)
    {
      for d := 0 to |ranks[leaf]|
        invariant FilledUpTo(slots, order, leaf, d)
      {
        assert IsDoc(r, Doc(leaf, d));
        if ranks[leaf][d] >= 0 {
          assert order[ranks[leaf][d]] == Doc(leaf, d);
          assert slots[ranks[leaf][d]] == None; // in bounds, and filled only here
          slots := slots[ranks[leaf][d] := Some(Doc(leaf, d))];
        }
      }
    }
  }

  // ---------------------------------------------------------------------------
  // One field's postings
  // ---------------------------------------------------------------------------

  function ContentOf(p: Posting): Content {
    Content(p.freq, p.positions)
  }

  /** Postings come in document order, and hold what the field records. */
  ghost predicate ValidPostings(ps: seq<Posting>, maxDoc: nat, positions: bool) {
    && (forall j :: 0 <= j < |ps| ==> 0 <= ps[j].doc < maxDoc && Kept(ContentOf(ps[j]), positions))
    && forall i, j :: 0 <= i < j < |ps| ==> ps[i].doc < ps[j].doc
  }

  ghost predicate ValidField(r: Reader, positions: bool) {
    forall o, k :: 0 <= o < |r| && 0 <= k < |r[o].terms| ==>
      ValidPostings(r[o].terms[k].postings, r[o].maxDoc, positions)
  }

  /** What a segment can hold: frequencies are positive ints and, where positions are recorded,
      count them; positions and offsets do not go backwards. */
  lemma RealPostings(r: Reader, positions: bool, o: nat, k: nat, j: nat)
    requires ValidField(r, positions) && o < |r| && k < |r[o].terms| && j < |r[o].terms[k].postings|
    ensures var p := r[o].terms[k].postings[j];
            && 0 <= p.doc < r[o].maxDoc && 1 <= p.freq <= 2147483647
            && (positions ==> p.freq == |p.positions|)
            && (forall x :: 0 <= x < |p.positions| ==> 0 <= p.positions[x].pos <= 2147483647)
            && (forall x, y :: 0 <= x < y < |p.positions| ==>
                  p.positions[x].pos <= p.positions[y].pos && p.positions[x].start <= p.positions[y].start)
            && (forall x :: 0 <= x < |p.positions| ==> -1 <= p.positions[x].start <= p.positions[x].end <= 2147483647)
  {
    assert ValidPostings(r[o].terms[k].postings, r[o].maxDoc, positions);
  }


  /** `seekExact` and `postings`; nothing when the leaf has no such term. */
  function Seek(ts: seq<TermPostings>, t: Text): (ps: seq<Posting>) {
    if ts == [] then [] else if ts[0].term == t then ts[0].postings else Seek(ts[1..], t)
  }

  lemma {:induction false} SeekValid(ts: seq<TermPostings>, t: Text, maxDoc: nat, positions: bool)
    requires forall k :: 0 <= k < |ts| ==> ValidPostings(ts[k].postings, maxDoc, positions)
    ensures ValidPostings(Seek(ts, t), maxDoc, positions)
    ensures Seek(ts, t) != [] ==> exists k :: 0 <= k < |ts| && ts[k].term == t
    decreases |ts|
  {
    if ts != [] && ts[0].term != t {
      SeekValid(ts[1..], t, maxDoc, positions);
      if Seek(ts, t) != [] {
        var k :| 0 <= k < |ts[1..]| && ts[1..][k].term == t;
        assert ts[k + 1].term == t;
      }
    }
  }

  /** The texts of the first n postings of a leaf, skipping deleted documents. */
  function LeafTexts(row: seq<int>, ps: seq<Posting>, n: nat, positions: bool): (texts: seq<Text>)
    requires n <= |ps| && forall j :: 0 <= j < |ps| ==> 0 <= ps[j].doc < |row|
  {
    if n == 0 then []
    else
      var rank := row[ps[n - 1].doc];
      LeafTexts(row, ps, n - 1, positions)
      + (if rank < 0 then [] else [Render(rank, ContentOf(ps[n - 1]), positions)])
  }

  ghost predicate Ready(r: Reader, ranks: Ranks, positions: bool) {
    ValidReader(r) && ValidField(r, positions) && Fits(ranks, r)
  }

  lemma SeekReady(r: Reader, ranks: Ranks, positions: bool, o: nat, t: Text)
    requires Ready(r, ranks, positions) && o < |r|
    ensures ValidPostings(Seek(r[o].terms, t), r[o].maxDoc, positions)
    ensures forall j :: 0 <= j < |Seek(r[o].terms, t)| ==> 0 <= Seek(r[o].terms, t)[j].doc < |ranks[o]|
    ensures Seek(r[o].terms, t) != [] ==> exists k :: 0 <= k < |r[o].terms| && r[o].terms[k].term == t
  {
    SeekValid(r[o].terms, t, r[o].maxDoc, positions);
  }

  /** `one`, before it is sorted: the texts of a term over the first m leaves. */
  function Texts(r: Reader, ranks: Ranks, positions: bool, t: Text, m: nat): (texts: seq<Text>)
    requires Ready(r, ranks, positions) && m <= |r|
  {
    if m == 0 then []
    else
      SeekReady(r, ranks, positions, m - 1, t);
      var ps := Seek(r[m - 1].terms, t);
      Texts(r, ranks, positions, t, m - 1) + LeafTexts(ranks[m - 1], ps, |ps|, positions)
  }

  /** `terms`: the tree set of all terms of the first m leaves. */
  function LeafTerms(acc: seq<Text>, ts: seq<TermPostings>, n: nat): (terms: seq<Text>)
    requires n <= |ts|
  {
    if n == 0 then acc else Add(LeafTerms(acc, ts, n - 1), ts[n - 1].term)
  }

  function AllTerms(r: Reader, m: nat): (terms: seq<Text>)
    requires m <= |r|
  {
    if m == 0 then [] else LeafTerms(AllTerms(r, m - 1), r[m - 1].terms, |r[m - 1].terms|)
  }

  /** A term and its sorted posting texts. */
  datatype Line = Line(term: Text, texts: seq<Text>)

  /** The terms that still have a posting, with their texts. */
  function Lines(r: Reader, ranks: Ranks, positions: bool, terms: seq<Text>): (lines: seq<Line>)
    requires Ready(r, ranks, positions)
  {
    if terms == [] then []
    else
      var t := terms[|terms| - 1];
      var one := Texts(r, ranks, positions, t, |r|);
      Lines(r, ranks, positions, terms[..|terms| - 1]) + (if one == [] then [] else [Line(t, Sort(one))])
  }

  function Describe(r: Reader, ranks: Ranks, positions: bool): (lines: seq<Line>)
    requires Ready(r, ranks, positions)
  {
    Lines(r, ranks, positions, AllTerms(r, |r|))
  }

  // --- what the digest is fed

  function TextsBytes(texts: seq<Text>): seq<Byte> {
    if texts == [] then [] else TextsBytes(texts[..|texts| - 1]) + B(texts[|texts| - 1])
  }

  function LineBytes(line: Line): seq<Byte> {
    B(line.term) + TextsBytes(line.texts)
  }

  function LinesBytes(lines: seq<Line>): seq<Byte> {
    if lines == [] then [] else LinesBytes(lines[..|lines| - 1]) + LineBytes(lines[|lines| - 1])
  }

  method CollectTerms(r: Reader) returns (terms: seq<Text>)
    ensures terms == AllTerms(r, |r|)
  {
    terms := [];
    for o := 0 to |r|
      invariant terms == AllTerms(r, o)
    {
      ghost var before := terms;
      for k := 0 to |r[o].terms|
        invariant terms == LeafTerms(before, r[o].terms, k)
      {
        terms := Add(terms, r[o].terms[k].term);
      }
    }
  }

  method CollectTexts(r: Reader, ranks: Ranks, positions: bool, t: Text) returns (one: seq<Text>)
    requires Ready(r, ranks, positions)
    ensures one == Texts(r, ranks, positions, t, |r|)
  {
    hide Render;
    one := [];
    for o := 0 to |r|
      invariant one == Texts(r, ranks, positions, t, o)
    {
      SeekReady(r, ranks, positions, o, t);
      var ps := Seek(r[o].terms, t);
      ghost var before := one;
      for j := 0 to |ps|
        invariant one == before + LeafTexts(ranks[o], ps, j, positions)
      {
        var rank := ranks[o][ps[j].doc];
        if rank >= 0 {
          one := one + [Render(rank, ContentOf(ps[j]), positions)];
        }
      }
    }
  }

  /** `d.b(term)` and `d.s(p)` for every text. */
  method FeedLine(stream0: seq<Byte>, line: Line) returns (stream: seq<Byte>)
    ensures stream == stream0 + LineBytes(line)
  {
    hide B;
    stream := stream0 + B(line.term);
    for k := 0 to |line.texts|
      invariant stream == stream0 + (B(line.term) + TextsBytes(line.texts[..k]))
    {
      stream := stream + B(line.texts[k]);
      assert line.texts[..k + 1][..k] == line.texts[..k];
    }
    assert line.texts[..|line.texts|] == line.texts;
  }

  /** The postings part of `describe`: the term count and what the digest is fed. */
  method DescribePostings(r: Reader, ranks: Ranks, positions: bool) returns (termCount: nat, stream: seq<Byte>)
    requires Ready(r, ranks, positions)
    ensures termCount == |Describe(r, ranks, positions)|
    ensures stream == LinesBytes(Describe(r, ranks, positions))
  {
    hide Ready, Texts, Sort, LineBytes, Lines, LinesBytes;
    EmptyDescription(r, ranks, positions);
    var terms := CollectTerms(r);
    termCount, stream := 0, [];
    for i := 0 to |terms|
      invariant termCount == |Lines(r, ranks, positions, terms[..i])|
      invariant stream == LinesBytes(Lines(r, ranks, positions, terms[..i]))
    {
      NextLine(r, ranks, positions, terms, i);
      var one := CollectTexts(r, ranks, positions, terms[i]);
      if one != [] {
        var line := Line(terms[i], Sort(one));
        OneMoreLine(Lines(r, ranks, positions, terms[..i]), line);
        termCount := termCount + 1;
        stream := FeedLine(stream, line);
      }
    }
    assert terms[..|terms|] == terms;
  }

  lemma EmptyDescription(r: Reader, ranks: Ranks, positions: bool)
    requires Ready(r, ranks, positions)
    ensures Lines(r, ranks, positions, []) == [] && LinesBytes([]) == []
  {
  }

  lemma {:induction false} NextLine(r: Reader, ranks: Ranks, positions: bool, terms: seq<Text>, i: nat)
    requires Ready(r, ranks, positions) && i < |terms|
    ensures var one, lines := Texts(r, ranks, positions, terms[i], |r|), Lines(r, ranks, positions, terms[..i]);
            Lines(r, ranks, positions, terms[..i + 1]) ==
            if one == [] then lines else lines + [Line(terms[i], Sort(one))]
  {
    assert terms[..i + 1][..i] == terms[..i];
    assert Lines(r, ranks, positions, terms[..i]) + [] == Lines(r, ranks, positions, terms[..i]);
  }

  lemma OneMoreLine(lines: seq<Line>, line: Line)
    ensures LinesBytes(lines + [line]) == LinesBytes(lines) + LineBytes(line)
  {
    assert (lines + [line])[..|lines|] == lines;
  }

  // ---------------------------------------------------------------------------
  // What a document holds
  // ---------------------------------------------------------------------------

  ghost predicate HasPosting(ps: seq<Posting>, d: nat, c: Content) {
    exists j :: 0 <= j < |ps| && ps[j].doc == d && ContentOf(ps[j]) == c
  }

  /** Document x has term t with content c. */
  ghost predicate Holds(r: Reader, x: Doc, t: Text, c: Content)
    requires x.leaf < |r|
  {
    HasPosting(Seek(r[x.leaf].terms, t), x.doc, c)
  }

  ghost predicate Numbered(r: Reader, ranks: Ranks, order: seq<Doc>, positions: bool) {
    Ready(r, ranks, positions) && Numbers(ranks, r, order) && |order| < 0x8000_0000
  }

  /** e is the text of the posting some document has for t. */
  ghost predicate IsText(r: Reader, order: seq<Doc>, positions: bool, t: Text, e: Text)
    requires forall k :: 0 <= k < |order| ==> order[k].leaf < |r|
  {
    exists k, c :: 0 <= k < |order| && Holds(r, order[k], t, c) && e == Render(k, c, positions)
  }

  /** e is the text of one of the first n postings of leaf o. */
  ghost predicate IsLeafText(row: seq<int>, ps: seq<Posting>, n: nat, positions: bool, e: Text)
    requires n <= |ps| && forall j :: 0 <= j < |ps| ==> 0 <= ps[j].doc < |row|
  {
    exists j :: 0 <= j < n && row[ps[j].doc] >= 0 && e == Render(row[ps[j].doc], ContentOf(ps[j]), positions)
  }

  lemma {:induction false} LeafTextsExact(row: seq<int>, ps: seq<Posting>, n: nat, positions: bool)
    requires n <= |ps| && forall j :: 0 <= j < |ps| ==> 0 <= ps[j].doc < |row|
    requires forall i, j :: 0 <= i < j < |ps| ==> ps[i].doc < ps[j].doc
    requires forall i, j :: 0 <= i < j < |row| && row[i] >= 0 && row[j] >= 0 ==> row[i] != row[j]
    requires forall i :: 0 <= i < |row| ==> row[i] < 0x8000_0000
    ensures forall e :: e in LeafTexts(row, ps, n, positions) <==> IsLeafText(row, ps, n, positions, e)
    ensures Distinct(LeafTexts(row, ps, n, positions))
    decreases n
  {
    hide Render;
    if n > 0 {
      LeafTextsExact(row, ps, n - 1, positions);
      var init, p := LeafTexts(row, ps, n - 1, positions), ps[n - 1];
      if row[p.doc] >= 0 {
        var e := Render(row[p.doc], ContentOf(p), positions);
        if e in init {
          var j :| 0 <= j < n - 1 && row[ps[j].doc] >= 0 && e == Render(row[ps[j].doc], ContentOf(ps[j]), positions);
          RenderTellsRank(row[ps[j].doc], row[p.doc], ContentOf(ps[j]), ContentOf(p), positions);
          assert false;
        }
        assert forall x :: x in init + [e] <==> x in init || x == e;
      }
    }
  }

  /** A numbering's rows never repeat a rank, neither within a leaf nor across leaves. */
  lemma RowsApart(r: Reader, ranks: Ranks, order: seq<Doc>, positions: bool, o: nat)
    requires Numbered(r, ranks, order, positions) && o < |r|
    ensures forall i, j :: 0 <= i < j < |ranks[o]| && ranks[o][i] >= 0 && ranks[o][j] >= 0 ==>
              ranks[o][i] != ranks[o][j]
    ensures forall i :: 0 <= i < |ranks[o]| ==> ranks[o][i] < 0x8000_0000
  {
    hide LiveOf;
    forall i | 0 <= i < |ranks[o]|
      ensures ranks[o][i] >= 0 ==> ranks[o][i] < |order| && order[ranks[o][i]] == Doc(o, i)
    {
      assert IsDoc(r, Doc(o, i));
    }
  }

  /** e comes from a document of the first m leaves. */
  ghost predicate IsTextUpTo(r: Reader, order: seq<Doc>, positions: bool, t: Text, m: nat, e: Text)
    requires forall k :: 0 <= k < |order| ==> order[k].leaf < |r|
  {
    exists k, c ::
      0 <= k < |order| && order[k].leaf < m && Holds(r, order[k], t, c) && e == Render(k, c, positions)
  }

  lemma LeafTextIsText(
    r: Reader, ranks: Ranks, order: seq<Doc>, positions: bool, t: Text, o: nat, ps: seq<Posting>, e: Text)
    requires Numbered(r, ranks, order, positions) && o < |r| && ps == Seek(r[o].terms, t)
    requires forall j :: 0 <= j < |ps| ==> 0 <= ps[j].doc < |ranks[o]|
    ensures IsLeafText(ranks[o], ps, |ps|, positions, e) <==>
              exists k, c ::
                0 <= k < |order| && order[k].leaf == o && Holds(r, order[k], t, c) && e == Render(k, c, positions)
  {
    hide LiveOf, Render, Seek;
    if IsLeafText(ranks[o], ps, |ps|, positions, e) {
      var j :| 0 <= j < |ps| && ranks[o][ps[j].doc] >= 0 &&
               e == Render(ranks[o][ps[j].doc], ContentOf(ps[j]), positions);
      var x, k := Doc(o, ps[j].doc), ranks[o][ps[j].doc];
      assert IsDoc(r, x);
      assert order[k] == x;
      assert Holds(r, order[k], t, ContentOf(ps[j]));
    }
    if k, c :| 0 <= k < |order| && order[k].leaf == o && Holds(r, order[k], t, c) && e == Render(k, c, positions) {
      var j :| 0 <= j < |ps| && ps[j].doc == order[k].doc && ContentOf(ps[j]) == c;
      assert ranks[o][ps[j].doc] == k;
    }
  }

  /** Before sorting, the texts of a term are those of the documents holding it, each once. */
  lemma {:induction false} TextsExact(r: Reader, ranks: Ranks, order: seq<Doc>, positions: bool, t: Text, m: nat)
    requires Numbered(r, ranks, order, positions) && m <= |r|
    ensures Distinct(Texts(r, ranks, positions, t, m))
    ensures forall e :: e in Texts(r, ranks, positions, t, m) <==> IsTextUpTo(r, order, positions, t, m, e)
    decreases m
  {
    hide Render, Seek, LiveOf, LeafTexts;
    if m > 0 {
      var o := m - 1;
      TextsExact(r, ranks, order, positions, t, o);
      SeekReady(r, ranks, positions, o, t);
      RowsApart(r, ranks, order, positions, o);
      var ps := Seek(r[o].terms, t);
      LeafTextsExact(ranks[o], ps, |ps|, positions);
      var a, b := Texts(r, ranks, positions, t, o), LeafTexts(ranks[o], ps, |ps|, positions);
      forall e
        ensures e in a + b <==> IsTextUpTo(r, order, positions, t, m, e)
        ensures !(e in a && e in b)
      {
        LeafTextIsText(r, ranks, order, positions, t, o, ps, e);
        SplitLeaf(r, order, positions, t, o, e);
        if e in a && e in b {
          var k, c :| 0 <= k < |order| && order[k].leaf < o && Holds(r, order[k], t, c) && e == Render(k, c, positions);
          var k', c' :| 0 <= k' < |order| && order[k'].leaf == o && Holds(r, order[k'], t, c') &&
                        e == Render(k', c', positions);
          RenderTellsRank(k, k', c, c', positions);
          assert false;
        }
      }
      assert forall i :: 0 <= i < |a| ==> a[i] in a;
      assert forall i :: 0 <= i < |b| ==> b[i] in b;
    }
  }

  lemma SplitLeaf(r: Reader, order: seq<Doc>, positions: bool, t: Text, o: nat, e: Text)
    requires forall k :: 0 <= k < |order| ==> order[k].leaf < |r|
    ensures IsTextUpTo(r, order, positions, t, o + 1, e) <==>
            || IsTextUpTo(r, order, positions, t, o, e)
            || exists k, c ::
                 0 <= k < |order| && order[k].leaf == o && Holds(r, order[k], t, c) && e == Render(k, c, positions)
  {
    hide Render, Holds;
  }

  // ---------------------------------------------------------------------------
  // The description, whatever the leaves
  // ---------------------------------------------------------------------------

  lemma {:induction false} LeafTermsMembers(acc: seq<Text>, ts: seq<TermPostings>, n: nat)
    requires Ascending(acc) && n <= |ts|
    ensures Ascending(LeafTerms(acc, ts, n))
    ensures forall t :: t in LeafTerms(acc, ts, n) <==> t in acc || exists k :: 0 <= k < n && ts[k].term == t
    decreases n
  {
    if n > 0 {
      LeafTermsMembers(acc, ts, n - 1);
      AddMembers(LeafTerms(acc, ts, n - 1), ts[n - 1].term);
    }
  }

  lemma {:induction false} AllTermsMembers(r: Reader, m: nat)
    requires m <= |r|
    ensures Ascending(AllTerms(r, m))
    ensures forall t :: t in AllTerms(r, m) <==>
              exists o, k :: 0 <= o < m && 0 <= k < |r[o].terms| && r[o].terms[k].term == t
    decreases m
  {
    if m > 0 {
      AllTermsMembers(r, m - 1);
      LeafTermsMembers(AllTerms(r, m - 1), r[m - 1].terms, |r[m - 1].terms|);
    }
  }

  function TermsOf(lines: seq<Line>): (ts: seq<Text>)
    ensures |ts| == |lines| && forall k :: 0 <= k < |ts| ==> ts[k] == lines[k].term
  {
    seq(|lines|, k requires 0 <= k < |lines| => lines[k].term)
  }

  /** The lines are those of the terms that have a text, in term order. */
  ghost predicate Tabulates(lines: seq<Line>, terms: seq<Text>, r: Reader, ranks: Ranks, positions: bool)
    requires Ready(r, ranks, positions)
  {
    && Ascending(TermsOf(lines))
    && (forall t :: t in TermsOf(lines) <==> t in terms && Texts(r, ranks, positions, t, |r|) != [])
    && forall l :: l in lines ==> l.texts == Sort(Texts(r, ranks, positions, l.term, |r|))
  }

  lemma {:induction false} LinesExact(r: Reader, ranks: Ranks, positions: bool, terms: seq<Text>)
    requires Ready(r, ranks, positions) && Ascending(terms)
    ensures Tabulates(Lines(r, ranks, positions, terms), terms, r, ranks, positions)
    decreases |terms|
  {
    hide Ready, Texts, Sort, Lines, Ascending, Tabulates;
    if terms == [] {
      EmptyDescription(r, ranks, positions);
      NothingTabulated(r, ranks, positions);
    } else {
      var init, t := terms[..|terms| - 1], terms[|terms| - 1];
      assert terms == init + [t];
      PrefixAscends(init, t);
      LinesExact(r, ranks, positions, init);
      NextLine(r, ranks, positions, terms, |init|);
      assert terms[..|init|] == init && terms[..|init| + 1] == terms;
      if Texts(r, ranks, positions, t, |r|) == [] {
        TabulateSkipped(Lines(r, ranks, positions, init), init, t, r, ranks, positions);
      } else {
        TabulateNext(Lines(r, ranks, positions, init), init, t, r, ranks, positions);
      }
    }
  }

  lemma NothingTabulated(r: Reader, ranks: Ranks, positions: bool)
    requires Ready(r, ranks, positions)
    ensures Tabulates([], [], r, ranks, positions)
  {
    hide Ready, Texts, Sort;
  }

  lemma TabulateSkipped(lines: seq<Line>, terms: seq<Text>, t: Text, r: Reader, ranks: Ranks, positions: bool)
    requires Ready(r, ranks, positions) && Tabulates(lines, terms, r, ranks, positions)
    requires Texts(r, ranks, positions, t, |r|) == []
    ensures Tabulates(lines, terms + [t], r, ranks, positions)
  {
    hide Ready, Texts, Sort, Ascending, Less;
    forall u
      ensures u in terms + [t] <==> u in terms || u == t
    {
      InSnoc(terms, t, u);
    }
  }

  lemma TabulateNext(lines: seq<Line>, terms: seq<Text>, t: Text, r: Reader, ranks: Ranks, positions: bool)
    requires Ready(r, ranks, positions) && Ascending(terms + [t]) && Tabulates(lines, terms, r, ranks, positions)
    requires Texts(r, ranks, positions, t, |r|) != []
    ensures Tabulates(lines + [Line(t, Sort(Texts(r, ranks, positions, t, |r|)))], terms + [t], r, ranks, positions)
  {
    hide Ready, Texts, Sort, Ascending, Less;
    var line := Line(t, Sort(Texts(r, ranks, positions, t, |r|)));
    OneMoreTerm(lines, t, line.texts, terms);
    hide TermsOf;
    var all := lines + [line];
    assert TermsOf(all) == TermsOf(lines) + [t];
    forall u
      ensures u in TermsOf(all) <==> u in terms + [t] && Texts(r, ranks, positions, u, |r|) != []
    {
      InSnoc(terms, t, u);
      InSnoc(TermsOf(lines), t, u);
    }
    forall l | l in all
      ensures l.texts == Sort(Texts(r, ranks, positions, l.term, |r|))
    {
      InSnoc(lines, line, l);
    }
  }

  lemma InSnoc<T>(s: seq<T>, x: T, u: T)
    ensures u in s + [x] <==> u in s || u == x
  {
  }

  lemma PrefixAscends(terms: seq<Text>, t: Text)
    requires Ascending(terms + [t])
    ensures Ascending(terms)
  {
    hide Less;
    assert forall i :: 0 <= i < |terms| ==> terms[i] == (terms + [t])[i];
  }

  lemma OneMoreTerm(lines: seq<Line>, t: Text, texts: seq<Text>, terms: seq<Text>)
    requires Ascending(TermsOf(lines)) && Ascending(terms + [t])
    requires forall u :: u in TermsOf(lines) ==> u in terms
    ensures Ascending(TermsOf(lines + [Line(t, texts)]))
    ensures TermsOf(lines + [Line(t, texts)]) == TermsOf(lines) + [t]
  {
    hide Less;
    var all := TermsOf(lines);
    assert TermsOf(lines + [Line(t, texts)]) == all + [t];
    forall k | 0 <= k < |all|
      ensures Less(all[k], t)
    {
      assert all[k] in all;
      var i :| 0 <= i < |terms| && terms[i] == all[k];
      assert (terms + [t])[i] == terms[i] && (terms + [t])[|terms|] == t;
    }
  }

  /** A description read as a table: which terms it lists, with which texts. */
  lemma DescribeExact(r: Reader, ranks: Ranks, order: seq<Doc>, positions: bool)
    requires Numbered(r, ranks, order, positions)
    ensures var lines := Describe(r, ranks, positions);
            && Ascending(TermsOf(lines))
            && (forall t :: t in TermsOf(lines) <==> exists e :: IsText(r, order, positions, t, e))
            && forall l :: l in lines ==>
                 Ascending(l.texts) && forall e :: e in l.texts <==> IsText(r, order, positions, l.term, e)
  {
    hide Lines, Texts, Render, Sort, LiveOf;
    var lines := Describe(r, ranks, positions);
    AllTermsMembers(r, |r|);
    LinesExact(r, ranks, positions, AllTerms(r, |r|));
    forall t
      ensures t in TermsOf(lines) <==> exists e :: IsText(r, order, positions, t, e)
    {
      var one := Texts(r, ranks, positions, t, |r|);
      TextsOfTerm(r, ranks, order, positions, t);
      if one != [] {
        assert one[0] in one;
        HasTextHasTerm(r, ranks, positions, t);
      }
    }
    forall l | l in lines
      ensures Ascending(l.texts) && forall e :: e in l.texts <==> IsText(r, order, positions, l.term, e)
    {
      TextsOfTerm(r, ranks, order, positions, l.term);
      SortAscending(Texts(r, ranks, positions, l.term, |r|));
    }
  }

  lemma TextsOfTerm(r: Reader, ranks: Ranks, order: seq<Doc>, positions: bool, t: Text)
    requires Numbered(r, ranks, order, positions)
    ensures Distinct(Texts(r, ranks, positions, t, |r|))
    ensures forall e :: e in Texts(r, ranks, positions, t, |r|) <==> IsText(r, order, positions, t, e)
  {
    hide Texts, Render, Holds, LiveOf;
    TextsExact(r, ranks, order, positions, t, |r|);
  }

  lemma {:induction false} NoTermNoTexts(r: Reader, ranks: Ranks, positions: bool, t: Text, m: nat)
    requires Ready(r, ranks, positions) && m <= |r|
    requires forall o, k :: 0 <= o < m && 0 <= k < |r[o].terms| ==> r[o].terms[k].term != t
    ensures Texts(r, ranks, positions, t, m) == []
    decreases m
  {
    if m > 0 {
      NoTermNoTexts(r, ranks, positions, t, m - 1);
      SeekReady(r, ranks, positions, m - 1, t);
      assert Seek(r[m - 1].terms, t) == [];
    }
  }

  lemma HasTextHasTerm(r: Reader, ranks: Ranks, positions: bool, t: Text)
    requires Ready(r, ranks, positions) && Texts(r, ranks, positions, t, |r|) != []
    ensures t in AllTerms(r, |r|)
  {
    AllTermsMembers(r, |r|);
    if t !in AllTerms(r, |r|) {
      NoTermNoTexts(r, ranks, positions, t, |r|);
      assert false;
    }
  }

  /** Documents with equal ranks have equal postings. */
  ghost predicate SamePostings(r: Reader, order: seq<Doc>, s: Reader, order': seq<Doc>)
    requires forall k :: 0 <= k < |order| ==> order[k].leaf < |r|
    requires forall k :: 0 <= k < |order'| ==> order'[k].leaf < |s|
  {
    && |order| == |order'|
    && forall k, t, c :: 0 <= k < |order| ==> (Holds(r, order[k], t, c) <==> Holds(s, order'[k], t, c))
  }

  /** Renumbering invariance, and its converse: the descriptions of two readers are equal
      exactly when documents with equal ranks have equal postings. */
  lemma DescriptionsAgree(
    r: Reader, ranks: Ranks, order: seq<Doc>, s: Reader, ranks': Ranks, order': seq<Doc>, positions: bool)
    requires Numbered(r, ranks, order, positions) && Numbered(s, ranks', order', positions)
    requires |order| == |order'|
    ensures Describe(r, ranks, positions) == Describe(s, ranks', positions) <==> SamePostings(r, order, s, order')
  {
    hide Describe, LiveOf, Ready;
    DescribeExact(r, ranks, order, positions);
    DescribeExact(s, ranks', order', positions);
    if SamePostings(r, order, s, order') {
      SameTexts(r, order, s, order', positions);
      SameLines(Describe(r, ranks, positions), Describe(s, ranks', positions));
    }
    if Describe(r, ranks, positions) == Describe(s, ranks', positions) {
      forall k, t, c | 0 <= k < |order|
        ensures Holds(r, order[k], t, c) <==> Holds(s, order'[k], t, c)
      {
        if Holds(r, order[k], t, c) {
          TextCrosses(r, ranks, order, s, ranks', order', positions, k, t, c);
        }
        if Holds(s, order'[k], t, c) {
          TextCrosses(s, ranks', order', r, ranks, order, positions, k, t, c);
        }
      }
    }
  }

  lemma SameTexts(r: Reader, order: seq<Doc>, s: Reader, order': seq<Doc>, positions: bool)
    requires forall k :: 0 <= k < |order| ==> order[k].leaf < |r|
    requires forall k :: 0 <= k < |order'| ==> order'[k].leaf < |s|
    requires SamePostings(r, order, s, order')
    ensures forall t, e :: IsText(r, order, positions, t, e) <==> IsText(s, order', positions, t, e)
  {
    hide Render, Holds;
  }

  lemma SameLines(a: seq<Line>, b: seq<Line>)
    requires Ascending(TermsOf(a)) && Ascending(TermsOf(b))
    requires forall t :: t in TermsOf(a) <==> t in TermsOf(b)
    requires forall l, m :: l in a && m in b && l.term == m.term ==>
               Ascending(l.texts) && Ascending(m.texts) && forall e :: e in l.texts <==> e in m.texts
    ensures a == b
  {
    AscendingUnique(TermsOf(a), TermsOf(b));
    forall k | 0 <= k < |a|
      ensures a[k] == b[k]
    {
      assert a[k] in a && b[k] in b && TermsOf(a)[k] == TermsOf(b)[k];
      AscendingUnique(a[k].texts, b[k].texts);
    }
  }

  /** A posting of one reader is found again in a reader with the same description. */
  lemma TextCrosses(
    r: Reader, ranks: Ranks, order: seq<Doc>, s: Reader, ranks': Ranks, order': seq<Doc>, positions: bool,
    k: nat, t: Text, c: Content)
    requires Numbered(r, ranks, order, positions) && Numbered(s, ranks', order', positions)
    requires |order| == |order'| && k < |order|
    requires Describe(r, ranks, positions) == Describe(s, ranks', positions)
    requires Holds(r, order[k], t, c)
    ensures Holds(s, order'[k], t, c)
  {
    hide Describe, LiveOf, Render;
    DescribeExact(r, ranks, order, positions);
    DescribeExact(s, ranks', order', positions);
    var lines, e := Describe(r, ranks, positions), Render(k, c, positions);
    assert IsText(r, order, positions, t, e);
    assert t in TermsOf(lines);
    var i :| 0 <= i < |lines| && TermsOf(lines)[i] == t;
    assert lines[i] in lines;
    assert IsText(s, order', positions, t, e);
    var k', c' :| 0 <= k' < |order'| && Holds(s, order'[k'], t, c') && e == Render(k', c', positions);
    HeldIsKept(r, ranks, positions, order[k], t, c);
    HeldIsKept(s, ranks', positions, order'[k'], t, c');
    RenderInjective(k, k', c, c', positions);
  }

  lemma HeldIsKept(r: Reader, ranks: Ranks, positions: bool, x: Doc, t: Text, c: Content)
    requires Ready(r, ranks, positions) && x.leaf < |r| && Holds(r, x, t, c)
    ensures Kept(c, positions)
  {
    SeekReady(r, ranks, positions, x.leaf, t);
  }
}
