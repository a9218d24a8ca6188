/** The guard of the merge check is the exact one: every description a field can have is that
    of some index, so confusable terms give two indexes that pass the check although their
    documents have different postings. */
module MergeWitness {
  import opened Common
  import opened VarInt
  import opened TextOrder
  import opened PostingsStream
  import opened PostingText
  import opened MergeRanks
  import opened MergePostings
  import opened MergeBytes
  import opened MergeCheck

  // ---------------------------------------------------------------------------
  // An index with a given description
  // ---------------------------------------------------------------------------

  ghost function PostingFor(e: Text, n: nat, positions: bool): (p: Posting)
    requires RankBelow(e, n, positions)
    ensures 0 <= p.doc < n && Kept(ContentOf(p), positions) && e == Render(p.doc, ContentOf(p), positions)
  {
    var k: nat :| k < n && PostingOf(e, k, positions);
    var c :| Kept(c, positions) && e == Render(k, c, positions);
    Posting(k, c.freq, c.positions)
  }

  ghost function PostingsFor(texts: seq<Text>, n: nat, positions: bool): (ps: seq<Posting>)
    requires forall i :: 0 <= i < |texts| ==> RankBelow(texts[i], n, positions)
    ensures |ps| == |texts| && forall i :: 0 <= i < |ps| ==> ps[i] == PostingFor(texts[i], n, positions)
  {
    seq(|texts|, i requires 0 <= i < |texts| => PostingFor(texts[i], n, positions))
  }

  ghost predicate Buildable(lines: seq<Line>, n: nat, positions: bool) {
    forall i :: 0 <= i < |lines| ==> PostingRun(lines[i].texts, n, positions)
  }

  ghost function TermsFor(lines: seq<Line>, n: nat, positions: bool): (ts: seq<TermPostings>)
    requires Buildable(lines, n, positions)
    ensures |ts| == |lines|
    ensures forall i :: 0 <= i < |ts| ==>
              ts[i].term == lines[i].term && ts[i].postings == PostingsFor(lines[i].texts, n, positions)
  {
    seq(|lines|, i requires 0 <= i < |lines| =>
      TermPostings(lines[i].term, PostingsFor(lines[i].texts, n, positions)))
  }

  /** Document i of n has the key i; nothing is deleted. */
  ghost function KeysFor(n: nat): (keys: seq<Text>)
    ensures |keys| == n && forall i :: 0 <= i < n ==> keys[i] == DecimalNat(i)
  {
    seq(n, i requires 0 <= i => DecimalNat(i))
  }

  ghost function IndexFor(lines: seq<Line>, n: nat, positions: bool): (r: Reader)
    requires Buildable(lines, n, positions)
    ensures ValidReader(r) && |r| == 1 && r[0].maxDoc == n
  {
    [Leaf(n, None, KeysFor(n), TermsFor(lines, n, positions))]
  }

  lemma ValidRun(texts: seq<Text>, n: nat, positions: bool)
    requires PostingRun(texts, n, positions)
    ensures ValidPostings(PostingsFor(texts, n, positions), n, positions)
    ensures SizedPostings(PostingsFor(texts, n, positions), positions)
  {
    hide Render, Kept, ContentText;
    var ps := PostingsFor(texts, n, positions);
    forall i | 0 <= i < |ps|
      ensures 0 <= ps[i].doc < n && Kept(ContentOf(ps[i]), positions) && PostingOf(texts[i], ps[i].doc, positions)
      ensures 11 + |ContentText(ContentOf(ps[i]), positions)| < 0x8000_0000
    {
      assert ps[i] == PostingFor(texts[i], n, positions);
      RenderLength(ps[i].doc, ContentOf(ps[i]), positions);
      assert Sized(texts[i]);
    }
  }

  lemma ValidIndex(lines: seq<Line>, terms: set<Text>, n: nat, positions: bool)
    requires FieldLines(lines, terms, n, positions)
    ensures Buildable(lines, n, positions)
    ensures var r := IndexFor(lines, n, positions); ValidField(r, positions) && FieldOver(r, terms, positions)
  {
    hide PostingRun, ValidPostings, SizedPostings;
    var r := IndexFor(lines, n, positions);
    forall k | 0 <= k < |r[0].terms|
      ensures ValidPostings(r[0].terms[k].postings, n, positions)
      ensures r[0].terms[k].term in terms && SizedPostings(r[0].terms[k].postings, positions)
    {
      ValidRun(lines[k].texts, n, positions);
    }
  }

  // ---------------------------------------------------------------------------
  // Its documents
  // ---------------------------------------------------------------------------

  lemma {:induction false} AllLive(l: Leaf, n: nat)
    requires ValidLeaf(l) && l.liveDocs.None? && n <= l.maxDoc
    ensures |LeafLive(l, 0, n)| == n && forall k :: 0 <= k < n ==> LeafLive(l, 0, n)[k] == Doc(0, k)
    ensures LeafKeys(l, n) == l.keys[..n]
    decreases n
  {
    if n > 0 {
      AllLive(l, n - 1);
    }
  }

  lemma IndexDocs(r: Reader)
    requires ValidReader(r) && |r| == 1 && r[0].liveDocs.None?
    ensures |LiveOf(r)| == r[0].maxDoc && forall k :: 0 <= k < r[0].maxDoc ==> LiveOf(r)[k] == Doc(0, k)
    ensures LiveKeys(r) == r[0].keys
  {
    hide LeafLive, LeafKeys;
    AllLive(r[0], r[0].maxDoc);
    assert r[..0] == [];
    assert LiveOf([]) == [] && LiveKeys([]) == [];
    assert LiveOf(r) == LeafLive(r[0], 0, r[0].maxDoc);
  }

  lemma KeysDistinct(n: nat)
    ensures Distinct(KeysFor(n))
  {
    var keys := KeysFor(n);
    forall i, j | 0 <= i < j < n
      ensures keys[i] != keys[j]
    {
      if keys[i] == keys[j] {
        DecimalNatInjective(i, j);
      }
    }
  }

  // ---------------------------------------------------------------------------
  // Its description
  // ---------------------------------------------------------------------------

  lemma {:induction false} SeekFinds(ts: seq<TermPostings>, t: Text)
    requires forall i, j :: 0 <= i < j < |ts| ==> ts[i].term != ts[j].term
    ensures forall i :: 0 <= i < |ts| && ts[i].term == t ==> Seek(ts, t) == ts[i].postings
    ensures (forall i :: 0 <= i < |ts| ==> ts[i].term != t) ==> Seek(ts, t) == []
    decreases |ts|
  {
    if ts != [] && ts[0].term != t {
      SeekFinds(ts[1..], t);
      assert forall i :: 1 <= i < |ts| ==> ts[i] == ts[1..][i - 1];
    }
  }

  lemma AscendingDistinct(ts: seq<Text>)
    requires Ascending(ts)
    ensures forall i, j :: 0 <= i < j < |ts| ==> ts[i] != ts[j]
  {
    forall i, j | 0 <= i < j < |ts|
      ensures ts[i] != ts[j]
    {
      LessIrreflexive(ts[i]);
    }
  }

  ghost predicate Lists(lines: seq<Line>, t: Text, e: Text) {
    exists i :: 0 <= i < |lines| && lines[i].term == t && e in lines[i].texts
  }

  /** The postings of the index are those the lines list. */
  lemma IndexTexts(lines: seq<Line>, terms: set<Text>, n: nat, positions: bool, t: Text, e: Text)
    requires FieldLines(lines, terms, n, positions)
    ensures Buildable(lines, n, positions)
    ensures var r := IndexFor(lines, n, positions);
            && (forall k :: 0 <= k < |LiveOf(r)| ==> LiveOf(r)[k].leaf < |r|)
            && (IsText(r, LiveOf(r), positions, t, e) <==> Lists(lines, t, e))
  {
    hide LiveOf, Seek, Render, PostingOf, Kept, Less, Holds, PostingFor, RankBelow;
    var r := IndexFor(lines, n, positions);
    IndexDocs(r);
    var order := LiveOf(r);
    if Lists(lines, t, e) {
      var i :| 0 <= i < |lines| && lines[i].term == t && e in lines[i].texts;
      var j :| 0 <= j < |lines[i].texts| && lines[i].texts[j] == e;
      var p := PostingFor(e, n, positions);
      ListedIsHeld(lines, n, positions, i, j);
      assert order[p.doc] == Doc(0, p.doc);
      assert Holds(r, order[p.doc], t, ContentOf(p)) && e == Render(p.doc, ContentOf(p), positions);
    }
    if IsText(r, order, positions, t, e) {
      var k, c :| 0 <= k < |order| && Holds(r, order[k], t, c) && e == Render(k, c, positions);
      HeldIsListed(lines, n, positions, k, t, c);
    }
  }

  lemma IndexSeek(lines: seq<Line>, n: nat, positions: bool, t: Text)
    requires Ascending(TermsOf(lines)) && Buildable(lines, n, positions)
    ensures var ps := Seek(IndexFor(lines, n, positions)[0].terms, t);
            && (forall i :: 0 <= i < |lines| && lines[i].term == t ==> ps == PostingsFor(lines[i].texts, n, positions))
            && ((forall i :: 0 <= i < |lines| ==> lines[i].term != t) ==> ps == [])
  {
    hide Seek, PostingRun, Less;
    var ts := IndexFor(lines, n, positions)[0].terms;
    AscendingDistinct(TermsOf(lines));
    assert forall i :: 0 <= i < |ts| ==> ts[i].term == TermsOf(lines)[i];
    SeekFinds(ts, t);
  }

  lemma ListedIsHeld(lines: seq<Line>, n: nat, positions: bool, i: nat, j: nat)
    requires Ascending(TermsOf(lines)) && Buildable(lines, n, positions)
    requires i < |lines| && j < |lines[i].texts|
    ensures RankBelow(lines[i].texts[j], n, positions)
    ensures var p := PostingFor(lines[i].texts[j], n, positions);
            Holds(IndexFor(lines, n, positions), Doc(0, p.doc), lines[i].term, ContentOf(p))
  {
    hide Seek, PostingOf, Less, PostingFor;
    IndexSeek(lines, n, positions, lines[i].term);
    assert PostingRun(lines[i].texts, n, positions);
    var p := PostingFor(lines[i].texts[j], n, positions);
    assert PostingsFor(lines[i].texts, n, positions)[j] == p;
  }

  lemma HeldIsListed(lines: seq<Line>, n: nat, positions: bool, k: nat, t: Text, c: Content)
    requires Ascending(TermsOf(lines)) && Buildable(lines, n, positions)
    requires Holds(IndexFor(lines, n, positions), Doc(0, k), t, c)
    ensures Lists(lines, t, Render(k, c, positions))
  {
    hide Seek, PostingOf, Less, Render, IndexFor;
    IndexSeek(lines, n, positions, t);
    var ps := Seek(IndexFor(lines, n, positions)[0].terms, t);
    var j :| 0 <= j < |ps| && ps[j].doc == k && ContentOf(ps[j]) == c;
    var i :| 0 <= i < |lines| && lines[i].term == t;
    assert PostingRun(lines[i].texts, n, positions);
    assert ps[j] == PostingFor(lines[i].texts[j], n, positions);
    assert lines[i].texts[j] in lines[i].texts;
  }

  lemma RunAscends(texts: seq<Text>, n: nat, positions: bool)
    requires PostingRun(texts, n, positions) && n < 0x8000_0000
    ensures Ascending(texts)
  {
    hide Render, Kept, Less;
    forall i, j | 0 <= i < j < |texts|
      ensures Less(texts[i], texts[j])
    {
      var p, q := PostingFor(texts[i], n, positions), PostingFor(texts[j], n, positions);
      assert PostingOf(texts[i], p.doc, positions) && PostingOf(texts[j], q.doc, positions);
      RenderAscends(p.doc, q.doc, ContentOf(p), ContentOf(q), positions);
    }
  }

  /** Every description of a field is the description of an index. */
  lemma IndexDescribed(lines: seq<Line>, terms: set<Text>, n: nat, positions: bool, ranks: Ranks)
    requires FieldLines(lines, terms, n, positions) && Buildable(lines, n, positions)
    requires var r := IndexFor(lines, n, positions); Numbered(r, ranks, LiveOf(r), positions)
    ensures Describe(IndexFor(lines, n, positions), ranks, positions) == lines
  {
    hide Describe, LiveOf, IsText, PostingRun, IndexFor;
    var r := IndexFor(lines, n, positions);
    var made := Describe(r, ranks, positions);
    DescribeExact(r, ranks, LiveOf(r), positions);
    forall t, e
      ensures IsText(r, LiveOf(r), positions, t, e) <==> Lists(lines, t, e)
    {
      IndexTexts(lines, terms, n, positions, t, e);
    }
    forall t
      ensures t in TermsOf(made) <==> t in TermsOf(lines)
    {
      ListedTerms(lines, n, positions, t);
    }
    forall l, m | l in made && m in lines && l.term == m.term
      ensures Ascending(l.texts) && Ascending(m.texts) && forall e :: e in l.texts <==> e in m.texts
    {
      var i :| 0 <= i < |lines| && lines[i] == m;
      IndexSize(lines, n, positions);
      RunAscends(m.texts, n, positions);
      forall e
        ensures e in l.texts <==> e in m.texts
      {
        ListedTexts(lines, i, e);
      }
    }
    SameLines(made, lines);
  }

  lemma IndexSize(lines: seq<Line>, n: nat, positions: bool)
    requires Buildable(lines, n, positions)
    ensures |LiveOf(IndexFor(lines, n, positions))| == n
  {
    IndexDocs(IndexFor(lines, n, positions));
  }

  lemma ListedTerms(lines: seq<Line>, n: nat, positions: bool, t: Text)
    requires Buildable(lines, n, positions)
    ensures t in TermsOf(lines) <==> exists e :: Lists(lines, t, e)
  {
    hide PostingRun;
    if t in TermsOf(lines) {
      var i :| 0 <= i < |lines| && TermsOf(lines)[i] == t;
      NonEmptyRun(lines[i].texts, n, positions);
      assert lines[i].texts[0] in lines[i].texts;
      assert Lists(lines, t, lines[i].texts[0]);
    }
    if exists e :: Lists(lines, t, e) {
      var e :| Lists(lines, t, e);
      var i :| 0 <= i < |lines| && lines[i].term == t && e in lines[i].texts;
      assert TermsOf(lines)[i] == t;
    }
  }

  lemma ListedTexts(lines: seq<Line>, i: nat, e: Text)
    requires Ascending(TermsOf(lines)) && i < |lines|
    ensures Lists(lines, lines[i].term, e) <==> e in lines[i].texts
  {
    AscendingDistinct(TermsOf(lines));
    if Lists(lines, lines[i].term, e) {
      var j :| 0 <= j < |lines| && lines[j].term == lines[i].term && e in lines[j].texts;
      assert TermsOf(lines)[i] == TermsOf(lines)[j];
    }
  }

  // ---------------------------------------------------------------------------
  // The exact condition
  // ---------------------------------------------------------------------------

  /** Two indexes of n live documents each, matched by key, with terms from the given set. */
  ghost predicate Compared(
    orig: Reader, order: seq<Doc>, merged: Reader, terms: set<Text>, n: nat, positions: bool)
  {
    && ValidReader(orig) && ValidReader(merged) && ValidField(orig, positions) && ValidField(merged, positions)
    && FieldOver(orig, terms, positions) && FieldOver(merged, terms, positions)
    && Permuted(orig, merged) && ByKey(orig, order, merged) && |LiveOf(merged)| == n
  }

  /** Over confusable terms the check passes two indexes whose documents differ. */
  lemma WrongPass(terms: set<Text>, n: nat, positions: bool) returns (orig: Reader, order: seq<Doc>, merged: Reader)
    requires n < 0x8000_0000 && Confusable(terms, n, positions) && forall t :: t in terms ==> Sized(t)
    ensures Compared(orig, order, merged, terms, n, positions)
    ensures Agree(orig, order, merged, positions) && !SameContents(orig, order, merged)
  {
    hide FieldLines, Confusable, LinesBytes, Describe, LiveOf, LiveKeys, Items, Numbers, SamePostings, Distinct;
    var a, b := Confused(terms, n, positions);
    ValidIndex(a, terms, n, positions);
    ValidIndex(b, terms, n, positions);
    orig, merged := IndexFor(a, n, positions), IndexFor(b, n, positions);
    IndexDocs(orig);
    IndexDocs(merged);
    KeysDistinct(n);
    order := LiveOf(orig);
    LiveKeysAt(orig);
    LiveKeysAt(merged);
    assert order == LiveOf(merged);
    BytesAreItems(a, b, terms, n, positions);
    TablesExist(orig, positions);
    TablesExist(merged, positions);
    var mapped :| Numbered(orig, mapped, order, positions);
    var own :| Numbered(merged, own, LiveOf(merged), positions);
    IndexDescribed(a, terms, n, positions, mapped);
    IndexDescribed(b, terms, n, positions, own);
    DescriptionsAgree(orig, mapped, order, merged, own, LiveOf(merged), positions);
  }

  /** One term shaped like a posting is enough: three documents, the term `!` and the term
      `0000000001:1`. */
  lemma SmallWrongPass() returns (orig: Reader, order: seq<Doc>, merged: Reader)
    ensures Compared(orig, order, merged, {[33], Render(1, Content(1, []), false)}, 3, false)
    ensures Agree(orig, order, merged, false) && !SameContents(orig, order, merged)
  {
    hide Render, Less, Compared, Agree, SameContents;
    var c, u := Content(1, []), [33];
    var q := Render(1, c, false);
    var terms: set<Text> := {u, q};
    FirstDigit(1, c);
    RenderLength(1, c, false);
    assert PostingOf(q, 1, false);
    assert Confuses(terms, 3, false, u, q, 1);
    orig, order, merged := WrongPass(terms, 3, false);
  }

  lemma FirstDigit(k: nat, c: Content)
    ensures Less([33], Render(k, c, false)) && |ContentText(Content(1, []), false)| < 100
  {
    var t := Render(k, c, false);
    assert t[0] == RankText(k)[0];
    LeadingDigit(k, 10);
  }

  lemma {:induction false} LeadingDigit(n: nat, width: nat)
    requires width >= 1
    ensures 48 <= Padded(n, width)[0]
    decreases width
  {
    if width > 1 {
      LeadingDigit(n / 10, width - 1);
      assert Padded(n, width)[0] == Padded(n / 10, width - 1)[0];
    }
  }

  lemma TablesExist(r: Reader, positions: bool)
    requires ValidReader(r) && ValidField(r, positions) && |r| == 1 && r[0].liveDocs.None? && r[0].maxDoc < 0x8000_0000
    ensures exists ranks :: Numbered(r, ranks, LiveOf(r), positions)
  {
    hide LiveOf;
    IndexDocs(r);
    var row := seq(r[0].maxDoc, d => d);
    var order := LiveOf(r);
    forall x | IsLive(r, x)
      ensures x == Doc(0, x.doc)
    {
    }
    assert Numbers([row], r, order);
    assert Numbered(r, [row], order, positions);
  }

  /** A pass means equal postings, for all indexes over these terms, exactly when the terms
      are not confusable. */
  lemma PassMeansSame(terms: set<Text>, n: nat, positions: bool)
    requires n < 0x8000_0000 && forall t :: t in terms ==> Sized(t)
    ensures (forall orig, order, merged ::
               Compared(orig, order, merged, terms, n, positions) && Agree(orig, order, merged, positions) ==>
                 SameContents(orig, order, merged))
            <==> !Confusable(terms, n, positions)
  {
    hide Confusable, Agree, SameContents, FieldOver, Permuted, ByKey, LiveOf, ValidField;
    if Confusable(terms, n, positions) {
      var orig, order, merged := WrongPass(terms, n, positions);
    } else {
      forall orig, order, merged |
        Compared(orig, order, merged, terms, n, positions) && Agree(orig, order, merged, positions)
        ensures SameContents(orig, order, merged)
      {
        AgreedIsSame(orig, order, merged, terms, n, positions);
      }
    }
  }

  lemma AgreedIsSame(orig: Reader, order: seq<Doc>, merged: Reader, terms: set<Text>, n: nat, positions: bool)
    requires n < 0x8000_0000 && (forall t :: t in terms ==> Sized(t)) && !Confusable(terms, n, positions)
    requires Compared(orig, order, merged, terms, n, positions) && Agree(orig, order, merged, positions)
    ensures SameContents(orig, order, merged)
  {
    hide Confusable, LiveOf, LiveKeys, FieldOver, Describe, SameContents, SameBytes, Numbers, ByKey;
    var mapped, own :|
      && Numbered(orig, mapped, order, positions) && Numbered(merged, own, LiveOf(merged), positions)
      && SameBytes(Describe(orig, mapped, positions), Describe(merged, own, positions));
    Decided(orig, mapped, order, merged, own, positions, true);
    assert TermsFit(orig, merged, terms, positions);
  }
}
