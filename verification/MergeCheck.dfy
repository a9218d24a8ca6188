/** The verdict of fixtures/bwc/BwcMergeCheck.java on one field's postings.

    `main` compares a term count and a digest of the description. A correct merge always
    passes. What a pass means depends on the terms of the field: it means equal postings,
    document by document, exactly when those terms are not confusable. */
module MergeCheck {
  import opened VarInt
  import opened TextOrder
  import opened PostingsStream
  import opened PostingText
  import opened MergeRanks
  import opened MergePostings
  import opened MergeBytes

  // ---------------------------------------------------------------------------
  // Every description is one of a field
  // ---------------------------------------------------------------------------

  /** The terms of a field come from the given set, and its posting texts have lengths that
      Java strings can have. */
  ghost predicate FieldOver(r: Reader, terms: set<Text>, positions: bool) {
    forall o, k :: 0 <= o < |r| && 0 <= k < |r[o].terms| ==>
      r[o].terms[k].term in terms && SizedPostings(r[o].terms[k].postings, positions)
  }

  ghost predicate SizedPostings(ps: seq<Posting>, positions: bool) {
    forall j :: 0 <= j < |ps| ==> 11 + |ContentText(ContentOf(ps[j]), positions)| < 0x8000_0000
  }

  lemma {:induction false} SeekSized(ts: seq<TermPostings>, t: Text, positions: bool)
    requires forall k :: 0 <= k < |ts| ==> SizedPostings(ts[k].postings, positions)
    ensures SizedPostings(Seek(ts, t), positions)
    decreases |ts|
  {
    hide ContentText;
    if ts != [] && ts[0].term != t {
      SeekSized(ts[1..], t, positions);
    }
  }

  lemma RenderLength(rank: nat, c: Content, positions: bool)
    ensures |Render(rank, c, positions)| == 11 + |ContentText(c, positions)|
  {
    hide ContentText, Padded;
  }

  lemma TextNeedsTerm(r: Reader, ranks: Ranks, order: seq<Doc>, positions: bool, t: Text, e: Text)
    requires Numbered(r, ranks, order, positions) && IsText(r, order, positions, t, e)
    ensures exists o, k :: 0 <= o < |r| && 0 <= k < |r[o].terms| && r[o].terms[k].term == t
  {
    hide Render, LiveOf, Seek;
    var n, c :| 0 <= n < |order| && Holds(r, order[n], t, c) && e == Render(n, c, positions);
    SeekReady(r, ranks, positions, order[n].leaf, t);
  }

  /** What is behind a text: a document, its rank and one posting. */
  lemma TextIsPosting(r: Reader, ranks: Ranks, order: seq<Doc>, positions: bool, terms: set<Text>, t: Text, e: Text)
    returns (k: nat, c: Content)
    requires Numbered(r, ranks, order, positions) && FieldOver(r, terms, positions)
    requires IsText(r, order, positions, t, e)
    ensures k < |order| && Holds(r, order[k], t, c) && Kept(c, positions) && e == Render(k, c, positions)
    ensures PostingOf(e, k, positions) && Sized(e)
  {
    hide Render, LiveOf, Seek, ContentText;
    k, c :| k < |order| && Holds(r, order[k], t, c) && e == Render(k, c, positions);
    HeldIsKept(r, ranks, positions, order[k], t, c);
    SeekSized(r[order[k].leaf].terms, t, positions);
    RenderLength(k, c, positions);
  }

  /** A document has one posting of a term. */
  lemma OnePosting(r: Reader, ranks: Ranks, positions: bool, x: Doc, t: Text, c: Content, d: Content)
    requires Ready(r, ranks, positions) && x.leaf < |r| && Holds(r, x, t, c) && Holds(r, x, t, d)
    ensures c == d
  {
    SeekReady(r, ranks, positions, x.leaf, t);
    hide Seek;
    var ps := Seek(r[x.leaf].terms, t);
    var i :| 0 <= i < |ps| && ps[i].doc == x.doc && ContentOf(ps[i]) == c;
    var j :| 0 <= j < |ps| && ps[j].doc == x.doc && ContentOf(ps[j]) == d;
    assert i == j;
  }

  /** Of two texts of a term the smaller has the smaller rank. */
  lemma SmallerText(
    r: Reader, ranks: Ranks, order: seq<Doc>, positions: bool, terms: set<Text>,
    t: Text, e: Text, f: Text, k: nat, m: nat)
    requires Numbered(r, ranks, order, positions) && FieldOver(r, terms, positions)
    requires IsText(r, order, positions, t, e) && IsText(r, order, positions, t, f) && Less(e, f)
    requires k < |order| && m < |order| && PostingOf(e, k, positions) && PostingOf(f, m, positions)
    ensures k < m
  {
    hide Render, Less, PostingOf, LiveOf, Holds, FieldOver, IsText;
    var k', c := TextIsPosting(r, ranks, order, positions, terms, t, e);
    var m', d := TextIsPosting(r, ranks, order, positions, terms, t, f);
    RankUnique(e, k, k', positions);
    RankUnique(f, m, m', positions);
    LessIrreflexive(e);
    if k == m {
      OnePosting(r, ranks, positions, order[k], t, c, d);
    } else if m < k {
      RenderAscends(m, k, d, c, positions);
      LessTransitive(e, f, e);
    }
  }

  lemma TextsAreRun(
    r: Reader, ranks: Ranks, order: seq<Doc>, positions: bool, terms: set<Text>, t: Text, texts: seq<Text>)
    requires Numbered(r, ranks, order, positions) && FieldOver(r, terms, positions)
    requires texts != [] && Ascending(texts) && forall e :: e in texts ==> IsText(r, order, positions, t, e)
    ensures PostingRun(texts, |order|, positions)
  {
    hide Render, Less, PostingOf, LiveOf, Holds, FieldOver, IsText, Numbered, Sized;
    var n := |order|;
    forall i | 0 <= i < |texts|
      ensures Sized(texts[i]) && RankBelow(texts[i], n, positions)
    {
      assert texts[i] in texts;
      var k, c := TextIsPosting(r, ranks, order, positions, terms, t, texts[i]);
    }
    forall i, j, k: nat, m: nat | 0 <= i < j < |texts| && k < n && m < n &&
                                  PostingOf(texts[i], k, positions) && PostingOf(texts[j], m, positions)
      ensures k < m
    {
      assert texts[i] in texts && texts[j] in texts;
      SmallerText(r, ranks, order, positions, terms, t, texts[i], texts[j], k, m);
    }
  }

  lemma DescribesField(r: Reader, ranks: Ranks, order: seq<Doc>, positions: bool, terms: set<Text>)
    requires Numbered(r, ranks, order, positions) && FieldOver(r, terms, positions)
    ensures FieldLines(Describe(r, ranks, positions), terms, |order|, positions)
  {
    hide Describe, LiveOf, IsText, PostingRun;
    var lines := Describe(r, ranks, positions);
    DescribeExact(r, ranks, order, positions);
    forall i | 0 <= i < |lines|
      ensures lines[i].term in terms && PostingRun(lines[i].texts, |order|, positions)
    {
      var l := lines[i];
      assert l in lines && TermsOf(lines)[i] == l.term;
      assert l.term in TermsOf(lines);
      var e :| IsText(r, order, positions, l.term, e);
      assert e in l.texts;
      TextNeedsTerm(r, ranks, order, positions, l.term, e);
      TextsAreRun(r, ranks, order, positions, terms, l.term, l.texts);
    }
  }

  // ---------------------------------------------------------------------------
  // The check
  // ---------------------------------------------------------------------------

  /** The original's live documents in the order of the merged ones with their keys. */
  ghost predicate ByKey(orig: Reader, order: seq<Doc>, merged: Reader)
    requires ValidReader(orig) && ValidReader(merged)
  {
    && |order| == |LiveOf(merged)| == |LiveKeys(merged)|
    && forall k :: 0 <= k < |order| ==> IsLive(orig, order[k]) && KeyOf(orig, order[k]) == LiveKeys(merged)[k]
  }

  /** Which documents are compared: live ones with the same stored fields. */
  lemma ByKeyOnData(orig: Reader, order: seq<Doc>, merged: Reader, k: nat)
    requires ValidReader(orig) && ValidReader(merged) && ByKey(orig, order, merged) && k < |order|
    ensures |LiveOf(merged)| == |order|
    ensures var x, y := order[k], LiveOf(merged)[k];
            && x.leaf < |orig| && x.doc < orig[x.leaf].maxDoc
            && (orig[x.leaf].liveDocs.None? || orig[x.leaf].liveDocs.value[x.doc])
            && y.leaf < |merged| && y.doc < merged[y.leaf].maxDoc
            && (merged[y.leaf].liveDocs.None? || merged[y.leaf].liveDocs.value[y.doc])
            && orig[x.leaf].keys[x.doc] == merged[y.leaf].keys[y.doc]
  {
    hide LiveOf, LiveKeys;
    LiveOfExact(merged);
    LiveKeysAt(merged);
    assert LiveOf(merged)[k] in LiveOf(merged);
  }


  /** Documents with equal keys have equal postings. */
  ghost predicate SameContents(orig: Reader, order: seq<Doc>, merged: Reader)
    requires ValidReader(orig) && ValidReader(merged) && ByKey(orig, order, merged)
  {
    && (forall k :: 0 <= k < |order| ==> IsLive(merged, LiveOf(merged)[k]))
    && SamePostings(orig, order, merged, LiveOf(merged))
  }

  /** The two descriptions have as many terms and the same bytes. */
  ghost predicate Agree(orig: Reader, order: seq<Doc>, merged: Reader, positions: bool)
    requires ValidReader(merged)
  {
    exists mapped, own ::
      && Numbered(orig, mapped, order, positions) && Numbered(merged, own, LiveOf(merged), positions)
      && SameBytes(Describe(orig, mapped, positions), Describe(merged, own, positions))
  }

  lemma NumbersUnique(a: Ranks, b: Ranks, r: Reader, order: seq<Doc>)
    requires ValidReader(r) && Numbers(a, r, order) && Numbers(b, r, order)
    ensures a == b
  {
    hide LiveOf;
    forall o | 0 <= o < |r|
      ensures a[o] == b[o]
    {
      forall d | 0 <= d < r[o].maxDoc
        ensures a[o][d] == b[o][d]
      {
        assert IsDoc(r, Doc(o, d));
        if IsLive(r, Doc(o, d)) {
          assert order[a[o][d]] == Doc(o, d) && b[o][d] == a[o][d];
        }
      }
    }
  }

  /** `main` on one field: documents matched by key, both descriptions compared. A correct
      merge always passes; over terms that are not confusable nothing else does. */
  method CheckPostings(orig: Reader, merged: Reader, positions: bool) returns (pass: bool, ghost order: seq<Doc>)
    requires ValidReader(orig) && ValidReader(merged)
    requires ValidField(orig, positions) && ValidField(merged, positions)
    requires |LiveOf(merged)| < 0x8000_0000
    ensures pass ==> Permuted(orig, merged)
    ensures Permuted(orig, merged) ==> ByKey(orig, order, merged)
    ensures Permuted(orig, merged) ==> |order| == |LiveKeys(merged)| && forall k :: 0 <= k < |order| ==>
              && order[k].leaf < |orig| && order[k].doc < orig[order[k].leaf].maxDoc
              && orig[order[k].leaf].keys[order[k].doc] == LiveKeys(merged)[k]
    ensures pass <==> Permuted(orig, merged) && Agree(orig, order, merged, positions)
    ensures Permuted(orig, merged) && SameContents(orig, order, merged) ==> pass
    ensures pass ==> forall terms :: TermsFit(orig, merged, terms, positions) ==> SameContents(orig, order, merged)
  {
    hide Describe, LiveOf, LiveKeys, ValidField, LinesBytes, SameContents, Agree, TermsFit, ByKey, Permuted;
    pass := false;
    var outcome;
    outcome, order := RanksByStoredFields(orig, merged);
    if !outcome.Matched? {
      return;
    }
    LiveKeysAt(merged);
    MatchedByKey(orig, order, merged, outcome.ranks);
    var mapped := outcome.ranks;
    var own := RanksOf(merged);
    var wantTerms, want := DescribePostings(orig, mapped, positions);
    var gotTerms, got := DescribePostings(merged, own, positions);
    pass := wantTerms == gotTerms && want == got;
    Decided(orig, mapped, order, merged, own, positions, pass);
  }

  /** Terms over which a pass can be relied on. */
  ghost predicate TermsFit(orig: Reader, merged: Reader, terms: set<Text>, positions: bool)
    requires ValidReader(merged)
  {
    && FieldOver(orig, terms, positions) && FieldOver(merged, terms, positions)
    && (forall t :: t in terms ==> Sized(t))
    && !Confusable(terms, |LiveOf(merged)|, positions)
  }

  lemma MatchedByKey(orig: Reader, order: seq<Doc>, merged: Reader, ranks: Ranks)
    requires ValidReader(orig) && ValidReader(merged) && Numbers(ranks, orig, order)
    requires |order| == |LiveKeys(merged)| == |LiveOf(merged)|
    requires forall k :: 0 <= k < |order| ==> IsLive(orig, order[k]) && KeyOf(orig, order[k]) == LiveKeys(merged)[k]
    ensures ByKey(orig, order, merged) && |order| == |LiveOf(orig)|
  {
    hide LiveOf, LiveKeys;
  }

  /** What the comparison decides, with the tables it was made with. */
  lemma Decided(
    orig: Reader, mapped: Ranks, order: seq<Doc>, merged: Reader, own: Ranks, positions: bool, pass: bool)
    requires ValidReader(orig) && ValidReader(merged)
    requires Numbered(orig, mapped, order, positions) && Numbered(merged, own, LiveOf(merged), positions)
    requires ByKey(orig, order, merged)
    requires pass <==> SameBytes(Describe(orig, mapped, positions), Describe(merged, own, positions))
    ensures pass <==> Agree(orig, order, merged, positions)
    ensures SameContents(orig, order, merged) ==> pass
    ensures pass ==> forall terms :: TermsFit(orig, merged, terms, positions) ==> SameContents(orig, order, merged)
  {
    hide Describe, LiveOf, LiveKeys, Numbers, SamePostings, FieldLines, Confusable, FieldOver, LinesBytes, Ready;
    var there := LiveOf(merged);
    forall mapped', own' | Numbered(orig, mapped', order, positions) && Numbered(merged, own', there, positions)
      ensures mapped' == mapped && own' == own
    {
      NumbersUnique(mapped', mapped, orig, order);
      NumbersUnique(own', own, merged, there);
    }
    LiveKeysAt(merged);
    DescriptionsAgree(orig, mapped, order, merged, own, there, positions);
    forall terms | TermsFit(orig, merged, terms, positions) && pass
      ensures SameContents(orig, order, merged)
    {
      DescribesField(orig, mapped, order, positions, terms);
      DescribesField(merged, own, there, positions, terms);
      BytesDecide(terms, |there|, positions);
    }
  }

  /** Terms that do not have the colon of a posting text after ten characters are never
      confusable, whatever the number of documents. */
  lemma PlainTermsFit(terms: set<Text>, n: nat, positions: bool)
    requires forall t :: t in terms ==> |t| <= 10 || t[10] != COLON
    ensures !Confusable(terms, n, positions)
  {
    hide ContentText, Padded, Less, Kept;
    forall u, q, k: nat
      ensures !Confuses(terms, n, positions, u, q, k)
    {
      if PostingOf(q, k, positions) {
        var c :| Kept(c, positions) && q == Render(k, c, positions);
        assert (RankText(k) + [COLON])[10] == COLON;
      }
    }
  }
}
