/** What the bytes that fixtures/bwc/BwcMergeCheck.java digests for one field still tell.

    They list, for every term, the term and then its posting texts, with nothing between
    terms. So they pin down a description exactly when no term of the field can be taken for
    a posting of an earlier term. */
module MergeBytes {
  import opened VarInt
  import opened TextOrder
  import opened PostingsStream
  import opened PostingText
  import opened MergePostings

  // ---------------------------------------------------------------------------
  // Bytes and items
  // ---------------------------------------------------------------------------

  function Items(lines: seq<Line>): (items: seq<Text>) {
    if lines == [] then [] else [lines[0].term] + lines[0].texts + Items(lines[1..])
  }

  lemma {:induction false} FirstItems(lines: seq<Line>)
    ensures lines == [] <==> Items(lines) == []
    ensures lines != [] ==> Items(lines)[0] == lines[0].term && Items(lines)[1..] == lines[0].texts + Items(lines[1..])
  {
    if lines != [] {
      var rest := Items(lines[1..]);
      assert Items(lines) == [lines[0].term] + (lines[0].texts + rest);
    }
  }

  lemma {:induction false} TextsBytesAppend(a: seq<Text>, b: seq<Text>)
    ensures TextsBytes(a + b) == TextsBytes(a) + TextsBytes(b)
    decreases |b|
  {
    hide B;
    if b == [] {
      assert a + b == a;
    } else {
      assert (a + b)[..|a + b| - 1] == a + b[..|b| - 1];
      TextsBytesAppend(a, b[..|b| - 1]);
    }
  }

  lemma TextsBytesHead(x: Text, rest: seq<Text>)
    ensures TextsBytes([x] + rest) == B(x) + TextsBytes(rest)
  {
    hide B;
    TextsBytesAppend([x], rest);
    assert TextsBytes([x]) == TextsBytes([x][..0]) + B(x);
  }

  lemma {:induction false} LinesBytesAppend(a: seq<Line>, b: seq<Line>)
    ensures LinesBytes(a + b) == LinesBytes(a) + LinesBytes(b)
    decreases |b|
  {
    hide LineBytes;
    if b == [] {
      assert a + b == a;
    } else {
      assert (a + b)[..|a + b| - 1] == a + b[..|b| - 1];
      LinesBytesAppend(a, b[..|b| - 1]);
    }
  }

  /** The digested bytes are those of the items, one after the other. */
  lemma {:induction false} BytesOfItems(lines: seq<Line>)
    ensures LinesBytes(lines) == TextsBytes(Items(lines))
    decreases |lines|
  {
    hide B, TextsBytes;
    if lines == [] {
      assert TextsBytes([]) == [] by { EmptyTexts(); }
    } else {
      var l, rest := lines[0], lines[1..];
      BytesOfItems(rest);
      assert lines == [l] + rest;
      LinesBytesAppend([l], rest);
      assert [l][..0] == [];
      assert LinesBytes([l]) == LineBytes(l);
      TextsBytesAppend([l.term] + l.texts, Items(rest));
      TextsBytesHead(l.term, l.texts);
    }
  }

  lemma EmptyTexts()
    ensures TextsBytes([]) == []
  {
  }

  ghost predicate AllLong(items: seq<Text>) {
    forall k :: 0 <= k < |items| ==> IsLong(|items[k]|)
  }

  lemma {:induction false} ItemsFromBytes(x: seq<Text>, y: seq<Text>)
    requires AllLong(x) && AllLong(y) && TextsBytes(x) == TextsBytes(y)
    ensures x == y
    decreases |x|
  {
    hide TextsBytes, L;
    EmptyTexts();
    if x != [] {
      assert x == [x[0]] + x[1..];
      TextsBytesHead(x[0], x[1..]);
    }
    if y != [] {
      assert y == [y[0]] + y[1..];
      TextsBytesHead(y[0], y[1..]);
    }
    if x != [] && y != [] {
      CutBlock(x[0], y[0], TextsBytes(x[1..]), TextsBytes(y[1..]));
      ItemsFromBytes(x[1..], y[1..]);
    }
  }

  // ---------------------------------------------------------------------------
  // The descriptions a field can have
  // ---------------------------------------------------------------------------

  /** e is the text of a posting with rank k. */
  ghost predicate PostingOf(e: Text, k: nat, positions: bool) {
    exists c :: Kept(c, positions) && e == Render(k, c, positions)
  }

  ghost predicate RankBelow(e: Text, n: nat, positions: bool) {
    exists k: nat :: k < n && PostingOf(e, k, positions)
  }

  ghost predicate Sized(t: Text) {
    |t| < 0x8000_0000
  }

  /** The texts of one term over n documents: one or more postings of ascending ranks. */
  ghost predicate PostingRun(texts: seq<Text>, n: nat, positions: bool) {
    && texts != []
    && (forall i :: 0 <= i < |texts| ==> Sized(texts[i]) && RankBelow(texts[i], n, positions))
    && forall i, j, k: nat, m: nat ::
         (0 <= i < j < |texts| && k < n && m < n &&
          PostingOf(texts[i], k, positions) && PostingOf(texts[j], m, positions)) ==> k < m
  }

  /** A description of n documents whose terms come from the given set. */
  ghost predicate FieldLines(lines: seq<Line>, terms: set<Text>, n: nat, positions: bool) {
    && Ascending(TermsOf(lines))
    && forall i :: 0 <= i < |lines| ==> lines[i].term in terms && PostingRun(lines[i].texts, n, positions)
  }

  /** The guard: some term q with a smaller term u is the text of a posting of rank k >= 1,
      and a posting can follow it, or a term above u is the text of a posting of rank 0. */
  ghost predicate Confusable(terms: set<Text>, n: nat, positions: bool) {
    exists u, q, k: nat :: Confuses(terms, n, positions, u, q, k)
  }

  ghost predicate Confuses(terms: set<Text>, n: nat, positions: bool, u: Text, q: Text, k: nat) {
    && u in terms && q in terms && Less(u, q) && 1 <= k < n && PostingOf(q, k, positions)
    && (k + 1 < n || exists z :: z in terms && Less(u, z) && PostingOf(z, 0, positions))
  }

  lemma RankUnique(e: Text, k: nat, m: nat, positions: bool)
    requires k < 0x8000_0000 && m < 0x8000_0000
    requires PostingOf(e, k, positions) && PostingOf(e, m, positions)
    ensures k == m
  {
    hide Render, Kept;
    var c :| Kept(c, positions) && e == Render(k, c, positions);
    var d :| Kept(d, positions) && e == Render(m, d, positions);
    RenderTellsRank(k, m, c, d, positions);
  }

  lemma {:induction false} TailFieldLines(lines: seq<Line>, terms: set<Text>, n: nat, positions: bool)
    requires FieldLines(lines, terms, n, positions) && lines != []
    ensures FieldLines(lines[1..], terms, n, positions)
    ensures forall i :: 0 <= i < |lines[1..]| ==> Less(lines[0].term, lines[1..][i].term)
  {
    hide PostingRun, Less;
    var ts, us := TermsOf(lines), TermsOf(lines[1..]);
    assert forall i :: 0 <= i < |us| ==> us[i] == ts[i + 1];
    forall i | 0 <= i < |us|
      ensures Less(ts[0], us[i])
    {
      assert us[i] == ts[i + 1];
    }
  }

  // ---------------------------------------------------------------------------
  // Unconfusable terms: the items determine the lines
  // ---------------------------------------------------------------------------

  /** A posting behind another one has rank at least 1, and only the highest rank is last by
      necessity. */
  lemma LaterRank(texts: seq<Text>, i: nat, n: nat, positions: bool) returns (k: nat)
    requires PostingRun(texts, n, positions) && i < |texts|
    ensures k < n && PostingOf(texts[i], k, positions)
    ensures i > 0 ==> k >= 1
    ensures i + 1 < |texts| ==> k + 1 < n
  {
    hide PostingOf;
    assert RankBelow(texts[i], n, positions);
    k :| k < n && PostingOf(texts[i], k, positions);
    if i > 0 {
      assert RankBelow(texts[0], n, positions);
      var m: nat :| m < n && PostingOf(texts[0], m, positions);
    }
    if i + 1 < |texts| {
      assert RankBelow(texts[i + 1], n, positions);
      var m: nat :| m < n && PostingOf(texts[i + 1], m, positions);
    }
  }

  /** Every posting text among the terms above u has the highest rank. */
  ghost predicate OnlyLast(terms: set<Text>, n: nat, positions: bool, u: Text) {
    forall z, k: nat :: z in terms && Less(u, z) && k < n && PostingOf(z, k, positions) ==> k + 1 == n
  }

  /** Once the two readings are one item apart they stay so: what one takes for a term the
      other has just taken for the last posting of a term. So they never end together. */
  lemma {:induction false} NeverTogether(
    a: seq<Line>, b: seq<Line>, s: Text, u: Text, terms: set<Text>, n: nat, positions: bool)
    requires FieldLines(a, terms, n, positions) && FieldLines(b, terms, n, positions)
    requires OnlyLast(terms, n, positions, u)
    requires forall i :: 0 <= i < |a| ==> Less(u, a[i].term)
    requires forall i :: 0 <= i < |b| ==> Less(u, b[i].term)
    requires a != []
    ensures Items(a) != [s] + Items(b)
    decreases |a| + |b|
  {
    hide PostingRun, PostingOf, Less, Ascending, TermsOf, OnlyLast, Items;
    if Items(a) == [s] + Items(b) {
      var texts := a[0].texts;
      NonEmptyRun(texts, n, positions);
      FirstItems(a);
      FirstItems(b);
      assert ([s] + Items(b))[1..] == Items(b);
      assert Items(b) == texts + Items(a[1..]) && Items(b)[0] == texts[0];
      TailFieldLines(a, terms, n, positions);
      AboveIsLast(terms, n, positions, u, texts);
      assert texts == [texts[0]];
      NeverTogether(b, a[1..], texts[0], u, terms, n, positions);
    }
  }

  lemma AboveIsLast(terms: set<Text>, n: nat, positions: bool, u: Text, texts: seq<Text>)
    requires OnlyLast(terms, n, positions, u) && PostingRun(texts, n, positions)
    requires texts[0] in terms && Less(u, texts[0])
    ensures |texts| == 1
  {
    hide PostingRun, PostingOf, Less;
    NonEmptyRun(texts, n, positions);
    var k := LaterRank(texts, 0, n, positions);
  }

  lemma NonEmptyRun(texts: seq<Text>, n: nat, positions: bool)
    requires PostingRun(texts, n, positions)
    ensures texts != []
  {
  }

  /** A line of one reading that goes on where the other starts a new term shows the terms to
      be confusable. */
  lemma {:induction false} LongerRun(
    a: seq<Line>, b: seq<Line>, terms: set<Text>, n: nat, positions: bool)
    requires n < 0x8000_0000 && !Confusable(terms, n, positions)
    requires FieldLines(a, terms, n, positions) && FieldLines(b, terms, n, positions)
    requires a != [] && b != [] && a[0].term == b[0].term && Items(a) == Items(b)
    ensures |a[0].texts| <= |b[0].texts|
  {
    hide PostingRun, PostingOf, Less, Ascending, TermsOf, Items, Confusable;
    var u, x, y := a[0].term, a[0].texts, b[0].texts;
    if |x| > |y| {
      NonEmptyRun(y, n, positions);
      FirstItems(a);
      FirstItems(b);
      FirstItems(b[1..]);
      var ra, rb, p := Items(a[1..]), Items(b[1..]), x[|y|];
      assert rb == (y + rb)[|y|..] == (x + ra)[|y|..] == x[|y|..] + ra;
      TailFieldLines(a, terms, n, positions);
      TailFieldLines(b, terms, n, positions);
      assert b[1..][0].term == p;
      var k := LaterRank(x, |y|, n, positions);
      NotConfused(terms, n, positions, u, p, k);
      assert x[|y|..] == [p];
      NeverTogether(b[1..], a[1..], p, u, terms, n, positions);
    }
  }

  lemma NotConfused(terms: set<Text>, n: nat, positions: bool, u: Text, p: Text, k: nat)
    requires n < 0x8000_0000 && !Confusable(terms, n, positions)
    requires u in terms && p in terms && Less(u, p) && 1 <= k < n && PostingOf(p, k, positions)
    ensures k + 1 == n && OnlyLast(terms, n, positions, u)
  {
    hide PostingOf, Less;
    assert !Confuses(terms, n, positions, u, p, k);
    forall z, m: nat | z in terms && Less(u, z) && m < n && PostingOf(z, m, positions)
      ensures m + 1 == n
    {
      assert m >= 1 ==> !Confuses(terms, n, positions, u, z, m);
    }
  }

  lemma {:induction false} LinesFromItems(a: seq<Line>, b: seq<Line>, terms: set<Text>, n: nat, positions: bool)
    requires n < 0x8000_0000 && !Confusable(terms, n, positions)
    requires FieldLines(a, terms, n, positions) && FieldLines(b, terms, n, positions) && Items(a) == Items(b)
    ensures a == b
    decreases |a|
  {
    hide PostingRun, Confusable, Items, Ascending, TermsOf;
    FirstItems(a);
    FirstItems(b);
    if a != [] && b != [] {
      LongerRun(a, b, terms, n, positions);
      LongerRun(b, a, terms, n, positions);
      var x, y, ra, rb := a[0].texts, b[0].texts, Items(a[1..]), Items(b[1..]);
      assert x == (x + ra)[..|x|] == (y + rb)[..|y|] == y;
      assert ra == (x + ra)[|x|..] == (y + rb)[|y|..] == rb;
      TailFieldLines(a, terms, n, positions);
      TailFieldLines(b, terms, n, positions);
      LinesFromItems(a[1..], b[1..], terms, n, positions);
      assert a == [a[0]] + a[1..] && b == [b[0]] + b[1..];
    }
  }

  // ---------------------------------------------------------------------------
  // Confusable terms: two descriptions with the same bytes
  // ---------------------------------------------------------------------------

  /** The posting text with the content of e and another rank. */
  lemma OtherRank(e: Text, k: nat, m: nat, positions: bool) returns (f: Text)
    requires PostingOf(e, k, positions)
    ensures PostingOf(f, m, positions) && |f| == |e|
  {
    hide ContentText, Kept;
    var c :| Kept(c, positions) && e == Render(k, c, positions);
    f := Render(m, c, positions);
  }

  lemma OneIsRun(x: Text, k: nat, n: nat, positions: bool)
    requires Sized(x) && k < n && PostingOf(x, k, positions)
    ensures PostingRun([x], n, positions)
  {
    hide PostingOf;
    assert RankBelow(x, n, positions);
  }

  lemma TwoAreRun(x: Text, k: nat, y: Text, m: nat, n: nat, positions: bool)
    requires Sized(x) && Sized(y) && k < m < n < 0x8000_0000
    requires PostingOf(x, k, positions) && PostingOf(y, m, positions)
    ensures PostingRun([x, y], n, positions)
  {
    hide PostingOf;
    var texts := [x, y];
    assert RankBelow(x, n, positions) && RankBelow(y, n, positions);
    forall k': nat, m': nat | k' < n && m' < n && PostingOf(x, k', positions) && PostingOf(y, m', positions)
      ensures k' < m'
    {
      RankUnique(x, k, k', positions);
      RankUnique(y, m, m', positions);
    }
  }

  lemma TwoLines(l: Line, m: Line, terms: set<Text>, n: nat, positions: bool)
    requires l.term in terms && m.term in terms && Less(l.term, m.term)
    requires PostingRun(l.texts, n, positions) && PostingRun(m.texts, n, positions)
    ensures FieldLines([l, m], terms, n, positions)
    ensures Items([l, m]) == [l.term] + l.texts + ([m.term] + m.texts)
  {
    hide PostingRun, Less;
    assert TermsOf([l, m]) == [l.term, m.term];
    assert [l, m][1..] == [m] && [m][1..] == [];
    assert Items([m]) == [m.term] + m.texts + [];
  }

  /** Two descriptions of the same field with as many terms and the same items. */
  lemma Confused(terms: set<Text>, n: nat, positions: bool) returns (a: seq<Line>, b: seq<Line>)
    requires n < 0x8000_0000 && Confusable(terms, n, positions) && forall t :: t in terms ==> Sized(t)
    ensures FieldLines(a, terms, n, positions) && FieldLines(b, terms, n, positions)
    ensures |a| == |b| == 2 && a != b && Items(a) == Items(b)
  {
    hide PostingOf, PostingRun, Less, Items, FieldLines;
    var u, q, k: nat :| Confuses(terms, n, positions, u, q, k);
    var first := OtherRank(q, k, 0, positions);
    OneIsRun(first, 0, n, positions);
    TwoAreRun(first, 0, q, k, n, positions);
    if k + 1 < n {
      var next := OtherRank(q, k, k + 1, positions);
      TwoAreRun(q, k, next, k + 1, n, positions);
      OneIsRun(next, k + 1, n, positions);
      a, b := [Line(u, [first]), Line(q, [q, next])], [Line(u, [first, q]), Line(q, [next])];
      TwoLines(a[0], a[1], terms, n, positions);
      TwoLines(b[0], b[1], terms, n, positions);
      assert Items(a) == [u, first, q, q, next] == Items(b);
    } else {
      var z :| z in terms && Less(u, z) && PostingOf(z, 0, positions);
      OneIsRun(q, k, n, positions);
      TwoAreRun(z, 0, q, k, n, positions);
      a, b := [Line(u, [first, q]), Line(z, [q])], [Line(u, [first]), Line(q, [z, q])];
      TwoLines(a[0], a[1], terms, n, positions);
      TwoLines(b[0], b[1], terms, n, positions);
      assert Items(a) == [u, first, q, z, q] == Items(b);
    }
    assert |a[0].texts| != |b[0].texts|;
  }

  // ---------------------------------------------------------------------------
  // The exact condition
  // ---------------------------------------------------------------------------

  ghost predicate SameBytes(a: seq<Line>, b: seq<Line>) {
    |a| == |b| && LinesBytes(a) == LinesBytes(b)
  }

  lemma {:induction false} ItemsLong(lines: seq<Line>, terms: set<Text>, n: nat, positions: bool)
    requires FieldLines(lines, terms, n, positions) && forall t :: t in terms ==> Sized(t)
    ensures AllLong(Items(lines))
    decreases |lines|
  {
    hide PostingOf, Less;
    if lines != [] {
      TailFieldLines(lines, terms, n, positions);
      ItemsLong(lines[1..], terms, n, positions);
    }
  }

  lemma BytesAreItems(a: seq<Line>, b: seq<Line>, terms: set<Text>, n: nat, positions: bool)
    requires FieldLines(a, terms, n, positions) && FieldLines(b, terms, n, positions)
    requires forall t :: t in terms ==> Sized(t)
    ensures LinesBytes(a) == LinesBytes(b) <==> Items(a) == Items(b)
  {
    hide FieldLines, TextsBytes, Items, LinesBytes;
    BytesOfItems(a);
    BytesOfItems(b);
    ItemsLong(a, terms, n, positions);
    ItemsLong(b, terms, n, positions);
    if LinesBytes(a) == LinesBytes(b) {
      ItemsFromBytes(Items(a), Items(b));
    }
  }

  /** Term count and bytes determine every description over these terms, exactly when the
      terms are not confusable. */
  lemma BytesDecide(terms: set<Text>, n: nat, positions: bool)
    requires n < 0x8000_0000 && forall t :: t in terms ==> Sized(t)
    ensures (forall a, b ::
               (FieldLines(a, terms, n, positions) && FieldLines(b, terms, n, positions) && SameBytes(a, b)) ==> a == b)
            <==> !Confusable(terms, n, positions)
  {
    hide FieldLines, Confusable, LinesBytes;
    if Confusable(terms, n, positions) {
      var a, b := Confused(terms, n, positions);
      BytesAreItems(a, b, terms, n, positions);
      assert SameBytes(a, b);
    } else {
      forall a, b | FieldLines(a, terms, n, positions) && FieldLines(b, terms, n, positions) && SameBytes(a, b)
        ensures a == b
      {
        BytesAreItems(a, b, terms, n, positions);
        LinesFromItems(a, b, terms, n, positions);
      }
    }
  }
}
