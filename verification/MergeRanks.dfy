/** How fixtures/bwc/BwcMergeCheck.java numbers the live documents of an index, and how it
    finds the documents of one index in another by their stored fields. */
module MergeRanks {
  import opened Common
  import opened VarInt
  import opened TextOrder
  import opened PostingsStream

  /** One term of one field and its postings, in document order. */
  datatype TermPostings = TermPostings(term: Text, postings: seq<Posting>)

  /** A leaf: no `liveDocs` means nothing is deleted. `keys` are the stored fields of each
      document as one string, `terms` the inverted field, in term order. */
  datatype Leaf = Leaf(maxDoc: nat, liveDocs: Option<seq<bool>>, keys: seq<Text>, terms: seq<TermPostings>)

  type Reader = seq<Leaf>

  datatype Doc = Doc(leaf: nat, doc: nat)

  ghost predicate ValidLeaf(l: Leaf) {
    |l.keys| == l.maxDoc && (l.liveDocs.Some? ==> |l.liveDocs.value| == l.maxDoc)
  }

  ghost predicate ValidReader(r: Reader) {
    forall k :: 0 <= k < |r| ==> ValidLeaf(r[k])
  }

  predicate Alive(l: Leaf, d: nat)
    requires ValidLeaf(l) && d < l.maxDoc
  {
    l.liveDocs.None? || l.liveDocs.value[d]
  }

  ghost predicate IsDoc(r: Reader, x: Doc) {
    x.leaf < |r| && x.doc < r[x.leaf].maxDoc
  }

  ghost predicate IsLive(r: Reader, x: Doc)
    requires ValidReader(r)
  {
    IsDoc(r, x) && Alive(r[x.leaf], x.doc)
  }

  function KeyOf(r: Reader, x: Doc): Text
    requires ValidReader(r) && IsDoc(r, x)
  {
    r[x.leaf].keys[x.doc]
  }

  // ---------------------------------------------------------------------------
  // `live`
  // ---------------------------------------------------------------------------

  /** The live ones among the first n documents of leaf `ord`. */
  function LeafLive(l: Leaf, ord: nat, n: nat): (docs: seq<Doc>)
    requires ValidLeaf(l) && n <= l.maxDoc
  {
    if n == 0 then []
    else LeafLive(l, ord, n - 1) + (if Alive(l, n - 1) then [Doc(ord, n - 1)] else [])
  }

  /** All live documents, leaf by leaf. */
  function LiveOf(r: Reader): (docs: seq<Doc>)
    requires ValidReader(r)
  {
    if r == [] then []
    else LiveOf(r[..|r| - 1]) + LeafLive(r[|r| - 1], |r| - 1, r[|r| - 1].maxDoc)
  }

  method Live(r: Reader) returns (out: seq<Doc>)
    requires ValidReader(r)
    ensures out == LiveOf(r)
    ensures forall x :: x in out <==>
              && x.leaf < |r| && x.doc < r[x.leaf].maxDoc
              && (r[x.leaf].liveDocs == None || r[x.leaf].liveDocs.value[x.doc])
    ensures forall i, j :: 0 <= i < j < |out| ==>
              out[i].leaf < out[j].leaf || (out[i].leaf == out[j].leaf && out[i].doc < out[j].doc)
  {
    out := [];
    for ord := 0 to |r|
      invariant out == LiveOf(r[..ord])
    {
      ghost var before := out;
      for d := 0 to r[ord].maxDoc
        invariant out == before + LeafLive(r[ord], ord, d)
      {
        if Alive(r[ord], d) {
          out := out + [Doc(ord, d)];
        }
      }
      assert r[..ord + 1][..ord] == r[..ord];
    }
    assert r[..|r|] == r;
    LiveOfExact(r);
  }

  /** Strictly ascending by leaf, then by document. */
  ghost predicate InOrder(docs: seq<Doc>) {
    forall i, j :: 0 <= i < j < |docs| ==>
      docs[i].leaf < docs[j].leaf || (docs[i].leaf == docs[j].leaf && docs[i].doc < docs[j].doc)
  }

  lemma {:induction false} LeafLiveExact(l: Leaf, ord: nat, n: nat)
    requires ValidLeaf(l) && n <= l.maxDoc
    ensures InOrder(LeafLive(l, ord, n))
    ensures forall x :: x in LeafLive(l, ord, n) <==> x.leaf == ord && x.doc < n && Alive(l, x.doc)
    decreases n
  {
    if n > 0 {
      LeafLiveExact(l, ord, n - 1);
      var init := LeafLive(l, ord, n - 1);
      assert forall k :: 0 <= k < |init| ==> init[k] in init;
    }
  }

  /** `live` lists exactly the live documents, each once, in index order. */
  lemma {:induction false} LiveOfExact(r: Reader)
    requires ValidReader(r)
    ensures InOrder(LiveOf(r))
    ensures forall x :: x in LiveOf(r) <==> IsLive(r, x)
    ensures forall x :: x in LiveOf(r) <==>
              && x.leaf < |r| && x.doc < r[x.leaf].maxDoc
              && (r[x.leaf].liveDocs == None || r[x.leaf].liveDocs.value[x.doc])
    decreases |r|
  {
    if r != [] {
      var init, ord := r[..|r| - 1], |r| - 1;
      var l := r[ord];
      LiveOfExact(init);
      LeafLiveExact(l, ord, l.maxDoc);
      var a, b := LiveOf(init), LeafLive(l, ord, l.maxDoc);
      assert forall k :: 0 <= k < |a| ==> a[k] in a;
      assert forall k :: 0 <= k < |b| ==> b[k] in b;
      forall x
        ensures x in LiveOf(r) <==> IsLive(r, x)
      {
        assert x in LiveOf(r) <==> x in a || x in b;
        if x.leaf < ord {
          assert init[x.leaf] == r[x.leaf];
        }
      }
    }
  }

  // ---------------------------------------------------------------------------
  // Rank tables
  // ---------------------------------------------------------------------------

  type Ranks = seq<seq<int>>

  ghost predicate Fits(ranks: Ranks, r: Reader) {
    |ranks| == |r| && forall k :: 0 <= k < |r| ==> |ranks[k]| == r[k].maxDoc
  }

  /** The table numbers the live documents 0, 1, .. in the given order and marks the
      deleted ones with -1. */
  ghost predicate Numbers(ranks: Ranks, r: Reader, order: seq<Doc>)
    requires ValidReader(r)
  {
    && Fits(ranks, r)
    && |order| == |LiveOf(r)|
    && (forall k :: 0 <= k < |order| ==> IsLive(r, order[k]) && ranks[order[k].leaf][order[k].doc] == k)
    && (forall x :: IsLive(r, x) ==> 0 <= ranks[x.leaf][x.doc] < |order| && order[ranks[x.leaf][x.doc]] == x)
    && (forall x :: IsDoc(r, x) && !IsLive(r, x) ==> ranks[x.leaf][x.doc] == -1)
  }

  /** One row of the table, for a leaf whose first live document gets number `next`. */
  function RankRow(l: Leaf, next: nat, n: nat): (row: seq<int>)
    requires ValidLeaf(l) && n <= l.maxDoc
    ensures |row| == n
  {
    if n == 0 then []
    else RankRow(l, next, n - 1) + [if Alive(l, n - 1) then next + |LeafLive(l, 0, n - 1)| else -1]
  }

  lemma {:induction false} LeafLiveLength(l: Leaf, ord: nat, n: nat)
    requires ValidLeaf(l) && n <= l.maxDoc
    ensures |LeafLive(l, ord, n)| == |LeafLive(l, 0, n)|
    decreases n
  {
    if n > 0 {
      LeafLiveLength(l, ord, n - 1);
    }
  }

  method RankLeaf(l: Leaf, first: nat) returns (row: seq<int>, next: nat)
    requires ValidLeaf(l)
    ensures row == RankRow(l, first, l.maxDoc) && next == first + |LeafLive(l, 0, l.maxDoc)|
  {
    var m := new int[l.maxDoc];
    next := first;
    for d := 0 to l.maxDoc
      invariant next == first + |LeafLive(l, 0, d)|
      invariant m[..d] == RankRow(l, first, d)
    {
      if Alive(l, d) {
        m[d] := next;
        next := next + 1;
      } else {
        m[d] := -1;
      }
      assert m[..d + 1] == m[..d] + [m[d]];
    }
    assert m[..l.maxDoc] == m[..];
    row := m[..];
  }

  /** `ranks`: every live document gets its position in `live`. */
  method RanksOf(r: Reader) returns (out: Ranks)
    requires ValidReader(r)
    ensures Numbers(out, r, LiveOf(r))
    ensures forall o, d :: 0 <= o < |r| && 0 <= d < r[o].maxDoc ==>
              if r[o].liveDocs == None || r[o].liveDocs.value[d]
              then 0 <= out[o][d] < |LiveOf(r)| && LiveOf(r)[out[o][d]] == Doc(o, d) else out[o][d] == -1
  {
    hide Numbers, RankRow, LeafLive;
    out := [];
    var next := 0;
    for ord := 0 to |r|
      invariant |out| == ord && next == |LiveOf(r[..ord])|
      invariant forall k :: 0 <= k < ord ==> out[k] == RankRow(r[k], |LiveOf(r[..k])|, r[k].maxDoc)
    {
      var l := r[ord];
      LeafLiveLength(l, ord, l.maxDoc);
      assert r[..ord + 1][..ord] == r[..ord];
      var row;
      row, next := RankLeaf(l, next);
      out := out + [row];
    }
    assert r[..|r|] == r;
    RowsNumber(r, out);
    NumbersOnData(out, r, LiveOf(r));
  }

  /** What a numbering says of every entry of the table. */
  lemma NumbersOnData(ranks: Ranks, r: Reader, order: seq<Doc>)
    requires ValidReader(r) && Numbers(ranks, r, order)
    ensures Fits(ranks, r)
    ensures forall o, d :: 0 <= o < |r| && 0 <= d < r[o].maxDoc ==>
              if r[o].liveDocs == None || r[o].liveDocs.value[d]
              then 0 <= ranks[o][d] < |order| && order[ranks[o][d]] == Doc(o, d) else ranks[o][d] == -1
  {
    hide LiveOf;
    forall o, d | 0 <= o < |r| && 0 <= d < r[o].maxDoc
      ensures if r[o].liveDocs == None || r[o].liveDocs.value[d]
              then 0 <= ranks[o][d] < |order| && order[ranks[o][d]] == Doc(o, d) else ranks[o][d] == -1
    {
      assert IsDoc(r, Doc(o, d));
    }
  }

  lemma {:induction false} RankRowAt(l: Leaf, next: nat, n: nat, d: nat)
    requires ValidLeaf(l) && d < n <= l.maxDoc
    ensures RankRow(l, next, n)[d] == if Alive(l, d) then next + |LeafLive(l, 0, d)| else -1
    decreases n
  {
    if d < n - 1 {
      RankRowAt(l, next, n - 1, d);
    }
  }

  lemma {:induction false} LeafLiveAt(l: Leaf, ord: nat, n: nat, d: nat)
    requires ValidLeaf(l) && d < n <= l.maxDoc && Alive(l, d)
    ensures |LeafLive(l, ord, d)| < |LeafLive(l, ord, n)|
    ensures LeafLive(l, ord, n)[|LeafLive(l, ord, d)|] == Doc(ord, d)
    decreases n
  {
    if d < n - 1 {
      LeafLiveAt(l, ord, n - 1, d);
    }
  }

  lemma {:induction false} LiveOfAt(r: Reader, ord: nat, k: nat)
    requires ValidReader(r) && ord < |r| && k < |LeafLive(r[ord], ord, r[ord].maxDoc)|
    ensures |LiveOf(r[..ord])| + k < |LiveOf(r)|
    ensures LiveOf(r)[|LiveOf(r[..ord])| + k] == LeafLive(r[ord], ord, r[ord].maxDoc)[k]
    decreases |r|
  {
    if ord < |r| - 1 {
      assert r[..|r| - 1][..ord] == r[..ord];
      LiveOfAt(r[..|r| - 1], ord, k);
    }
  }

  lemma RowsNumber(r: Reader, out: Ranks)
    requires ValidReader(r) && |out| == |r|
    requires forall k :: 0 <= k < |r| ==> out[k] == RankRow(r[k], |LiveOf(r[..k])|, r[k].maxDoc)
    ensures Numbers(out, r, LiveOf(r))
  {
    hide LiveOf, LeafLive, RankRow;
    var order := LiveOf(r);
    LiveOfExact(r);
    forall x | IsDoc(r, x)
      ensures !IsLive(r, x) ==> out[x.leaf][x.doc] == -1
      ensures IsLive(r, x) ==> 0 <= out[x.leaf][x.doc] < |order| && order[out[x.leaf][x.doc]] == x
    {
      var l := r[x.leaf];
      RankRowAt(l, |LiveOf(r[..x.leaf])|, l.maxDoc, x.doc);
      if IsLive(r, x) {
        LeafLiveLength(l, x.leaf, x.doc);
        LeafLiveAt(l, x.leaf, l.maxDoc, x.doc);
        LiveOfAt(r, x.leaf, |LeafLive(l, x.leaf, x.doc)|);
      }
    }
    forall k | 0 <= k < |order|
      ensures IsLive(r, order[k]) && out[order[k].leaf][order[k].doc] == k
    {
      assert order[k] in order;
    }
  }

  // ---------------------------------------------------------------------------
  // `ranksByStoredFields`
  // ---------------------------------------------------------------------------

  datatype Outcome =
    | Matched(ranks: Ranks)
    | TwoMergedAlike
    | MissingFromMerged(at: Doc)
    | NotInOriginal(count: nat)

  /** The keys of the live ones among the first n documents of a leaf. */
  function LeafKeys(l: Leaf, n: nat): (keys: seq<Text>)
    requires ValidLeaf(l) && n <= l.maxDoc
  {
    if n == 0 then [] else LeafKeys(l, n - 1) + (if Alive(l, n - 1) then [l.keys[n - 1]] else [])
  }

  /** The keys of the live documents, in index order. */
  function LiveKeys(r: Reader): (keys: seq<Text>)
    requires ValidReader(r)
  {
    if r == [] then [] else LiveKeys(r[..|r| - 1]) + LeafKeys(r[|r| - 1], r[|r| - 1].maxDoc)
  }

  lemma {:induction false} LeafKeysAt(l: Leaf, ord: nat, n: nat)
    requires ValidLeaf(l) && n <= l.maxDoc
    ensures |LeafKeys(l, n)| == |LeafLive(l, ord, n)|
    ensures forall k :: 0 <= k < |LeafKeys(l, n)| ==>
              LeafLive(l, ord, n)[k].doc < n && LeafKeys(l, n)[k] == l.keys[LeafLive(l, ord, n)[k].doc]
    decreases n
  {
    if n > 0 {
      LeafKeysAt(l, ord, n - 1);
    }
  }

  lemma {:induction false} LiveKeysAt(r: Reader)
    requires ValidReader(r)
    ensures |LiveKeys(r)| == |LiveOf(r)|
    ensures forall k :: 0 <= k < |LiveOf(r)| ==> IsLive(r, LiveOf(r)[k]) && LiveKeys(r)[k] == KeyOf(r, LiveOf(r)[k])
    decreases |r|
  {
    hide LeafLive, LeafKeys, LiveOf, LiveKeys;
    LiveSteps(r);
    if r != [] {
      var init, ord := r[..|r| - 1], |r| - 1;
      var a, b := LiveOf(init), LeafLive(r[ord], ord, r[ord].maxDoc);
      LiveKeysAt(init);
      LeafKeysAt(r[ord], ord, r[ord].maxDoc);
      LeafLiveExact(r[ord], ord, r[ord].maxDoc);
      forall k | 0 <= k < |LiveOf(r)|
        ensures IsLive(r, LiveOf(r)[k]) && LiveKeys(r)[k] == KeyOf(r, LiveOf(r)[k])
      {
        if k < |a| {
          assert LiveOf(r)[k] == a[k] && IsLive(init, a[k]);
        } else {
          assert LiveOf(r)[k] == b[k - |a|] && b[k - |a|] in b;
        }
      }
    }
  }

  lemma LiveSteps(r: Reader)
    requires ValidReader(r)
    ensures r == [] ==> LiveOf(r) == [] && LiveKeys(r) == []
    ensures r != [] ==>
              var init, l := r[..|r| - 1], r[|r| - 1];
              && LiveOf(r) == LiveOf(init) + LeafLive(l, |r| - 1, l.maxDoc)
              && LiveKeys(r) == LiveKeys(init) + LeafKeys(l, l.maxDoc)
  {
    hide LeafLive, LeafKeys;
  }

  // --- the two loops

  ghost predicate Indexes(index: map<Text, nat>, keys: seq<Text>) {
    && (forall k :: k in index <==> k in keys)
    && (forall k :: k in index ==> index[k] < |keys| && keys[index[k]] == k)
    && Distinct(keys)
  }

  /** The first loop: every merged key with its position, or two alike. */
  method IndexKeys(keys: seq<Text>) returns (distinct: bool, index: map<Text, nat>)
    ensures distinct <==> Distinct(keys)
    ensures distinct ==> Indexes(index, keys)
  {
    index := map[];
    for i := 0 to |keys|
      invariant Indexes(index, keys[..i])
    {
      if keys[i] in index {
        assert keys[..i][index[keys[i]]] == keys[i];
        return false, index;
      }
      assert keys[..i + 1] == keys[..i] + [keys[i]];
      index := index[keys[i] := i];
    }
    assert keys[..|keys|] == keys;
    return true, index;
  }

  /** What is left of the index after the keys `done` took their entries. */
  ghost predicate Remaining(rest: map<Text, nat>, index: map<Text, nat>, done: seq<Text>) {
    && (forall k :: k in rest <==> k in index && k !in done)
    && (forall k :: k in rest ==> rest[k] == index[k])
    && (forall i :: 0 <= i < |done| ==> done[i] in index)
    && Distinct(done)
  }

  /** The first n entries of a leaf's row: deleted documents get -1, live ones what the
      index says of their key. */
  ghost predicate RowByKey(row: seq<int>, l: Leaf, n: nat, index: map<Text, nat>)
    requires ValidLeaf(l)
  {
    && n <= l.maxDoc && n <= |row|
    && forall d :: 0 <= d < n ==>
         if Alive(l, d) then l.keys[d] in index && row[d] == index[l.keys[d]] else row[d] == -1
  }

  /** The second loop, over one leaf: every live document takes its key's entry. */
  method MatchLeaf(l: Leaf, where: map<Text, nat>, ghost index: map<Text, nat>, ghost done: seq<Text>)
    returns (missing: Option<nat>, row: seq<int>, rest: map<Text, nat>)
    requires ValidLeaf(l) && Remaining(where, index, done)
    ensures missing.None? ==>
              && |row| == l.maxDoc && RowByKey(row, l, l.maxDoc, index)
              && Remaining(rest, index, done + LeafKeys(l, l.maxDoc))
    ensures missing.Some? ==>
              var d := missing.value;
              && d < l.maxDoc && Alive(l, d)
              && (l.keys[d] !in index || l.keys[d] in done + LeafKeys(l, d))
  {
    hide Remaining;
    var m := new int[l.maxDoc];
    rest := where;
    assert done + [] == done;
    for d := 0 to l.maxDoc
      invariant RowByKey(m[..], l, d, index)
      invariant Remaining(rest, index, done + LeafKeys(l, d))
    {
      if Alive(l, d) {
        if l.keys[d] !in rest {
          NotRemaining(rest, index, done + LeafKeys(l, d), l.keys[d]);
          return Some(d), [], rest;
        }
        m[d] := rest[l.keys[d]];
        TakeKey(rest, index, done + LeafKeys(l, d), l.keys[d]);
        rest := rest - {l.keys[d]};
        assert done + LeafKeys(l, d + 1) == (done + LeafKeys(l, d)) + [l.keys[d]];
      } else {
        m[d] := -1;
        assert LeafKeys(l, d + 1) == LeafKeys(l, d);
      }
    }
    return None, m[..], rest;
  }

  lemma NotRemaining(rest: map<Text, nat>, index: map<Text, nat>, done: seq<Text>, key: Text)
    requires Remaining(rest, index, done) && key !in rest
    ensures key !in index || key in done
  {
  }

  lemma TakeKey(rest: map<Text, nat>, index: map<Text, nat>, done: seq<Text>, key: Text)
    requires Remaining(rest, index, done) && key in rest
    ensures Remaining(rest - {key}, index, done + [key])
    ensures key in index && rest[key] == index[key]
  {
    assert forall k :: k in done + [key] <==> k in done || k == key;
  }

  lemma {:induction false} DistinctCounts(s: seq<Text>)
    requires Distinct(s)
    ensures forall x :: multiset(s)[x] == if x in s then 1 else 0
    decreases |s|
  {
    if s != [] {
      var init := s[..|s| - 1];
      assert s == init + [s[|s| - 1]];
      DistinctCounts(init);
    }
  }

  /** The keys up to a document are a prefix of all of them. */
  lemma {:induction false} KeysPrefix(r: Reader, ord: nat, n: nat)
    requires ValidReader(r) && ord < |r| && n <= r[ord].maxDoc
    ensures LiveKeys(r[..ord]) + LeafKeys(r[ord], n) <= LiveKeys(r)
    decreases |r|
  {
    if ord < |r| - 1 {
      assert r[..|r| - 1][..ord] == r[..ord];
      KeysPrefix(r[..|r| - 1], ord, n);
    } else {
      LeafKeysPrefix(r[ord], n, r[ord].maxDoc);
    }
  }

  lemma {:induction false} LeafKeysPrefix(l: Leaf, n: nat, m: nat)
    requires ValidLeaf(l) && n <= m <= l.maxDoc
    ensures LeafKeys(l, n) <= LeafKeys(l, m)
    decreases m
  {
    if n < m {
      LeafKeysPrefix(l, n, m - 1);
    }
  }

  lemma PrefixCounts(a: seq<Text>, s: seq<Text>, x: Text)
    requires a <= s
    ensures multiset(a)[x] <= multiset(s)[x]
  {
    assert s == a + s[|a|..];
  }

  /** The key of an original document that finds no entry is one the original has more
      of than the merged index. */
  lemma {:induction false} MissingHasMore(r: Reader, ord: nat, d: nat, index: map<Text, nat>, keys: seq<Text>)
    requires ValidReader(r) && Indexes(index, keys)
    requires ord < |r| && d < r[ord].maxDoc && Alive(r[ord], d)
    requires var key := r[ord].keys[d]; key !in index || key in LiveKeys(r[..ord]) + LeafKeys(r[ord], d)
    ensures multiset(LiveKeys(r))[r[ord].keys[d]] > multiset(keys)[r[ord].keys[d]]
  {
    hide LiveKeys, LeafKeys;
    var key := r[ord].keys[d];
    var seen := LiveKeys(r[..ord]) + LeafKeys(r[ord], d);
    KeysPrefix(r, ord, d + 1);
    NextLeafKey(r[ord], d);
    assert LiveKeys(r[..ord]) + LeafKeys(r[ord], d + 1) == seen + [key];
    CountsMore(seen, key, LiveKeys(r), keys);
  }

  lemma NextLeafKey(l: Leaf, d: nat)
    requires ValidLeaf(l) && d < l.maxDoc && Alive(l, d)
    ensures LeafKeys(l, d + 1) == LeafKeys(l, d) + [l.keys[d]]
  {
  }

  lemma CountsMore(seen: seq<Text>, key: Text, all: seq<Text>, keys: seq<Text>)
    requires seen + [key] <= all && Distinct(keys) && (key !in keys || key in seen)
    ensures multiset(all)[key] > multiset(keys)[key]
  {
    PrefixCounts(seen + [key], all, key);
    DistinctCounts(keys);
    assert multiset(seen + [key])[key] == multiset(seen)[key] + 1;
  }

  // --- the result

  function IndexOf(s: seq<Text>, x: Text): (i: nat)
    requires x in s
    ensures i < |s| && s[i] == x
  {
    if s[0] == x then 0 else 1 + IndexOf(s[1..], x)
  }

  /** Where each merged document stands in the original. */
  ghost function OrderByKey(orig: Reader, keys: seq<Text>): (order: seq<Doc>)
    requires ValidReader(orig) && forall k :: 0 <= k < |keys| ==> keys[k] in LiveKeys(orig)
    ensures |order| == |keys|
  {
    LiveKeysAt(orig);
    seq(|keys|, k requires 0 <= k < |keys| => LiveOf(orig)[IndexOf(LiveKeys(orig), keys[k])])
  }

  ghost predicate Permuted(orig: Reader, merged: Reader)
    requires ValidReader(orig) && ValidReader(merged)
  {
    Distinct(LiveKeys(merged)) && multiset(LiveKeys(orig)) == multiset(LiveKeys(merged))
  }

  /** Row by row, a table made from the index numbers the documents by key. */
  ghost predicate TableByKey(ranks: Ranks, r: Reader, index: map<Text, nat>)
    requires ValidReader(r)
  {
    Fits(ranks, r) && forall o :: 0 <= o < |r| ==> RowByKey(ranks[o], r[o], r[o].maxDoc, index)
  }

  lemma TableNumbers(ranks: Ranks, orig: Reader, keys: seq<Text>, index: map<Text, nat>)
    requires ValidReader(orig) && TableByKey(ranks, orig, index) && Indexes(index, keys)
    requires Distinct(LiveKeys(orig)) && |keys| == |LiveOf(orig)|
    requires forall k :: 0 <= k < |keys| ==> keys[k] in LiveKeys(orig)
    ensures var order := OrderByKey(orig, keys);
            && Numbers(ranks, orig, order)
            && forall k :: 0 <= k < |keys| ==> KeyOf(orig, order[k]) == keys[k]
  {
    hide LiveOf, LiveKeys, IndexOf, RowByKey;
    var order := OrderByKey(orig, keys);
    LiveKeysAt(orig);
    forall k | 0 <= k < |order|
      ensures IsLive(orig, order[k]) && KeyOf(orig, order[k]) == keys[k]
      ensures ranks[order[k].leaf][order[k].doc] == k
    {
      assert order[k] == LiveOf(orig)[IndexOf(LiveKeys(orig), keys[k])];
      EntryByKey(ranks, orig, index, keys, order[k]);
    }
    forall x | IsDoc(orig, x)
      ensures !IsLive(orig, x) ==> ranks[x.leaf][x.doc] == -1
      ensures IsLive(orig, x) ==> 0 <= ranks[x.leaf][x.doc] < |order| && order[ranks[x.leaf][x.doc]] == x
    {
      EntryByKey(ranks, orig, index, keys, x);
      if IsLive(orig, x) {
        SameKeySameDoc(orig, x, order[ranks[x.leaf][x.doc]]);
      }
    }
  }

  /** What the table says of one document. */
  lemma EntryByKey(ranks: Ranks, orig: Reader, index: map<Text, nat>, keys: seq<Text>, x: Doc)
    requires ValidReader(orig) && TableByKey(ranks, orig, index) && Indexes(index, keys) && IsDoc(orig, x)
    ensures !IsLive(orig, x) ==> ranks[x.leaf][x.doc] == -1
    ensures IsLive(orig, x) ==>
              && 0 <= ranks[x.leaf][x.doc] < |keys| && keys[ranks[x.leaf][x.doc]] == KeyOf(orig, x)
              && forall k :: 0 <= k < |keys| && keys[k] == KeyOf(orig, x) ==> k == ranks[x.leaf][x.doc]
  {
    assert RowByKey(ranks[x.leaf], orig[x.leaf], orig[x.leaf].maxDoc, index);
  }

  lemma SameKeySameDoc(r: Reader, x: Doc, y: Doc)
    requires ValidReader(r) && Distinct(LiveKeys(r))
    requires IsLive(r, x) && IsLive(r, y) && KeyOf(r, x) == KeyOf(r, y)
    ensures x == y
  {
    hide LiveOf, LiveKeys;
    LiveOfExact(r);
    LiveKeysAt(r);
    assert x in LiveOf(r) && y in LiveOf(r);
    var i :| 0 <= i < |LiveOf(r)| && LiveOf(r)[i] == x;
    var j :| 0 <= j < |LiveOf(r)| && LiveOf(r)[j] == y;
    assert LiveKeys(r)[i] == LiveKeys(r)[j];
  }

  lemma PermutedWhenUsedUp(rest: map<Text, nat>, index: map<Text, nat>, done: seq<Text>, keys: seq<Text>)
    requires Remaining(rest, index, done) && Indexes(index, keys)
    ensures |rest| == |keys| - |done|
    ensures rest == map[] <==> multiset(done) == multiset(keys)
    ensures rest == map[] ==> |done| == |keys| && forall k :: 0 <= k < |keys| ==> keys[k] in done
  {
    RemainingCount(rest, index, done, keys);
    if rest == map[] {
      forall x
        ensures x in keys <==> x in done
      {
        assert x in keys <==> x in index;
        if x in done {
          var i :| 0 <= i < |done| && done[i] == x;
        }
      }
      assert forall k :: 0 <= k < |keys| ==> keys[k] in keys;
      SameSetSameCounts(done, keys);
    } else {
      var x :| x in rest;
      assert x in keys && x !in done;
      assert multiset(keys)[x] > 0 && multiset(done)[x] == 0;
    }
  }

  lemma SameSetSameCounts(a: seq<Text>, b: seq<Text>)
    requires Distinct(a) && Distinct(b) && forall x :: x in a <==> x in b
    ensures multiset(a) == multiset(b)
  {
    DistinctCounts(a);
    DistinctCounts(b);
  }

  lemma RemainingCount(rest: map<Text, nat>, index: map<Text, nat>, done: seq<Text>, keys: seq<Text>)
    requires Remaining(rest, index, done) && Indexes(index, keys)
    ensures |rest| == |keys| - |done|
  {
    var all, used := set k | k in keys, set k | k in done;
    DistinctCard(keys);
    DistinctCard(done);
    assert used <= all && rest.Keys == all - used;
    assert |rest.Keys| == |all| - |used|;
  }

  lemma {:induction false} DistinctCard(s: seq<Text>)
    requires Distinct(s)
    ensures |set k | k in s| == |s|
    decreases |s|
  {
    if s == [] {
      assert (set k | k in s) == {};
    } else {
      var init, last := s[..|s| - 1], s[|s| - 1];
      assert s == init + [last];
      DistinctCard(init);
      assert (set k | k in s) == (set k | k in init) + {last};
    }
  }

  /** `ranksByStoredFields` succeeds exactly when the merged live keys are distinct and the
      original ones are a permutation of them; it then numbers the original's live
      documents by the merged documents with the same keys. */
  method RanksByStoredFields(orig: Reader, merged: Reader) returns (r: Outcome, ghost order: seq<Doc>)
    requires ValidReader(orig) && ValidReader(merged)
    ensures r.Matched? <==> Permuted(orig, merged)
    ensures r.Matched? ==>
              && Numbers(r.ranks, orig, order) && |order| == |LiveKeys(merged)|
              && forall k :: 0 <= k < |order| ==> KeyOf(orig, order[k]) == LiveKeys(merged)[k]
    ensures r.Matched? ==> forall o, d :: 0 <= o < |orig| && 0 <= d < orig[o].maxDoc ==>
              if orig[o].liveDocs == None || orig[o].liveDocs.value[d]
              then 0 <= r.ranks[o][d] < |LiveKeys(merged)| && LiveKeys(merged)[r.ranks[o][d]] == orig[o].keys[d]
              else r.ranks[o][d] == -1
    ensures r.TwoMergedAlike? <==> !Distinct(LiveKeys(merged))
    ensures r.MissingFromMerged? ==>
              && IsLive(orig, r.at)
              && multiset(LiveKeys(orig))[KeyOf(orig, r.at)] > multiset(LiveKeys(merged))[KeyOf(orig, r.at)]
    ensures r.NotInOriginal? ==> r.count == |LiveKeys(merged)| - |LiveKeys(orig)| > 0
  {
    hide LiveKeys, LeafKeys, Remaining, Indexes, RowByKey, Numbers, Distinct;
    order := [];
    var mergedKeys := ReadKeys(merged);
    var distinct, where := IndexKeys(mergedKeys);
    if !distinct {
      return TwoMergedAlike, order;
    }
    ghost var index := where;
    StartIndex(index, mergedKeys);
    var out: Ranks := [];
    EmptyKeys();
    for ord := 0 to |orig|
      invariant |out| == ord
      invariant forall o :: 0 <= o < ord ==>
                  |out[o]| == orig[o].maxDoc && RowByKey(out[o], orig[o], orig[o].maxDoc, index)
      invariant Remaining(where, index, LiveKeys(orig[..ord]))
    {
      var missing, row, rest := MatchLeaf(orig[ord], where, index, LiveKeys(orig[..ord]));
      if missing.Some? {
        MissingHasMore(orig, ord, missing.value, index, mergedKeys);
        return MissingFromMerged(Doc(ord, missing.value)), order;
      }
      where := rest;
      out := out + [row];
      NextKeys(orig, ord);
    }
    assert orig[..|orig|] == orig;
    PermutedWhenUsedUp(where, index, LiveKeys(orig), mergedKeys);
    if where != map[] {
      return NotInOriginal(|where|), order;
    }
    RemainingDistinct(where, index, LiveKeys(orig));
    LiveKeysAt(orig);
    TableNumbers(out, orig, mergedKeys, index);
    order := OrderByKey(orig, mergedKeys);
    NumbersOnData(out, orig, order);
    return Matched(out), order;
  }

  method ReadKeys(r: Reader) returns (keys: seq<Text>)
    requires ValidReader(r)
    ensures keys == LiveKeys(r)
  {
    var docs := Live(r);
    LiveKeysAt(r);
    keys := [];
    for i := 0 to |docs|
      invariant keys == LiveKeys(r)[..i]
    {
      keys := keys + [KeyOf(r, docs[i])];
    }
  }

  lemma StartIndex(index: map<Text, nat>, keys: seq<Text>)
    requires Indexes(index, keys)
    ensures Remaining(index, index, [])
  {
  }

  lemma EmptyKeys()
    ensures LiveKeys([]) == []
  {
  }

  lemma NextKeys(r: Reader, ord: nat)
    requires ValidReader(r) && ord < |r|
    ensures LiveKeys(r[..ord + 1]) == LiveKeys(r[..ord]) + LeafKeys(r[ord], r[ord].maxDoc)
  {
    assert r[..ord + 1][..ord] == r[..ord];
  }

  lemma RemainingDistinct(rest: map<Text, nat>, index: map<Text, nat>, done: seq<Text>)
    requires Remaining(rest, index, done)
    ensures Distinct(done)
  {
  }
}
