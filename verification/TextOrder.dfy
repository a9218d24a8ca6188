/** Byte strings in dictionary order, as Java's `TreeSet<BytesRef>` and `List.sort(null)`
    on ASCII strings keep them. */
module TextOrder {
  import opened VarInt

  type Text = seq<Byte>

  predicate Less(a: Text, b: Text) {
    b != [] && (a == [] || a[0] < b[0] || (a[0] == b[0] && Less(a[1..], b[1..])))
  }

  /** A proper prefix, or the smaller byte, unsigned, where the texts first differ. */
  lemma {:induction false} LessExact(a: Text, b: Text)
    ensures Less(a, b) <==>
            || (|a| < |b| && a == b[..|a|])
            || exists k :: 0 <= k < |a| && k < |b| && a[..k] == b[..k] && a[k] < b[k]
    decreases |a|
  {
    if a != [] && b != [] {
      var x, y := a[1..], b[1..];
      LessExact(x, y);
      if a[0] == b[0] {
        assert forall k :: 1 <= k <= |a| && k <= |b| ==> (a[..k] == b[..k] <==> x[..k - 1] == y[..k - 1]) by {
          assert forall k :: 1 <= k <= |a| ==> a[..k] == [a[0]] + x[..k - 1];
          assert forall k :: 1 <= k <= |b| ==> b[..k] == [b[0]] + y[..k - 1];
          assert forall k :: 1 <= k <= |a| ==> a[..k][1..] == x[..k - 1];
          assert forall k :: 1 <= k <= |b| ==> b[..k][1..] == y[..k - 1];
        }
        if k :| 0 <= k < |x| && k < |y| && x[..k] == y[..k] && x[k] < y[k] {
          assert a[k + 1] < b[k + 1] && a[..k + 1] == b[..k + 1];
        }
      } else if a[0] < b[0] {
        assert a[..0] == b[..0];
      }
    }
  }

  lemma {:induction false} LessIrreflexive(a: Text)
    ensures !Less(a, a)
    decreases |a|
  {
    if a != [] {
      LessIrreflexive(a[1..]);
    }
  }

  lemma {:induction false} LessTransitive(a: Text, b: Text, c: Text)
    requires Less(a, b) && Less(b, c)
    ensures Less(a, c)
    decreases |a|
  {
    if a != [] && a[0] == b[0] == c[0] {
      LessTransitive(a[1..], b[1..], c[1..]);
    }
  }

  lemma {:induction false} LessTotal(a: Text, b: Text)
    ensures Less(a, b) || a == b || Less(b, a)
    decreases |a|
  {
    if a != [] && b != [] && a[0] == b[0] {
      LessTotal(a[1..], b[1..]);
      assert a == [a[0]] + a[1..] && b == [b[0]] + b[1..];
    }
  }

  /** Different texts of equal length decide before anything that follows them. */
  lemma {:induction false} LessByPrefix(a: Text, b: Text, x: Text, y: Text)
    requires |a| == |b| && Less(a, b)
    ensures Less(a + x, b + y)
    decreases |a|
  {
    assert a != [];
    assert (a + x)[1..] == a[1..] + x && (b + y)[1..] == b[1..] + y;
    if a[0] == b[0] {
      LessByPrefix(a[1..], b[1..], x, y);
    }
  }

  lemma {:induction false} LessAfterPrefix(p: Text, a: Text, b: Text)
    requires Less(a, b)
    ensures Less(p + a, p + b)
    decreases |p|
  {
    if p == [] {
      assert p + a == a && p + b == b;
    } else {
      assert (p + a)[1..] == p[1..] + a && (p + b)[1..] == p[1..] + b;
      LessAfterPrefix(p[1..], a, b);
    }
  }

  // ---------------------------------------------------------------------------
  // Strictly ascending sequences
  // ---------------------------------------------------------------------------

  ghost predicate Ascending(s: seq<Text>) {
    forall i, j :: 0 <= i < j < |s| ==> Less(s[i], s[j])
  }

  /** An ascending sequence is determined by what it contains. */
  lemma {:induction false} AscendingUnique(s: seq<Text>, t: seq<Text>)
    requires Ascending(s) && Ascending(t)
    requires forall x :: x in s <==> x in t
    ensures s == t
    decreases |s|
  {
    assert t != [] ==> t[0] in t;
    if s != [] {
      assert s[0] in s;
      SameHead(s, t);
      forall x
        ensures x in s[1..] <==> x in t[1..]
      {
        TailMembers(s, x);
        TailMembers(t, x);
      }
      AscendingUnique(s[1..], t[1..]);
    }
  }

  lemma SameHead(s: seq<Text>, t: seq<Text>)
    requires Ascending(s) && Ascending(t) && s != [] && t != []
    requires forall x :: x in s <==> x in t
    ensures s[0] == t[0]
  {
    assert s[0] in t && t[0] in s;
    if s[0] != t[0] {
      assert Less(s[0], t[0]) && Less(t[0], s[0]);
      LessTransitive(s[0], t[0], s[0]);
      LessIrreflexive(s[0]);
    }
  }

  lemma TailMembers(s: seq<Text>, x: Text)
    requires Ascending(s) && s != []
    ensures x in s[1..] <==> x in s && x != s[0]
  {
    assert s == [s[0]] + s[1..];
    if x in s[1..] && x == s[0] {
      LessIrreflexive(x);
    }
  }

  /** `TreeSet.add` on the set's ascending sequence. */
  function Add(s: seq<Text>, x: Text): (r: seq<Text>) {
    if s == [] then [x]
    else if x == s[0] then s
    else if Less(x, s[0]) then [x] + s
    else [s[0]] + Add(s[1..], x)
  }

  lemma {:induction false} AddMembers(s: seq<Text>, x: Text)
    requires Ascending(s)
    ensures Ascending(Add(s, x))
    ensures forall y :: y in Add(s, x) <==> y in s || y == x
    decreases |s|
  {
    if s != [] && x != s[0] {
      if Less(x, s[0]) {
        forall j | 0 < j < |s|
          ensures Less(x, s[j])
        {
          LessTransitive(x, s[0], s[j]);
        }
      } else {
        LessTotal(x, s[0]);
        AddMembers(s[1..], x);
        var rest := Add(s[1..], x);
        forall j | 0 <= j < |rest|
          ensures Less(s[0], rest[j])
        {
          assert rest[j] in rest;
        }
        assert s == [s[0]] + s[1..];
      }
    }
  }

  // ---------------------------------------------------------------------------
  // Sorting
  // ---------------------------------------------------------------------------

  function Insert(s: seq<Text>, x: Text): (r: seq<Text>)
    ensures |r| == |s| + 1
  {
    if s == [] || !Less(s[0], x) then [x] + s else [s[0]] + Insert(s[1..], x)
  }

  /** `one.sort(null)` */
  function Sort(s: seq<Text>): (r: seq<Text>)
    ensures |r| == |s|
  {
    if s == [] then [] else Insert(Sort(s[..|s| - 1]), s[|s| - 1])
  }

  lemma {:induction false} InsertAscending(s: seq<Text>, x: Text)
    requires Ascending(s) && x !in s
    ensures Ascending(Insert(s, x))
    ensures forall y :: y in Insert(s, x) <==> y in s || y == x
    decreases |s|
  {
    if s != [] {
      LessTotal(x, s[0]);
      if Less(s[0], x) {
        InsertAscending(s[1..], x);
        var rest := Insert(s[1..], x);
        forall j | 0 <= j < |rest|
          ensures Less(s[0], rest[j])
        {
          assert rest[j] in rest;
        }
        assert s == [s[0]] + s[1..];
      } else {
        forall j | 0 < j < |s|
          ensures Less(x, s[j])
        {
          LessTransitive(x, s[0], s[j]);
        }
      }
    }
  }

  ghost predicate Distinct(s: seq<Text>) {
    forall i, j :: 0 <= i < j < |s| ==> s[i] != s[j]
  }

  /** Sorting distinct texts gives the ascending sequence of the same texts. */
  lemma {:induction false} SortAscending(s: seq<Text>)
    requires Distinct(s)
    ensures Ascending(Sort(s))
    ensures forall y :: y in Sort(s) <==> y in s
    decreases |s|
  {
    if s != [] {
      var init, last := s[..|s| - 1], s[|s| - 1];
      SortAscending(init);
      assert s == init + [last];
      InsertAscending(Sort(init), last);
    }
  }
}
