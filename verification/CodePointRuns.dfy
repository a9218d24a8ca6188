/** The run-length table of `writeCodePointFixtures` in fixtures/src/GenAnalysisCommon.java:
    consecutive code points with the same result become one run; surrogates and the code
    points whose result depends on the JDK are skipped. */
module CodePointRuns {
  import opened Common

  const MAX_CODE_POINT: nat := 0x10_FFFF

  datatype Run = Run(first: nat, last: nat, result: string)

  /** `JDK21_JDK25_DIFFER`: bounds of the ranges that differ, in pairs. */
  ghost predicate ValidTable(table: seq<nat>) {
    |table| % 2 == 0
  }

  ghost predicate InTable(table: seq<nat>, cp: nat) {
    exists i :: 0 <= i < |table| / 2 && InPair(table, i, cp)
  }

  predicate InPair(table: seq<nat>, i: nat, cp: nat)
    requires 2 * i + 1 < |table|
  {
    table[2 * i] <= cp <= table[2 * i + 1]
  }

  /** `jdkDependent` */
  method JdkDependent(table: seq<nat>, cp: nat) returns (yes: bool)
    requires ValidTable(table)
    ensures yes <==> InTable(table, cp)
  {
    var i := 0;
    while i < |table|
      invariant 0 <= i <= |table| && i % 2 == 0
      invariant forall k :: 0 <= k < i / 2 ==> !InPair(table, k, cp)
    {
      if cp >= table[i] && cp <= table[i + 1] {
        assert InPair(table, i / 2, cp);
        return true;
      }
      assert !InPair(table, i / 2, cp);
      i := i + 2;
    }
    return false;
  }

  /** The code points a table covers. */
  ghost predicate Recorded(table: seq<nat>, cp: nat) {
    cp <= MAX_CODE_POINT && !(0xD800 <= cp <= 0xDFFF) && !InTable(table, cp)
  }

  predicate Covers(r: Run, cp: nat) {
    r.first <= cp <= r.last
  }

  /** A run holds recorded code points only, all with its result. */
  ghost predicate Faithful(r: Run, table: seq<nat>, result: nat -> string) {
    r.first <= r.last && forall cp: nat :: Covers(r, cp) ==> Recorded(table, cp) && result(cp) == r.result
  }

  /** Runs ascend, and where two touch, their results differ. */
  ghost predicate Separate(a: Run, b: Run) {
    a.last < b.first && (a.last + 1 == b.first ==> a.result != b.result)
  }

  ghost predicate Ascending(runs: seq<Run>) {
    forall i, j :: 0 <= i < j < |runs| ==> runs[i].last < runs[j].first
  }

  /** The table of a function: sound, complete up to `limit`, ordered and with maximal runs. */
  ghost predicate Encodes(runs: seq<Run>, table: seq<nat>, result: nat -> string, limit: nat) {
    && (forall i :: 0 <= i < |runs| ==> Faithful(runs[i], table, result) && runs[i].last < limit)
    && (forall i :: 0 < i < |runs| ==> Separate(runs[i - 1], runs[i]))
    && (forall cp: nat :: cp < limit && Recorded(table, cp) ==> InSome(runs, cp))
  }

  ghost predicate InSome(runs: seq<Run>, cp: nat) {
    exists i :: 0 <= i < |runs| && Covers(runs[i], cp)
  }

  /** The runs emitted so far, with the open one behind them. */
  function WithOpen(runs: seq<Run>, open: Option<Run>): seq<Run> {
    if open.None? then runs else runs + [open.value]
  }

  /** The loop of `writeCodePointFixtures` for one chain. */
  method EmitRuns(table: seq<nat>, result: nat -> string) returns (runs: seq<Run>)
    requires ValidTable(table)
    ensures Encodes(runs, table, result, MAX_CODE_POINT + 1)
  {
    hide Encodes, Recorded, InTable;
    runs := [];
    var open: Option<Run> := None;
    NothingYet(table, result);
    for cp := 0 to MAX_CODE_POINT + 2
      invariant Encodes(WithOpen(runs, open), table, result, cp)
      invariant open.Some? ==> open.value.last == cp - 1
      invariant open.None? && runs != [] ==> runs[|runs| - 1].last < cp - 1
      invariant cp == MAX_CODE_POINT + 2 ==> open.None?
    {
      var depends := JdkDependent(table, cp);
      var skip := cp > MAX_CODE_POINT || (0xD800 <= cp <= 0xDFFF) || depends;
      SkipIsUnrecorded(table, cp, depends);
      if open.Some? && (skip || result(cp) != open.value.result || cp != open.value.last + 1) {
        runs := runs + [open.value];
        open := None;
      }
      if !skip {
        if open.None? {
          NewRun(runs, table, result, cp);
          open := Some(Run(cp, cp, result(cp)));
        } else {
          LongerRun(runs, open.value, table, result, cp);
          open := Some(open.value.(last := cp));
        }
      } else {
        SkipOne(runs, table, result, cp);
      }
    }
    LastSkipped(runs, table, result);
  }

  lemma NothingYet(table: seq<nat>, result: nat -> string)
    ensures Encodes([], table, result, 0)
  {
  }

  lemma SkipIsUnrecorded(table: seq<nat>, cp: nat, depends: bool)
    requires depends <==> InTable(table, cp)
    ensures (cp > MAX_CODE_POINT || (0xD800 <= cp <= 0xDFFF) || depends) <==> !Recorded(table, cp)
  {
  }

  lemma NewRun(runs: seq<Run>, table: seq<nat>, result: nat -> string, cp: nat)
    requires Encodes(runs, table, result, cp) && Recorded(table, cp)
    requires runs != [] && runs[|runs| - 1].last == cp - 1 ==> runs[|runs| - 1].result != result(cp)
    ensures Encodes(runs + [Run(cp, cp, result(cp))], table, result, cp + 1)
  {
    hide Recorded;
    var all := runs + [Run(cp, cp, result(cp))];
    forall x: nat | x < cp + 1 && Recorded(table, x)
      ensures InSome(all, x)
    {
      if x < cp {
        var i :| 0 <= i < |runs| && Covers(runs[i], x);
        assert Covers(all[i], x);
      } else {
        assert Covers(all[|runs|], x);
      }
    }
    assert Faithful(all[|runs|], table, result);
  }

  lemma LongerRun(runs: seq<Run>, open: Run, table: seq<nat>, result: nat -> string, cp: nat)
    requires Encodes(runs + [open], table, result, cp) && Recorded(table, cp)
    requires open.last == cp - 1 && open.result == result(cp)
    ensures Encodes(runs + [open.(last := cp)], table, result, cp + 1)
  {
    hide Recorded;
    var before, all := runs + [open], runs + [open.(last := cp)];
    assert Faithful(before[|runs|], table, result);
    forall c: nat | Covers(all[|runs|], c)
      ensures Recorded(table, c) && result(c) == open.result
    {
      assert c < cp ==> Covers(before[|runs|], c);
    }
    forall i | 0 <= i < |all|
      ensures Faithful(all[i], table, result) && all[i].last < cp + 1
    {
      assert i < |runs| ==> all[i] == before[i];
    }
    forall i | 0 < i < |all|
      ensures Separate(all[i - 1], all[i])
    {
      assert Separate(before[i - 1], before[i]);
    }
    forall x: nat | x < cp + 1 && Recorded(table, x)
      ensures InSome(all, x)
    {
      if x < cp {
        var i :| 0 <= i < |before| && Covers(before[i], x);
        assert Covers(all[i], x);
      } else {
        assert Covers(all[|runs|], x);
      }
    }
  }

  lemma SkipOne(runs: seq<Run>, table: seq<nat>, result: nat -> string, cp: nat)
    requires Encodes(runs, table, result, cp) && !Recorded(table, cp)
    ensures Encodes(runs, table, result, cp + 1)
  {
    hide Recorded;
  }

  lemma LastSkipped(runs: seq<Run>, table: seq<nat>, result: nat -> string)
    requires Encodes(runs, table, result, MAX_CODE_POINT + 2)
    ensures Encodes(runs, table, result, MAX_CODE_POINT + 1)
  {
    forall i | 0 <= i < |runs|
      ensures runs[i].last < MAX_CODE_POINT + 1
    {
      assert Faithful(runs[i], table, result) && Covers(runs[i], runs[i].last);
    }
  }

  // ---------------------------------------------------------------------------
  // Lossless
  // ---------------------------------------------------------------------------

  lemma {:induction false} EncodedAscends(
    runs: seq<Run>, table: seq<nat>, result: nat -> string, limit: nat, i: nat, j: nat)
    requires Encodes(runs, table, result, limit) && i < j < |runs|
    ensures runs[i].last < runs[j].first
    decreases j
  {
    assert Separate(runs[j - 1], runs[j]) && Faithful(runs[j - 1], table, result);
    if i < j - 1 {
      EncodedAscends(runs, table, result, limit, i, j - 1);
    }
  }

  /** Every recorded code point lies in exactly one run, which carries its result; every
      other one lies in none. */
  lemma ExactlyOneRun(runs: seq<Run>, table: seq<nat>, result: nat -> string, cp: nat)
    requires Encodes(runs, table, result, MAX_CODE_POINT + 1)
    ensures Recorded(table, cp) <==> InSome(runs, cp)
    ensures (exists i :: 0 <= i < |runs| && runs[i].first <= cp <= runs[i].last) <==>
            && cp <= 0x10_FFFF && !(0xD800 <= cp <= 0xDFFF)
            && forall k :: 0 <= k < |table| - 1 && k % 2 == 0 ==> !(table[k] <= cp <= table[k + 1])
    ensures forall i :: 0 <= i < |runs| && Covers(runs[i], cp) ==> runs[i].result == result(cp)
    ensures forall i, j :: 0 <= i < j < |runs| ==> !(Covers(runs[i], cp) && Covers(runs[j], cp))
  {
    forall i | 0 <= i < |runs| && Covers(runs[i], cp)
      ensures runs[i].result == result(cp) && Recorded(table, cp)
    {
      assert Faithful(runs[i], table, result);
    }
    forall i, j | 0 <= i < j < |runs|
      ensures !(Covers(runs[i], cp) && Covers(runs[j], cp))
    {
      EncodedAscends(runs, table, result, MAX_CODE_POINT + 1, i, j);
    }
    InTableExact(table, cp);
    assert InSome(runs, cp) <==> exists i :: 0 <= i < |runs| && runs[i].first <= cp <= runs[i].last;
  }

  lemma InTableExact(table: seq<nat>, cp: nat)
    ensures InTable(table, cp) <==> exists k :: 0 <= k < |table| - 1 && k % 2 == 0 && table[k] <= cp <= table[k + 1]
  {
    if InTable(table, cp) {
      var i :| 0 <= i < |table| / 2 && InPair(table, i, cp);
      assert table[2 * i] <= cp <= table[2 * i + 1];
    }
    if k :| 0 <= k < |table| - 1 && k % 2 == 0 && table[k] <= cp <= table[k + 1] {
      assert InPair(table, k / 2, cp);
    }
  }

  /** Equal tables mean equal results: two chains share a table exactly when they agree on
      every recorded code point. */
  lemma SameTableSameResults(
    runs: seq<Run>, other: seq<Run>, table: seq<nat>, result: nat -> string, result': nat -> string)
    requires Encodes(runs, table, result, MAX_CODE_POINT + 1) && Encodes(other, table, result', MAX_CODE_POINT + 1)
    ensures runs == other <==> forall cp: nat :: Recorded(table, cp) ==> result(cp) == result'(cp)
  {
    if runs == other {
      forall cp: nat | Recorded(table, cp)
        ensures result(cp) == result'(cp)
      {
        var i :| 0 <= i < |runs| && Covers(runs[i], cp);
        assert Faithful(runs[i], table, result) && Faithful(other[i], table, result');
      }
    }
    if forall cp: nat :: Recorded(table, cp) ==> result(cp) == result'(cp) {
      EncodesTransfers(other, table, result', result);
      RunsUnique(runs, other, table, result, |runs|);
      RunsUnique(other, runs, table, result, |other|);
      assert runs == other[..|runs|] && other == runs[..|other|];
    }
  }

  lemma EncodesTransfers(runs: seq<Run>, table: seq<nat>, result: nat -> string, result': nat -> string)
    requires Encodes(runs, table, result, MAX_CODE_POINT + 1)
    requires forall cp: nat :: Recorded(table, cp) ==> result(cp) == result'(cp)
    ensures Encodes(runs, table, result', MAX_CODE_POINT + 1)
  {
    hide Recorded;
    forall i | 0 <= i < |runs|
      ensures Faithful(runs[i], table, result')
    {
      assert Faithful(runs[i], table, result);
    }
  }

  /** The first n runs of one table are the first n of any other for the same function. */
  lemma {:induction false} RunsUnique(a: seq<Run>, b: seq<Run>, table: seq<nat>, result: nat -> string, n: nat)
    requires Encodes(a, table, result, MAX_CODE_POINT + 1) && Encodes(b, table, result, MAX_CODE_POINT + 1)
    requires n <= |a|
    ensures n <= |b| && a[..n] == b[..n]
    decreases n
  {
    hide Recorded;
    if n > 0 {
      var k := n - 1;
      RunsUnique(a, b, table, result, k);
      NextRunStarts(a, b, table, result, k);
      SameEnd(a, b, table, result, k);
      SameEnd(b, a, table, result, k);
      assert Faithful(a[k], table, result) && Faithful(b[k], table, result);
      assert Covers(a[k], a[k].first) && Covers(b[k], b[k].first);
      assert a[..n] == a[..k] + [a[k]] && b[..n] == b[..k] + [b[k]];
    }
  }

  /** With the earlier runs equal, the next run of b exists and starts where that of a does. */
  lemma NextRunStarts(a: seq<Run>, b: seq<Run>, table: seq<nat>, result: nat -> string, k: nat)
    requires Encodes(a, table, result, MAX_CODE_POINT + 1) && Encodes(b, table, result, MAX_CODE_POINT + 1)
    requires k < |a| && k <= |b| && a[..k] == b[..k]
    ensures k < |b| && a[k].first == b[k].first
  {
    hide Recorded;
    var i := FirstAtOrAfter(a, b, table, result, k);
    if a[k].first != b[k].first {
      var j := FirstAtOrAfter(b, a, table, result, k);
    }
  }

  /** The start of a's run k lies in a run of b that is not one of the first k. */
  lemma FirstAtOrAfter(a: seq<Run>, b: seq<Run>, table: seq<nat>, result: nat -> string, k: nat) returns (i: nat)
    requires Encodes(a, table, result, MAX_CODE_POINT + 1) && Encodes(b, table, result, MAX_CODE_POINT + 1)
    requires k < |a| && k <= |b| && a[..k] == b[..k]
    ensures k <= i < |b| && Covers(b[i], a[k].first) && b[k].first <= a[k].first
  {
    hide Recorded;
    var cp := a[k].first;
    assert Faithful(a[k], table, result) && Covers(a[k], cp);
    ExactlyOneRun(a, table, result, cp);
    ExactlyOneRun(b, table, result, cp);
    forall j | 0 <= j < k
      ensures !Covers(b[j], cp)
    {
      assert a[..k][j] == b[..k][j];
      EncodedAscends(a, table, result, MAX_CODE_POINT + 1, j, k);
    }
    i :| 0 <= i < |b| && Covers(b[i], cp);
    assert Faithful(b[k], table, result);
    if k < i {
      EncodedAscends(b, table, result, MAX_CODE_POINT + 1, k, i);
    }
  }

  /** The run after run k starts right behind it when the next code point is recorded. */
  lemma NextIsCovered(a: seq<Run>, table: seq<nat>, result: nat -> string, k: nat)
    requires Encodes(a, table, result, MAX_CODE_POINT + 1) && k < |a| && InSome(a, a[k].last + 1)
    ensures k + 1 < |a| && Covers(a[k + 1], a[k].last + 1)
  {
    hide Recorded;
    var cp := a[k].last + 1;
    assert Faithful(a[k], table, result);
    forall j | 0 <= j <= k
      ensures !Covers(a[j], cp)
    {
      if j < k {
        EncodedAscends(a, table, result, MAX_CODE_POINT + 1, j, k);
      }
    }
    var i :| 0 <= i < |a| && Covers(a[i], cp);
    assert Faithful(a[k + 1], table, result);
    EncodedAscends(a, table, result, MAX_CODE_POINT + 1, k, k + 1);
    if i > k + 1 {
      EncodedAscends(a, table, result, MAX_CODE_POINT + 1, k + 1, i);
    }
  }

  /** Runs that start together end together: a shorter one could have gone on. */
  lemma SameEnd(a: seq<Run>, b: seq<Run>, table: seq<nat>, result: nat -> string, k: nat)
    requires Encodes(a, table, result, MAX_CODE_POINT + 1) && Encodes(b, table, result, MAX_CODE_POINT + 1)
    requires k < |a| && k < |b| && a[k].first == b[k].first
    ensures a[k].last >= b[k].last
  {
    hide Recorded;
    var cp := a[k].last + 1;
    assert Faithful(a[k], table, result) && Covers(a[k], a[k].first);
    assert Faithful(b[k], table, result) && Covers(b[k], b[k].first);
    ExactlyOneRun(a, table, result, cp);
    if Covers(b[k], cp) {
      NextIsCovered(a, table, result, k);
      NextDiffers(a, table, result, k);
      assert false;
    }
  }

  lemma NextDiffers(a: seq<Run>, table: seq<nat>, result: nat -> string, k: nat)
    requires Encodes(a, table, result, MAX_CODE_POINT + 1)
    requires k + 1 < |a| && Covers(a[k + 1], a[k].last + 1)
    ensures result(a[k].last + 1) != a[k].result
  {
    hide Recorded;
    assert Separate(a[k], a[k + 1]) && Faithful(a[k + 1], table, result);
  }
}
