/** scripts/bench-gate.py: the verdict on one measurement and the loop that measures again
    what failed on timing alone. Ratios are real numbers; what a measuring pass answers is an
    input, one answer per pass. */
module BenchGate {
  import opened Common

  datatype Row = Row(ratio: real, recall: string)

  type Rows = map<string, Row>

  datatype Failure = RecallMismatch | SlowerThanLucene(ratio: real) | Regressed(base: real, ratio: real)

  datatype Limits = Limits(baseline: map<string, real>, regress: real)

  predicate Mismatch(recall: string) {
    recall == "mismatch"
  }

  /** `verdict`. */
  function Verdict(q: string, ratio: real, recall: string, l: Limits): (f: Option<Failure>) {
    if Mismatch(recall) then Some(RecallMismatch)
    else if ratio < 1.0 then Some(SlowerThanLucene(ratio))
    else if q in l.baseline && ratio < l.baseline[q] * (1.0 - l.regress) then Some(Regressed(l.baseline[q], ratio))
    else None
  }

  /** The ratio a query has to reach: Lucene's own speed, and its baseline less the allowance. */
  function Bar(q: string, l: Limits): (b: real) {
    if q in l.baseline && l.baseline[q] * (1.0 - l.regress) > 1.0 then l.baseline[q] * (1.0 - l.regress) else 1.0
  }

  lemma VerdictIsBar(q: string, ratio: real, recall: string, l: Limits)
    ensures Verdict(q, ratio, recall, l).None? <==> !Mismatch(recall) && ratio >= Bar(q, l)
    ensures Verdict(q, ratio, recall, l) == Some(RecallMismatch) <==> Mismatch(recall)
  {
    if q in l.baseline {
      var limit := l.baseline[q] * (1.0 - l.regress);
      assert ratio >= Bar(q, l) <==> ratio >= 1.0 && ratio >= limit;
    }
  }

  // ---------------------------------------------------------------------------
  // The measurements of one query
  // ---------------------------------------------------------------------------

  /** A run's inputs: the limits, the queries that have a line in the query file, the first
      pass, and the answer each further pass would give about every query. */
  datatype Run = Run(limits: Limits, listed: set<string>, first: Rows, later: seq<Rows>)

  predicate SlowRow(run: Run, q: string, row: Row) {
    !Mismatch(row.recall) && row.ratio < Bar(q, run.limits)
  }

  /** No measurement mismatched and none was fast enough. */
  predicate AllSlow(run: Run, q: string, h: seq<Row>) {
    forall k :: 0 <= k < |h| ==> SlowRow(run, q, h[k])
  }

  predicate SomeMismatch(h: seq<Row>) {
    exists k :: 0 <= k < |h| && Mismatch(h[k].recall)
  }

  /** The rule as the gate documents it: what q has been measured at after `a` further passes,
      when a query is measured again as long as every measurement of it failed on timing. */
  function History(run: Run, q: string, a: nat): (h: seq<Row>)
    requires a <= |run.later| && q in run.first
    ensures h != []
  {
    if a == 0 then [run.first[q]]
    else
      var h := History(run, q, a - 1);
      if AllSlow(run, q, h) && q in run.listed && q in run.later[a - 1] then h + [run.later[a - 1][q]] else h
  }

  /** Every measurement but the last failed on timing alone. */
  lemma {:induction false} NeverAfterPassOrMismatch(run: Run, q: string, a: nat)
    requires a <= |run.later| && q in run.first
    ensures var h := History(run, q, a); |h| <= 1 + a && AllSlow(run, q, h[..|h| - 1])
  {
    hide SlowRow;
    if a > 0 {
      NeverAfterPassOrMismatch(run, q, a - 1);
      var h, g := History(run, q, a - 1), History(run, q, a);
      assert g == h || g[..|g| - 1] == h;
    }
  }

  /** A listed query that every pass reports and that still fails on timing has used up all
      its passes. */
  lemma {:induction false} SlowUsesEveryPass(run: Run, q: string, a: nat)
    requires a <= |run.later| && q in run.first && q in run.listed
    requires forall k :: 0 <= k < a ==> q in run.later[k]
    requires AllSlow(run, q, History(run, q, a))
    ensures |History(run, q, a)| == 1 + a
    ensures forall k :: 0 <= k < a ==> History(run, q, a)[k + 1] == run.later[k][q]
  {
    hide SlowRow;
    if a > 0 {
      var h, g := History(run, q, a - 1), History(run, q, a);
      assert AllSlow(run, q, h) by {
        assert forall k :: 0 <= k < |h| ==> h[k] == g[k];
      }
      SlowUsesEveryPass(run, q, a - 1);
    }
  }

  /** Once nothing would be asked again, no later pass adds anything. */
  lemma {:induction false} SettledStays(run: Run, q: string, a: nat, b: nat)
    requires a <= b <= |run.later| && q in run.first
    requires !AllSlow(run, q, History(run, q, a))
    ensures History(run, q, b) == History(run, q, a)
  {
    hide AllSlow;
    if a < b {
      SettledStays(run, q, a, b - 1);
    }
  }

  // ---------------------------------------------------------------------------
  // The loop over the two dictionaries
  // ---------------------------------------------------------------------------

  /** What `best` and `recall` hold of one query: the best ratio it ever had, and a mismatch as
      soon as it ever had one. */
  ghost predicate Summarises(best: real, recall: string, h: seq<Row>) {
    && (exists k :: 0 <= k < |h| && best == h[k].ratio)
    && (forall k :: 0 <= k < |h| ==> h[k].ratio <= best)
    && (Mismatch(recall) <==> SomeMismatch(h))
  }

  /** The state after `a` further passes. */
  ghost predicate Tracks(run: Run, a: nat, best: map<string, real>, recall: map<string, string>)
    requires a <= |run.later|
  {
    && best.Keys == run.first.Keys && recall.Keys == run.first.Keys
    && forall q :: q in run.first ==> Summarises(best[q], recall[q], History(run, q, a))
  }

  /** Best ratio and mismatch flag decide what the whole history decides. */
  lemma SummaryDecides(run: Run, q: string, best: real, recall: string, h: seq<Row>)
    requires h != [] && Summarises(best, recall, h)
    ensures AllSlow(run, q, h) <==> !Mismatch(recall) && Verdict(q, best, recall, run.limits).Some?
    ensures Verdict(q, best, recall, run.limits).Some? <==> SomeMismatch(h) || AllSlow(run, q, h)
  {
    VerdictIsBar(q, best, recall, run.limits);
    hide Verdict, Bar;
    var k :| 0 <= k < |h| && best == h[k].ratio;
    if !Mismatch(recall) && best < Bar(q, run.limits) {
      assert forall j :: 0 <= j < |h| ==> SlowRow(run, q, h[j]);
    }
    assert AllSlow(run, q, h) ==> SlowRow(run, q, h[k]);
  }

  function Max(x: real, y: real): real {
    if x >= y then x else y
  }

  lemma SummaryGrows(best: real, recall: string, h: seq<Row>, row: Row)
    requires Summarises(best, recall, h)
    ensures Summarises(Max(best, row.ratio), if Mismatch(row.recall) then "mismatch" else recall, h + [row])
  {
    var g := h + [row];
    assert g[|h|] == row && forall k :: 0 <= k < |h| ==> g[k] == h[k];
    assert SomeMismatch(g) <==> SomeMismatch(h) || Mismatch(row.recall) by {
      if SomeMismatch(h) {
        var k :| 0 <= k < |h| && Mismatch(h[k].recall);
        assert Mismatch(g[k].recall);
      }
    }
    if best >= row.ratio {
      var k :| 0 <= k < |h| && best == h[k].ratio;
      assert g[k].ratio == best;
    } else {
      assert g[|h|].ratio == row.ratio;
    }
  }

  /** The rows of one pass over the asked queries. */
  function Answer(rows: Rows, asked: set<string>): (r: Rows)
    ensures r.Keys == rows.Keys * asked
  {
    map q | q in rows && q in asked :: rows[q]
  }

  /** The queries to measure again. */
  function Again(run: Run, best: map<string, real>, recall: map<string, string>): (again: set<string>)
    requires best.Keys == recall.Keys
  {
    set q | q in best && !Mismatch(recall[q]) && Verdict(q, best[q], recall[q], run.limits).Some?
  }

  lemma AgainIsAllSlow(run: Run, a: nat, best: map<string, real>, recall: map<string, string>)
    requires a <= |run.later| && Tracks(run, a, best, recall)
    ensures forall q :: q in Again(run, best, recall) <==> q in run.first && AllSlow(run, q, History(run, q, a))
  {
    hide Verdict, AllSlow, Summarises, History;
    forall q | q in run.first
      ensures q in Again(run, best, recall) <==> AllSlow(run, q, History(run, q, a))
    {
      SummaryDecides(run, q, best[q], recall[q], History(run, q, a));
    }
  }

  /** The loop over the rows of one pass, in any order. */
  method Absorb(rows: Rows, best: map<string, real>, recall: map<string, string>)
    returns (best': map<string, real>, recall': map<string, string>)
    requires best.Keys == recall.Keys && rows.Keys <= best.Keys
    ensures best'.Keys == recall'.Keys == best.Keys
    ensures forall q :: q in best && q !in rows ==> best'[q] == best[q] && recall'[q] == recall[q]
    ensures forall q :: q in rows ==>
              && best'[q] == Max(best[q], rows[q].ratio)
              && recall'[q] == if Mismatch(rows[q].recall) then "mismatch" else recall[q]
  {
    best', recall' := best, recall;
    var left := rows.Keys;
    while left != {}
      invariant left <= rows.Keys && best'.Keys == recall'.Keys == best.Keys
      invariant forall q :: q in best && (q !in rows || q in left) ==> best'[q] == best[q] && recall'[q] == recall[q]
      invariant forall q :: q in rows && q !in left ==>
                  && best'[q] == Max(best[q], rows[q].ratio)
                  && recall'[q] == if Mismatch(rows[q].recall) then "mismatch" else recall[q]
    {
      var q :| q in left;
      best' := best'[q := Max(best'[q], rows[q].ratio)];
      if Mismatch(rows[q].recall) {
        recall' := recall'[q := "mismatch"];
      }
      left := left - {q};
    }
  }

  lemma Advance(
    run: Run, a: nat, best: map<string, real>, recall: map<string, string>,
    rows: Rows, best': map<string, real>, recall': map<string, string>)
    requires a < |run.later| && Tracks(run, a, best, recall)
    requires rows == Answer(run.later[a], Again(run, best, recall) * run.listed)
    requires best'.Keys == recall'.Keys == best.Keys
    requires forall q :: q in best && q !in rows ==> best'[q] == best[q] && recall'[q] == recall[q]
    requires forall q :: q in rows ==>
               && q in best && best'[q] == Max(best[q], rows[q].ratio)
               && recall'[q] == if Mismatch(rows[q].recall) then "mismatch" else recall[q]
    ensures Tracks(run, a + 1, best', recall')
  {
    hide Again, AllSlow, Summarises, Max, Mismatch;
    AgainIsAllSlow(run, a, best, recall);
    forall q | q in run.first
      ensures Summarises(best'[q], recall'[q], History(run, q, a + 1))
    {
      var h := History(run, q, a);
      if q in rows {
        SummaryGrows(best[q], recall[q], h, rows[q]);
        assert History(run, q, a + 1) == h + [rows[q]];
      } else {
        assert History(run, q, a + 1) == h;
      }
    }
  }

  /** The retry loop. `again` is the list of each retry, which names exactly the queries that
      have only been slow so far; it stops early only when no query is left to retry. */
  method Retry(run: Run, retries: nat, best0: map<string, real>, recall0: map<string, string>)
    returns (best: map<string, real>, recall: map<string, string>, again: seq<set<string>>)
    requires retries <= |run.later| && Tracks(run, 0, best0, recall0)
    ensures Tracks(run, retries, best, recall)
    ensures |again| <= retries && forall a, q :: 0 <= a < |again| ==>
              (q in again[a] <==> q in run.first && AllSlow(run, q, History(run, q, a)))
    ensures |again| < retries ==> forall q :: q in run.first ==> !AllSlow(run, q, History(run, q, retries))
  {
    hide Verdict, AllSlow, History, Again, Summarises;
    best, recall, again := best0, recall0, [];
    while |again| < retries
      invariant |again| <= retries
      invariant Tracks(run, |again|, best, recall)
      invariant forall a, q :: 0 <= a < |again| ==>
                  (q in again[a] <==> q in run.first && AllSlow(run, q, History(run, q, a)))
    {
      var asked := Again(run, best, recall);
      AgainIsAllSlow(run, |again|, best, recall);
      if asked == {} {
        Settled(run, |again|, retries, best, recall);
        return;
      }
      var rows := Answer(run.later[|again|], asked * run.listed);
      var best', recall' := Absorb(rows, best, recall);
      Advance(run, |again|, best, recall, rows, best', recall');
      best, recall, again := best', recall', again + [asked];
    }
  }

  /** The first pass, the retries and the final verdicts: a query ends as a failure exactly
      when one of its measurements mismatched or all of them failed on timing. */
  method Gate(run: Run, retries: nat) returns (failures: map<string, Failure>, again: seq<set<string>>)
    requires retries <= |run.later|
    ensures forall q :: q in failures <==>
              q in run.first && (SomeMismatch(History(run, q, retries)) || AllSlow(run, q, History(run, q, retries)))
    ensures forall q :: q in failures ==> Explains(run, q, History(run, q, retries), failures[q])
    ensures |again| <= retries && forall a, q :: 0 <= a < |again| ==>
              (q in again[a] <==> q in run.first && AllSlow(run, q, History(run, q, a)))
    ensures |again| < retries ==> forall q :: q in run.first ==> !AllSlow(run, q, History(run, q, retries))
  {
    hide Verdict, AllSlow, SomeMismatch, History, Summarises, Explains;
    var best := map q | q in run.first :: run.first[q].ratio;
    var recall := map q | q in run.first :: run.first[q].recall;
    FirstTracks(run, best, recall);
    best, recall, again := Retry(run, retries, best, recall);
    forall q | q in run.first
      ensures Verdict(q, best[q], recall[q], run.limits).Some? <==>
              SomeMismatch(History(run, q, retries)) || AllSlow(run, q, History(run, q, retries))
      ensures Verdict(q, best[q], recall[q], run.limits).Some? ==>
                Explains(run, q, History(run, q, retries), Verdict(q, best[q], recall[q], run.limits).value)
    {
      FinalVerdict(run, q, best[q], recall[q], History(run, q, retries));
    }
    failures := map q | q in best && Verdict(q, best[q], recall[q], run.limits).Some? ::
      Verdict(q, best[q], recall[q], run.limits).value;
  }

  /** The reason given for a failure: a mismatch if there was one, else the best ratio q ever
      had, as slower than Lucene when it is, and as a regression otherwise. */
  ghost predicate Explains(run: Run, q: string, h: seq<Row>, f: Failure) {
    if SomeMismatch(h) then f == RecallMismatch
    else exists k :: 0 <= k < |h| && (forall j :: 0 <= j < |h| ==> h[j].ratio <= h[k].ratio) &&
                     if h[k].ratio < 1.0 then f == SlowerThanLucene(h[k].ratio)
                     else q in run.limits.baseline && f == Regressed(run.limits.baseline[q], h[k].ratio)
  }

  lemma FinalVerdict(run: Run, q: string, best: real, recall: string, h: seq<Row>)
    requires h != [] && Summarises(best, recall, h)
    ensures Verdict(q, best, recall, run.limits).Some? <==> SomeMismatch(h) || AllSlow(run, q, h)
    ensures Verdict(q, best, recall, run.limits).Some? ==>
              Explains(run, q, h, Verdict(q, best, recall, run.limits).value)
  {
    SummaryDecides(run, q, best, recall, h);
    VerdictIsBar(q, best, recall, run.limits);
  }

  lemma FirstTracks(run: Run, best: map<string, real>, recall: map<string, string>)
    requires best == map q | q in run.first :: run.first[q].ratio
    requires recall == map q | q in run.first :: run.first[q].recall
    ensures Tracks(run, 0, best, recall)
  {
    forall q | q in run.first
      ensures Summarises(best[q], recall[q], History(run, q, 0))
    {
      assert History(run, q, 0)[0] == run.first[q];
    }
  }

  lemma Settled(run: Run, a: nat, b: nat, best: map<string, real>, recall: map<string, string>)
    requires a <= b <= |run.later| && Tracks(run, a, best, recall)
    requires forall q :: q in run.first ==> !AllSlow(run, q, History(run, q, a))
    ensures Tracks(run, b, best, recall)
    ensures forall q :: q in run.first ==> !AllSlow(run, q, History(run, q, b))
  {
    hide AllSlow, History, Summarises;
    forall q | q in run.first
      ensures History(run, q, b) == History(run, q, a)
    {
      SettledStays(run, q, a, b);
    }
  }
}
