/** Finding the most recent evaluation of a library by comparing the `date`
    strings with JavaScript's `<`. */
module Recency {
  import opened Wrappers
  import opened JsString
  import opened Catalog

  /** `k` is the first position holding a latest date: no date is later than
      the one at `k`, and every date before `k` is strictly earlier. */
  ghost predicate IsFirstLatest(evals: seq<Evaluation>, k: int) {
    && 0 <= k < |evals|
    && (forall j :: 0 <= j < |evals| ==> !Less(evals[k].date, evals[j].date))
    && (forall j :: 0 <= j < k ==> Less(evals[j].date, evals[k].date))
  }

  /** One step of the reduction keeps the first-latest position. */
  lemma LatestStep(evals: seq<Evaluation>, k: nat)
    requires |evals| >= 2
    requires IsFirstLatest(evals[..|evals| - 1], k)
    ensures IsFirstLatest(evals, if Less(evals[k].date, evals[|evals| - 1].date) then |evals| - 1 else k)
  {
    var n := |evals| - 1;
    assert forall j :: 0 <= j < n ==> evals[..n][j] == evals[j];
    if Less(evals[k].date, evals[n].date) {
      forall j | 0 <= j < n
        ensures Less(evals[j].date, evals[n].date)
      {
        NotLessIsAtLeast(evals[k].date, evals[j].date);
        if evals[j].date != evals[k].date {
          LessTransitive(evals[j].date, evals[k].date, evals[n].date);
        }
      }
      forall j | 0 <= j < |evals|
        ensures !Less(evals[n].date, evals[j].date)
      {
        if j == n {
          LessIrreflexive(evals[n].date);
        } else {
          LessAsymmetric(evals[j].date, evals[n].date);
        }
      }
    }
  }

  /** The position `evals.reduce(...)` settles on: a left fold that replaces
      the running choice only when a strictly later date comes along. */
  function ReduceLatest(evals: seq<Evaluation>): (k: nat)
    requires |evals| > 0
    ensures IsFirstLatest(evals, k)
    decreases |evals|
  {
    if |evals| == 1 then
      LessIrreflexive(evals[0].date);
      0
    else
      var n := |evals| - 1;
      var k := ReduceLatest(evals[..n]);
      LatestStep(evals, k);
      if Less(evals[k].date, evals[n].date) then n else k
  }

  /** `getMostRecentEvaluation`: `None` (null) for no evaluations, the only one
      for a singleton, otherwise the first evaluation with a latest date. */
  function MostRecentEvaluation(evals: seq<Evaluation>): (r: Option<Evaluation>)
    ensures r.None? <==> |evals| == 0
    ensures |evals| == 1 ==> r == Some(evals[0])
    ensures r.Some? ==> exists k :: IsFirstLatest(evals, k) && evals[k] == r.value
  {
    if |evals| == 0 then None
    else if |evals| == 1 then
      LessIrreflexive(evals[0].date);
      assert IsFirstLatest(evals, 0);
      Some(evals[0])
    else
      var k := ReduceLatest(evals);
      Some(evals[k])
  }

  /** The first-latest position is unique, so the result is fully determined
      by the order of the input. */
  lemma FirstLatestUnique(evals: seq<Evaluation>, k1: int, k2: int)
    requires IsFirstLatest(evals, k1) && IsFirstLatest(evals, k2)
    ensures k1 == k2
  {
    assert !Less(evals[k1].date, evals[k2].date);
    assert !Less(evals[k2].date, evals[k1].date);
  }

  /** Every date in the list is at most the date of the most recent evaluation. */
  lemma MostRecentDateIsMaximum(evals: seq<Evaluation>, j: int)
    requires 0 <= j < |evals|
    ensures MostRecentEvaluation(evals).Some?
    ensures var d := MostRecentEvaluation(evals).value.date;
            evals[j].date == d || Less(evals[j].date, d)
  {
    var r := MostRecentEvaluation(evals);
    assert r.Some?;
    var k :| IsFirstLatest(evals, k) && evals[k] == r.value;
    assert !Less(evals[k].date, evals[j].date);
    NotLessIsAtLeast(evals[k].date, evals[j].date);
  }

  /** The most recent date does not depend on the order of the evaluations;
      only which of several equally dated evaluations is returned does. */
  lemma MostRecentDateOrderIndependent(a: seq<Evaluation>, b: seq<Evaluation>)
    requires multiset(a) == multiset(b)
    requires |a| > 0
    ensures MostRecentEvaluation(a).Some? && MostRecentEvaluation(b).Some?
    ensures MostRecentEvaluation(a).value.date == MostRecentEvaluation(b).value.date
  {
    assert |b| == |multiset(b)| == |multiset(a)| == |a|;
    var ra, rb := MostRecentEvaluation(a), MostRecentEvaluation(b);
    assert ra.Some? && rb.Some?;
    var ka :| IsFirstLatest(a, ka) && a[ka] == ra.value;
    var kb :| IsFirstLatest(b, kb) && b[kb] == rb.value;
    assert a[ka] in multiset(b);
    var ia :| 0 <= ia < |b| && b[ia] == a[ka];
    assert b[kb] in multiset(a);
    var ib :| 0 <= ib < |a| && a[ib] == b[kb];
    var da, db := a[ka].date, b[kb].date;
    assert !Less(db, b[ia].date);
    assert !Less(da, a[ib].date);
    if da != db {
      LessTotal(da, db);
    }
  }
}
