/** The script from the reading list to the printed text: collect the
    matches, sort them by floor, render the report. A failed floor lookup
    aborts the run before anything is printed. */
module Searcher {
  import opened Wrappers
  import opened Catalog
  import opened Collector
  import opened FloorSort
  import opened Table

  /** What the script prints for the records in processing order, or the
      error that aborts it. */
  function Output(records: seq<ListRecord>, cap: nat, cat: Catalog): Result<string, Error>
  {
    match Collect(Outcomes(records, cat), cap)
    case Err(e) => Err(e)
    case Ok(run) => Ok(Report(SortByFloor(run.rows)))
  }

  /** The script's main part in the order it runs: the loop, the sort, the
      report. `Output` is the same run as a value, for the lemmas. */
  method SearchReadingList(records: seq<ListRecord>, cap: nat, cat: Catalog) returns (r: Result<string, Error>)
    ensures r == Output(records, cap, cat)
  {
    var run := CollectMatches(records, cap, cat);
    if run.Err? {
      return Err(run.error);
    }
    var sorted := SortByFloor(run.value.rows);
    r := Ok(Report(sorted));
  }

  /** The apology is printed exactly when the run collected no row. */
  lemma SorryIffNothingCollected(records: seq<ListRecord>, cap: nat, cat: Catalog)
    ensures Output(records, cap, cat).Ok? <==> Collect(Outcomes(records, cat), cap).Ok?
    ensures Output(records, cap, cat) == Ok(Sorry) <==>
      Collect(Outcomes(records, cat), cap).Ok? && Collect(Outcomes(records, cat), cap).value.rows == []
  {
    var c := Collect(Outcomes(records, cat), cap);
    if c.Ok? {
      SortIsDescendingPermutation(c.value.rows);
      ReportIsSorryIffEmpty(SortByFloor(c.value.rows));
      assert |SortByFloor(c.value.rows)| == |multiset(SortByFloor(c.value.rows))| == |c.value.rows|;
    }
  }

  /** No title has a call number at the branch: the apology, whatever the
      cap. */
  lemma NoHitsPrintsSorry(records: seq<ListRecord>, cap: nat, cat: Catalog)
    requires forall i :: 0 <= i < |records| ==> cat.search(SearchUrl(records[i])).None?
    ensures Output(records, cap, cat) == Ok(Sorry)
  {
    var outs := Outcomes(records, cat);
    assert forall i :: 0 <= i < |outs| ==> outs[i] == Ok(None);
    CollectNoHits(outs, cap);
    SorryIffNothingCollected(records, cap, cat);
  }

  /** The first `cap >= 1` records found, each with its floor: the report
      of their rows, whatever the later records hold. */
  lemma CapLimitsReport(records: seq<ListRecord>, cap: nat, cat: Catalog)
    requires 1 <= cap <= |records|
    requires forall i :: 0 <= i < cap ==> Lookup(records[i], cat).Ok? && Lookup(records[i], cat).value.Some?
    ensures Output(records, cap, cat)
      == Ok(Report(SortByFloor(seq(cap, i requires 0 <= i < cap => Lookup(records[i], cat).value.value))))
  {
    var outs := Outcomes(records, cat);
    CollectStopsAtCap(outs, cap);
    assert seq(cap, i requires 0 <= i < cap => outs[i].value.value)
      == seq(cap, i requires 0 <= i < cap => Lookup(records[i], cat).value.value);
  }
}
