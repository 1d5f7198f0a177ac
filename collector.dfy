/** The main loop of the searcher: every reading-list record, in processing
    order, is searched; a hit with a call number is looked up for its floor
    and appended as a row; after each record the loop stops if the number
    of rows equals the cap. */
module Collector {
  import opened Wrappers
  import opened Catalog

  /** The cap the script uses: stop once this many titles were found. */
  const StopAfter: nat := 10

  /** One reported title: `[title, author, callNumber, floor]`. */
  datatype Row = Row(title: string, author: string, callNumber: string, floor: string)

  /** How a run ended: the rows collected and how many records were
      searched. */
  datatype Run = Run(rows: seq<Row>, processed: nat)

  /** The outcome of searching one record: no call number, a row, or an
      aborting error from the floor lookup. The row's title and author are
      the catalog's, not the record's. */
  function Lookup(rec: ListRecord, cat: Catalog): Result<Option<Row>, Error>
  {
    match cat.search(SearchUrl(rec))
    case None => Ok(None)
    case Some(hit) =>
      match FloorOf(hit.link, cat)
      case Err(e) => Err(e)
      case Ok(floor) => Ok(Some(Row(hit.title, hit.author, hit.callNumber, floor)))
  }

  /** The outcome of every record, whether or not the loop reaches it. */
  function Outcomes(records: seq<ListRecord>, cat: Catalog): (outs: seq<Result<Option<Row>, Error>>)
    ensures |outs| == |records|
    ensures forall i :: 0 <= i < |records| ==> outs[i] == Lookup(records[i], cat)
  {
    seq(|records|, i requires 0 <= i < |records| => Lookup(records[i], cat))
  }

  /** The rows a sequence of outcomes contributes, in order. */
  function Matches(outs: seq<Result<Option<Row>, Error>>): seq<Row>
  {
    if outs == [] then []
    else
      var last := outs[|outs| - 1];
      Matches(outs[..|outs| - 1]) + (if last.Ok? && last.value.Some? then [last.value.value] else [])
  }

  /** The loop from record `i` on, with `rows` collected so far. */
  function CollectFrom(outs: seq<Result<Option<Row>, Error>>, cap: nat, i: nat, rows: seq<Row>): Result<Run, Error>
    requires i <= |outs|
    decreases |outs| - i
  {
    if i == |outs| then Ok(Run(rows, i))
    else match outs[i]
      case Err(e) => Err(e)
      case Ok(o) =>
        var next := if o.Some? then rows + [o.value] else rows;
        if |next| == cap then Ok(Run(next, i + 1))
        else CollectFrom(outs, cap, i + 1, next)
  }

  /** The whole loop. */
  function Collect(outs: seq<Result<Option<Row>, Error>>, cap: nat): Result<Run, Error>
  {
    CollectFrom(outs, cap, 0, [])
  }

  /** One iteration's lookups for record `i`, statement by statement as the
      loop body runs them: quote and search it; if the page has a call
      number, fetch the floor and build the row. `Lookup` is the same step
      as a value, for the lemmas; the outcome is record `i`'s entry of
      `Outcomes`, that is, its `Lookup`. */
  method SearchRecord(records: seq<ListRecord>, i: nat, cat: Catalog) returns (o: Result<Option<Row>, Error>)
    requires i < |records|
    ensures o == Outcomes(records, cat)[i]
  {
    var rec := records[i];
    var hit := cat.search(SearchUrl(rec));
    if hit.None? {
      return Ok(None);
    }
    var floor := FloorOfBook(hit.value.link, cat);
    if floor.Err? {
      return Err(floor.error);
    }
    o := Ok(Some(Row(hit.value.title, hit.value.author, hit.value.callNumber, floor.value)));
  }

  /** The loop of the script: search each record, look up the floor of a
      hit, append the row, stop once the row count equals the cap. */
  method CollectMatches(records: seq<ListRecord>, cap: nat, cat: Catalog) returns (r: Result<Run, Error>)
    ensures r == Collect(Outcomes(records, cat), cap)
  {
    ghost var outs := Outcomes(records, cat);
    var rows: seq<Row> := [];
    var i := 0;
    while i < |records|
      invariant 0 <= i <= |records|
      invariant CollectFrom(outs, cap, i, rows) == Collect(outs, cap)
    {
      var o := SearchRecord(records, i, cat);
      CollectFromStep(outs, cap, i, rows);
      if o.Err? {
        return Err(o.error);
      }
      if o.value.Some? {
        rows := rows + [o.value.value];
      }
      i := i + 1;
      if |rows| == cap {
        break;
      }
    }
    r := Ok(Run(rows, i));
  }

  /** One turn of the loop: record `i` fails the run, or adds its row and
      either ends the run at the cap or hands over to record `i + 1`. */
  lemma CollectFromStep(outs: seq<Result<Option<Row>, Error>>, cap: nat, i: nat, rows: seq<Row>)
    requires i < |outs|
    ensures outs[i].Err? ==> CollectFrom(outs, cap, i, rows) == Err(outs[i].error)
    ensures outs[i].Ok? ==>
      var next := if outs[i].value.Some? then rows + [outs[i].value.value] else rows;
      CollectFrom(outs, cap, i, rows) == if |next| == cap then Ok(Run(next, i + 1)) else CollectFrom(outs, cap, i + 1, next)
  {
  }

  // ------------------------------------------------------------ properties

  /** The record at index `l` adds its row, if any, to the rows of the
      records before it. */
  lemma MatchesSnoc(outs: seq<Result<Option<Row>, Error>>, l: nat)
    requires l < |outs|
    ensures Matches(outs[..l + 1]) == Matches(outs[..l])
      + (if outs[l].Ok? && outs[l].value.Some? then [outs[l].value.value] else [])
  {
    assert outs[..l + 1][..l] == outs[..l];
  }

  /** What the loop from record `i` on does, given that the rows so far are
      the matches of the first `i` records and none of them failed. */
  lemma {:induction false} CollectFromSpec(outs: seq<Result<Option<Row>, Error>>, cap: nat, i: nat, rows: seq<Row>)
    requires i <= |outs|
    requires rows == Matches(outs[..i])
    requires forall j :: 0 <= j < i ==> outs[j].Ok?
    ensures CollectFrom(outs, cap, i, rows).Ok? ==>
      var run := CollectFrom(outs, cap, i, rows).value;
      && i <= run.processed <= |outs|
      && (i < |outs| ==> i < run.processed)
      && (forall j :: 0 <= j < run.processed ==> outs[j].Ok?)
      && run.rows == Matches(outs[..run.processed])
      && (forall l :: i < l < run.processed ==> |Matches(outs[..l])| != cap)
      && (run.processed < |outs| ==> |run.rows| == cap)
    ensures CollectFrom(outs, cap, i, rows).Err? ==>
      exists j :: i <= j < |outs|
        && outs[j] == Err(CollectFrom(outs, cap, i, rows).error)
        && (forall k :: i <= k < j ==> outs[k].Ok?)
        && (forall l :: i < l <= j ==> |Matches(outs[..l])| != cap)
    decreases |outs| - i
  {
    if i < |outs| && outs[i].Ok? {
      CollectFromStep(outs, cap, i, rows);
      MatchesSnoc(outs, i);
      var next := if outs[i].value.Some? then rows + [outs[i].value.value] else rows;
      assert next == Matches(outs[..i + 1]);
      if |next| != cap {
        CollectFromSpec(outs, cap, i + 1, next);
        if CollectFrom(outs, cap, i + 1, next).Err? {
          var j :| i + 1 <= j < |outs|
            && outs[j] == Err(CollectFrom(outs, cap, i + 1, next).error)
            && (forall k :: i + 1 <= k < j ==> outs[k].Ok?)
            && (forall l :: i + 1 < l <= j ==> |Matches(outs[..l])| != cap);
          assert forall l :: i < l <= j ==> |Matches(outs[..l])| != cap;
        }
      }
    }
  }

  /** The rows of a run are, in order, the matches of the records it
      searched; it searched a prefix of the records and none of them failed;
      it stopped at the first record after which the row count equalled the
      cap, or ran to the end. An aborted run met an error before any stop. */
  lemma CollectIsCappedPrefix(outs: seq<Result<Option<Row>, Error>>, cap: nat)
    ensures Collect(outs, cap).Ok? ==>
      var run := Collect(outs, cap).value;
      && run.processed <= |outs|
      && (|outs| > 0 ==> run.processed > 0)
      && (forall j :: 0 <= j < run.processed ==> outs[j].Ok?)
      && run.rows == Matches(outs[..run.processed])
      && (forall l :: 0 < l < run.processed ==> |Matches(outs[..l])| != cap)
      && (run.processed < |outs| ==> |run.rows| == cap)
    ensures Collect(outs, cap).Err? ==>
      exists j :: 0 <= j < |outs|
        && outs[j] == Err(Collect(outs, cap).error)
        && (forall k :: 0 <= k < j ==> outs[k].Ok?)
        && (forall l :: 0 < l <= j ==> |Matches(outs[..l])| != cap)
  {
    assert outs[..0] == [];
    CollectFromSpec(outs, cap, 0, []);
  }

  /** A run aborts only if some record's floor lookup failed. */
  lemma CollectFailsOnlyOnError(outs: seq<Result<Option<Row>, Error>>, cap: nat)
    requires forall j :: 0 <= j < |outs| ==> outs[j].Ok?
    ensures Collect(outs, cap).Ok?
  {
    CollectIsCappedPrefix(outs, cap);
  }

  lemma {:induction false} MatchesBelowCap(outs: seq<Result<Option<Row>, Error>>, cap: nat, p: nat, l: nat)
    requires cap >= 1 && l < p <= |outs|
    requires forall m :: 0 < m < p ==> |Matches(outs[..m])| != cap
    ensures |Matches(outs[..l])| < cap
  {
    if l == 0 {
      assert outs[..0] == [];
    } else {
      MatchesBelowCap(outs, cap, p, l - 1);
      MatchesSnoc(outs, l - 1);
    }
  }

  /** With a cap of at least one: at most `cap` rows and at most one row per
      searched record; a run that stopped early stopped right after the
      record that gave the cap-th row; a run that collected fewer rows than
      the cap searched every record. */
  lemma CollectRespectsCap(outs: seq<Result<Option<Row>, Error>>, cap: nat)
    requires cap >= 1
    ensures Collect(outs, cap).Ok? ==>
      var run := Collect(outs, cap).value;
      && |run.rows| <= cap
      && |run.rows| <= run.processed <= |outs|
      && (run.processed < |outs| ==>
            && |run.rows| == cap
            && 0 < run.processed
            && outs[run.processed - 1].Ok? && outs[run.processed - 1].value.Some?
            && |Matches(outs[..run.processed - 1])| == cap - 1)
      && (|run.rows| < cap ==> run.processed == |outs|)
  {
    CollectIsCappedPrefix(outs, cap);
    if Collect(outs, cap).Ok? {
      var run := Collect(outs, cap).value;
      MatchesLength(outs[..run.processed]);
      if run.processed > 0 {
        MatchesBelowCap(outs, cap, run.processed, run.processed - 1);
        MatchesSnoc(outs, run.processed - 1);
        assert outs[..run.processed - 1 + 1] == outs[..run.processed];
      }
    }
  }

  /** The script's own cap: at most `StopAfter` (10) rows, and when the run
      stops before the end of the list it has exactly that many. */
  lemma CollectStopsAfterTen(outs: seq<Result<Option<Row>, Error>>)
    ensures Collect(outs, StopAfter).Ok? ==>
      var run := Collect(outs, StopAfter).value;
      && |run.rows| <= 10
      && (run.processed < |outs| ==> |run.rows| == 10)
  {
    CollectRespectsCap(outs, StopAfter);
  }

  lemma {:induction false} MatchesLength(outs: seq<Result<Option<Row>, Error>>)
    ensures |Matches(outs)| <= |outs|
  {
    if outs != [] {
      MatchesLength(outs[..|outs| - 1]);
    }
  }

  /** A cap of zero as written: the count is compared after every record,
      so a first record without a match stops the loop at once, and a first
      record with a match means the count never equals zero again and every
      record is searched. */
  lemma CollectWithZeroCap(outs: seq<Result<Option<Row>, Error>>)
    requires |outs| > 0
    ensures outs[0] == Ok(None) ==> Collect(outs, 0) == Ok(Run([], 1))
    ensures Collect(outs, 0).Ok? && outs[0].Ok? && outs[0].value.Some? ==>
      Collect(outs, 0).value.processed == |outs|
  {
    CollectIsCappedPrefix(outs, 0);
    if Collect(outs, 0).Ok? && outs[0].Ok? && outs[0].value.Some? {
      var p := Collect(outs, 0).value.processed;
      if p < |outs| {
        MatchesGrowsFromFirst(outs, p);
      }
    }
  }

  lemma {:induction false} MatchesGrowsFromFirst(outs: seq<Result<Option<Row>, Error>>, l: nat)
    requires 0 < l <= |outs| && outs[0].Ok? && outs[0].value.Some?
    ensures |Matches(outs[..l])| >= 1
  {
    MatchesSnoc(outs, l - 1);
    if l > 1 {
      MatchesGrowsFromFirst(outs, l - 1);
    } else {
      assert outs[..0] == [];
    }
  }

  lemma {:induction false} MatchesAllHits(outs: seq<Result<Option<Row>, Error>>, l: nat)
    requires l <= |outs|
    requires forall j :: 0 <= j < l ==> outs[j].Ok? && outs[j].value.Some?
    ensures Matches(outs[..l]) == seq(l, j requires 0 <= j < l => outs[j].value.value)
  {
    if l == 0 {
      assert outs[..0] == [];
    } else {
      MatchesAllHits(outs, l - 1);
      MatchesSnoc(outs, l - 1);
    }
  }

  /** The first `cap >= 1` records all hits: the run keeps their rows and
      stops right after the `cap`-th record, whatever the later records
      (misses, failing lookups) would have done. */
  lemma CollectStopsAtCap(outs: seq<Result<Option<Row>, Error>>, cap: nat)
    requires 1 <= cap <= |outs|
    requires forall j :: 0 <= j < cap ==> outs[j].Ok? && outs[j].value.Some?
    ensures Collect(outs, cap) == Ok(Run(seq(cap, j requires 0 <= j < cap => outs[j].value.value), cap))
  {
    CollectIsCappedPrefix(outs, cap);
    MatchesAllHits(outs, cap);
    if Collect(outs, cap).Err? {
      // the failing record would lie past the cap-th, which ends the run
      assert false;
    }
    var run := Collect(outs, cap).value;
    assert run.processed == cap by {
      if run.processed < cap {
        MatchesAllHits(outs, run.processed);
      }
    }
  }

  lemma {:induction false} MatchesNoHits(outs: seq<Result<Option<Row>, Error>>)
    requires forall j :: 0 <= j < |outs| ==> outs[j] == Ok(None)
    ensures Matches(outs) == []
  {
    if outs != [] {
      MatchesNoHits(outs[..|outs| - 1]);
    }
  }

  /** No record has a call number: no rows, whatever the cap. */
  lemma CollectNoHits(outs: seq<Result<Option<Row>, Error>>, cap: nat)
    requires forall j :: 0 <= j < |outs| ==> outs[j] == Ok(None)
    ensures Collect(outs, cap).Ok? && Collect(outs, cap).value.rows == []
  {
    CollectFailsOnlyOnError(outs, cap);
    CollectIsCappedPrefix(outs, cap);
    MatchesNoHits(outs[..Collect(outs, cap).value.processed]);
  }
}
