/** `sorted(rows, key=lambda x: x[3], reverse=True)`: the rows ordered by
    floor, largest first under Python's string order, rows with equal
    floors in their original order (Python's sort is stable, also with
    `reverse=True`). */
module FloorSort {
  import opened Text
  import opened Collector

  /** Floors never increase from one row to a later one. */
  predicate FloorDescending(rows: seq<Row>)
  {
    forall i, j :: 0 <= i < j < |rows| ==> StrLe(rows[j].floor, rows[i].floor)
  }

  /** The rows on floor `f`, in their order. */
  function OnFloor(rows: seq<Row>, f: string): seq<Row>
  {
    if rows == [] then []
    else (if rows[0].floor == f then [rows[0]] else []) + OnFloor(rows[1..], f)
  }

  /** `r` placed in front of the first row whose floor is not above its own. */
  function Insert(r: Row, rows: seq<Row>): seq<Row>
  {
    if rows == [] then [r]
    else if StrLe(rows[0].floor, r.floor) then [r] + rows
    else [rows[0]] + Insert(r, rows[1..])
  }

  /** The sort, by insertion from the back, so that of two rows with the
      same floor the earlier one ends up first. */
  function SortByFloor(rows: seq<Row>): seq<Row>
  {
    if rows == [] then [] else Insert(rows[0], SortByFloor(rows[1..]))
  }

  lemma {:induction false} InsertPermutes(r: Row, rows: seq<Row>)
    ensures multiset(Insert(r, rows)) == multiset(rows) + multiset{r}
  {
    if rows != [] && !StrLe(rows[0].floor, r.floor) {
      InsertPermutes(r, rows[1..]);
      assert rows == [rows[0]] + rows[1..];
    }
  }

  lemma {:induction false} InsertKeepsDescending(r: Row, rows: seq<Row>)
    requires FloorDescending(rows)
    ensures FloorDescending(Insert(r, rows))
  {
    if rows == [] {
    } else if StrLe(rows[0].floor, r.floor) {
      forall j | 0 <= j < |rows|
        ensures StrLe(rows[j].floor, r.floor)
      {
        if j > 0 { StrLeTransitive(rows[j].floor, rows[0].floor, r.floor); }
      }
    } else {
      StrLeTotal(rows[0].floor, r.floor);
      InsertKeepsDescending(r, rows[1..]);
      InsertPermutes(r, rows[1..]);
      var rest := Insert(r, rows[1..]);
      forall j | 0 <= j < |rest|
        ensures StrLe(rest[j].floor, rows[0].floor)
      {
        assert rest[j] in multiset(rest);
        if rest[j] != r {
          assert rest[j] in multiset(rows[1..]);
          var k :| 0 <= k < |rows[1..]| && rows[1..][k] == rest[j];
          assert rows[k + 1] == rest[j];
        }
      }
    }
  }

  lemma {:induction false} InsertOnFloor(r: Row, rows: seq<Row>, f: string)
    ensures OnFloor(Insert(r, rows), f) == (if r.floor == f then [r] else []) + OnFloor(rows, f)
  {
    if rows == [] {
      assert OnFloor([r], f) == (if r.floor == f then [r] else []) + OnFloor([], f);
    } else if StrLe(rows[0].floor, r.floor) {
      assert ([r] + rows)[1..] == rows;
    } else {
      StrLeReflexive(r.floor);
      assert rows[0].floor != r.floor;
      var tail := Insert(r, rows[1..]);
      InsertOnFloor(r, rows[1..], f);
      assert ([rows[0]] + tail)[1..] == tail;
      OnFloorCons([rows[0]] + tail, f);
      OnFloorCons(rows, f);
      var top := if rows[0].floor == f then [rows[0]] else [];
      var mine := if r.floor == f then [r] else [];
      assert top == [] || mine == [];
      assert top + (mine + OnFloor(rows[1..], f)) == mine + (top + OnFloor(rows[1..], f));
    }
  }

  /** The sorted rows are the same rows, in descending floor order. */
  lemma {:induction false} SortIsDescendingPermutation(rows: seq<Row>)
    ensures FloorDescending(SortByFloor(rows))
    ensures multiset(SortByFloor(rows)) == multiset(rows)
  {
    if rows != [] {
      SortIsDescendingPermutation(rows[1..]);
      InsertKeepsDescending(rows[0], SortByFloor(rows[1..]));
      InsertPermutes(rows[0], SortByFloor(rows[1..]));
      assert rows == [rows[0]] + rows[1..];
    }
  }

  /** Stability: on every floor, the sorted rows are the original rows in
      their original order. */
  lemma {:induction false} SortIsStable(rows: seq<Row>, f: string)
    ensures OnFloor(SortByFloor(rows), f) == OnFloor(rows, f)
  {
    if rows != [] {
      SortIsStable(rows[1..], f);
      InsertOnFloor(rows[0], SortByFloor(rows[1..]), f);
    }
  }

  lemma {:induction false} OnFloorMember(rows: seq<Row>, x: Row, f: string)
    ensures x in OnFloor(rows, f) <==> x in rows && x.floor == f
  {
    if rows != [] {
      OnFloorMember(rows[1..], x, f);
      assert x in rows <==> x == rows[0] || x in rows[1..];
    }
  }

  lemma OnFloorOfFirst(rows: seq<Row>)
    ensures rows != [] ==> OnFloor(rows, rows[0].floor) != []
  {
  }

  /** Sorting is determined by these properties: a descending sequence with
      the same rows on every floor, in the same order, is the sort. */
  lemma {:induction false} StableSortIsUnique(rows: seq<Row>, other: seq<Row>)
    requires FloorDescending(other)
    requires forall f :: OnFloor(other, f) == OnFloor(rows, f)
    ensures other == SortByFloor(rows)
  {
    SortIsDescendingPermutation(rows);
    forall f ensures OnFloor(other, f) == OnFloor(SortByFloor(rows), f) {
      SortIsStable(rows, f);
    }
    DescendingWithSameFloorsEqual(other, SortByFloor(rows));
  }

  lemma {:induction false} DescendingWithSameFloorsEqual(a: seq<Row>, b: seq<Row>)
    requires FloorDescending(a) && FloorDescending(b)
    requires forall f :: OnFloor(a, f) == OnFloor(b, f)
    ensures a == b
    decreases |a|
  {
    if a != [] || b != [] {
      OnFloorOfFirst(a);
      OnFloorOfFirst(b);
      assert a != [] && b != [];
      SameTopRow(a, b);
      SameFloorsAfterTop(a, b);
      DescendingWithSameFloorsEqual(a[1..], b[1..]);
      assert a == [a[0]] + a[1..] && b == [b[0]] + b[1..];
    }
  }

  /** Two descending sequences with the same rows on every floor start
      with the same row. */
  lemma SameTopRow(a: seq<Row>, b: seq<Row>)
    requires a != [] && b != []
    requires FloorDescending(a) && FloorDescending(b)
    requires forall f :: OnFloor(a, f) == OnFloor(b, f)
    ensures a[0] == b[0]
  {
    // each side's first row occurs on the other side, at or below its top
    TopIsAbove(a, b);
    TopIsAbove(b, a);
    StrLeAntisymmetric(a[0].floor, b[0].floor);
    var g := a[0].floor;
    OnFloorCons(a, g);
    OnFloorCons(b, g);
    assert OnFloor(a, g)[0] == a[0] && OnFloor(b, g)[0] == b[0];
  }

  lemma TopIsAbove(a: seq<Row>, b: seq<Row>)
    requires a != [] && b != []
    requires FloorDescending(b)
    requires OnFloor(a, a[0].floor) == OnFloor(b, a[0].floor)
    ensures StrLe(a[0].floor, b[0].floor)
  {
    OnFloorMember(a, a[0], a[0].floor);
    OnFloorMember(b, a[0], a[0].floor);
    StrLeReflexive(b[0].floor);
    var i :| 0 <= i < |b| && b[i] == a[0];
    assert StrLe(b[i].floor, b[0].floor);
  }

  lemma SameFloorsAfterTop(a: seq<Row>, b: seq<Row>)
    requires a != [] && b != [] && a[0] == b[0]
    requires forall f :: OnFloor(a, f) == OnFloor(b, f)
    ensures forall f :: OnFloor(a[1..], f) == OnFloor(b[1..], f)
  {
    forall f ensures OnFloor(a[1..], f) == OnFloor(b[1..], f) {
      OnFloorCons(a, f);
      OnFloorCons(b, f);
      var head := if a[0].floor == f then [a[0]] else [];
      assert head + OnFloor(a[1..], f) == head + OnFloor(b[1..], f);
      assert OnFloor(a[1..], f) == (head + OnFloor(a[1..], f))[|head|..];
      assert OnFloor(b[1..], f) == (head + OnFloor(b[1..], f))[|head|..];
    }
  }

  lemma OnFloorCons(rows: seq<Row>, f: string)
    requires rows != []
    ensures OnFloor(rows, f) == (if rows[0].floor == f then [rows[0]] else []) + OnFloor(rows[1..], f)
  {
  }
}
