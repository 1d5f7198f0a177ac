/** Worked cases: the two-row table whose columns are 2, 3, 4 and 2 wide,
    and the string order of floors that puts "3" above "10". */
module Scenarios {
  import opened Text
  import opened Collector
  import opened FloorSort
  import opened Table

  lemma FirstLineOfExample()
    ensures FormatLine(["A", "Bob", "F100", "3"], [2, 3, 4, 2]) == "A \tBob\tF100\t3 "
  {
    var row, widths := ["A", "Bob", "F100", "3"], [2, 3, 4, 2];
    var cells := ["A ", "Bob", "F100", "3 "];
    assert PadRight(row[0], widths[0]) == cells[0] by { assert Spaces(1) == " "; }
    assert PadRight(row[1], widths[1]) == cells[1];
    assert PadRight(row[2], widths[2]) == cells[2];
    assert PadRight(row[3], widths[3]) == cells[3] by { assert Spaces(1) == " "; }
    assert seq(4, j requires 0 <= j < 4 => PadRight(row[j], widths[j])) == cells;
    assert Join("\t", cells) == "A \tBob\tF100\t3 " by {
      assert cells[1..][1..] == cells[2..];
      assert Join("\t", cells[2..]) == "F100\t3 ";
      assert Join("\t", cells[1..]) == "Bob\tF100\t3 ";
    }
  }

  lemma SecondLineOfExample()
    ensures FormatLine(["Al", "C", "F2", "10"], [2, 3, 4, 2]) == "Al\tC  \tF2  \t10"
  {
    var row, widths := ["Al", "C", "F2", "10"], [2, 3, 4, 2];
    var cells := ["Al", "C  ", "F2  ", "10"];
    assert PadRight(row[0], widths[0]) == cells[0];
    assert PadRight(row[1], widths[1]) == cells[1] by { assert Spaces(2) == "  "; }
    assert PadRight(row[2], widths[2]) == cells[2] by { assert Spaces(2) == "  "; }
    assert PadRight(row[3], widths[3]) == cells[3];
    assert seq(4, j requires 0 <= j < 4 => PadRight(row[j], widths[j])) == cells;
    assert Join("\t", cells) == "Al\tC  \tF2  \t10" by {
      assert cells[1..][1..] == cells[2..];
      assert Join("\t", cells[2..]) == "F2  \t10";
      assert Join("\t", cells[1..]) == "C  \tF2  \t10";
    }
  }

  /** Each column as wide as its longest cell, cells padded on the right,
      one tab between cells, one newline between rows. */
  lemma ExampleReport()
    ensures Report([Row("A", "Bob", "F100", "3"), Row("Al", "C", "F2", "10")])
      == "A \tBob\tF100\t3 \nAl\tC  \tF2  \t10"
  {
    var table := [["A", "Bob", "F100", "3"], ["Al", "C", "F2", "10"]];
    assert seq(2, i requires 0 <= i < 2 => Cells([Row("A", "Bob", "F100", "3"), Row("Al", "C", "F2", "10")][i]))
      == table;
    var widths := [2, 3, 4, 2];
    assert Widths(table, 4) == widths;
    FirstLineOfExample();
    SecondLineOfExample();
    var lines := ["A \tBob\tF100\t3 ", "Al\tC  \tF2  \t10"];
    assert seq(2, i requires 0 <= i < 2 => FormatLine(table[i], widths)) == lines;
    assert Render(table, 4) == Join("\n", lines);
    assert Join("\n", lines) == lines[0] + "\n" + Join("\n", lines[1..]);
    assert lines[1..] == [lines[1]];
  }

  /** Floors compare as strings: "3" sorts above "10", so these rows are
      already in report order; the two rows on floor "3" keep their order. */
  lemma StringOrderOfFloors()
    ensures SortByFloor([Row("Al", "C", "F2", "10"), Row("A", "Bob", "F100", "3"), Row("B", "D", "F7", "3")])
      == [Row("A", "Bob", "F100", "3"), Row("B", "D", "F7", "3"), Row("Al", "C", "F2", "10")]
  {
    var a := Row("Al", "C", "F2", "10");
    var b := Row("A", "Bob", "F100", "3");
    var c := Row("B", "D", "F7", "3");
    assert StrLe("3", "3") by { StrLeReflexive("3"); }
    assert !StrLe("3", "10");
    assert SortByFloor([c]) == [c];
    assert [b, c][1..] == [c] && [a, b, c][1..] == [b, c];
    assert SortByFloor([b, c]) == Insert(b, [c]) == [b, c];
    assert Insert(a, [c]) == [c, a];
    assert Insert(a, [b, c]) == [b] + Insert(a, [c]);
  }
}
