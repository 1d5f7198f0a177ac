/** The report: the sorted rows as a column-aligned table, or a fixed
    apology when there are none. Each column is as wide as its longest
    cell; every cell, the last one included, is left-justified and padded
    with spaces to its column's width; cells are separated by one tab and
    rows by one newline. */
module Table {
  import opened Text
  import opened Collector

  /** The apology, printed when no row was collected. It is written as a
      concatenation of short pieces only so that the verifier can see, piece
      by piece, that it holds no tab (`NoTabInSorry`); the text is the
      script's own. */
  const Sorry: string := "Sorry, none of your " + "selected titles were " + "available at your "
    + "chosen Chicago " + "Public Library branch."

  /** `[str(e) for e in row]`. */
  function Cells(r: Row): (cells: seq<string>)
    ensures |cells| == 4
  {
    [r.title, r.author, r.callNumber, r.floor]
  }

  /** Every line of the table has `n` cells. */
  predicate Rectangular(table: seq<seq<string>>, n: nat)
  {
    forall i :: 0 <= i < |table| ==> |table[i]| == n
  }

  /** `max(map(len, col))` for column `j`. */
  function ColumnWidth(table: seq<seq<string>>, j: nat): (w: nat)
    requires table != []
    requires forall i :: 0 <= i < |table| ==> j < |table[i]|
    ensures forall i :: 0 <= i < |table| ==> |table[i][j]| <= w
  {
    if |table| == 1 then |table[0][j]|
    else
      var rest := ColumnWidth(table[1..], j);
      assert forall i :: 1 <= i < |table| ==> table[i] == table[1..][i - 1];
      if |table[0][j]| < rest then rest else |table[0][j]|
  }

  /** The width of a column is the length of one of its cells: together
      with `ColumnWidth`'s contract, it is the longest. */
  lemma {:induction false} ColumnWidthAttained(table: seq<seq<string>>, j: nat)
    requires table != []
    requires forall i :: 0 <= i < |table| ==> j < |table[i]|
    ensures exists i :: 0 <= i < |table| && |table[i][j]| == ColumnWidth(table, j)
  {
    if |table| > 1 {
      assert forall i :: 1 <= i < |table| ==> table[i] == table[1..][i - 1];
      ColumnWidthAttained(table[1..], j);
      var i :| 0 <= i < |table[1..]| && |table[1..][i][j]| == ColumnWidth(table[1..], j);
      assert table[1..][i] == table[i + 1];
    } else {
      assert |table[0][j]| == ColumnWidth(table, j);
    }
  }

  /** `lens`: the width of every column. */
  function Widths(table: seq<seq<string>>, n: nat): (ws: seq<nat>)
    requires table != [] && Rectangular(table, n)
    ensures |ws| == n
    ensures forall j :: 0 <= j < n ==> ws[j] == ColumnWidth(table, j)
  {
    seq(n, j requires 0 <= j < n => ColumnWidth(table, j))
  }

  /** `fmt.format(*row)` with `fmt` the tab-joined `{:w}` fields. */
  function FormatLine(row: seq<string>, widths: seq<nat>): string
    requires |row| == |widths|
  {
    Join("\t", seq(|row|, j requires 0 <= j < |row| => PadRight(row[j], widths[j])))
  }

  /** `'\n'.join(table)`. */
  function Render(table: seq<seq<string>>, n: nat): string
    requires table != [] && Rectangular(table, n)
  {
    var widths := Widths(table, n);
    Join("\n", seq(|table|, i requires 0 <= i < |table| => FormatLine(table[i], widths)))
  }

  /** What the script prints (without `print`'s final newline). */
  function Report(rows: seq<Row>): string
  {
    if |rows| > 0 then Render(seq(|rows|, i requires 0 <= i < |rows| => Cells(rows[i])), 4)
    else Sorry
  }

  // ------------------------------------------------------------ layout

  function Sum(xs: seq<nat>): nat
  {
    if xs == [] then 0 else xs[0] + Sum(xs[1..])
  }

  function Lengths(parts: seq<string>): (ls: seq<nat>)
    ensures |ls| == |parts| && forall k :: 0 <= k < |parts| ==> ls[k] == |parts[k]|
  {
    seq(|parts|, k requires 0 <= k < |parts| => |parts[k]|)
  }

  /** Where part `k` begins in `parts` joined by a one-character separator:
      after the earlier parts and one separator each. */
  function PartStart(parts: seq<string>, k: nat): nat
    requires k <= |parts|
  {
    Sum(Lengths(parts)[..k]) + k
  }

  lemma PartStartNext(parts: seq<string>, k: nat)
    requires 0 < k <= |parts|
    ensures PartStart(parts, k) == |parts[0]| + 1 + PartStart(parts[1..], k - 1)
  {
    assert Lengths(parts)[..k][1..] == Lengths(parts[1..])[..k - 1];
  }

  /** A slice of `rest` reappears, shifted, in `head + [sep] + rest`. */
  lemma ShiftedSlice(head: string, sep: char, rest: string, s: nat, len: nat)
    requires s + len <= |rest|
    ensures (head + [sep] + rest)[|head| + 1 + s..|head| + 1 + s + len] == rest[s..s + len]
    ensures s + len < |rest| ==> (head + [sep] + rest)[|head| + 1 + s + len] == rest[s + len]
  {
  }

  /** Joining with a one-character separator adds one character per gap. */
  lemma {:induction false} JoinLength(sep: char, parts: seq<string>)
    requires parts != []
    ensures |Join([sep], parts)| == Sum(Lengths(parts)) + |parts| - 1
  {
    if |parts| > 1 {
      JoinLength(sep, parts[1..]);
      assert Join([sep], parts) == parts[0] + [sep] + Join([sep], parts[1..]);
      assert Lengths(parts)[1..] == Lengths(parts[1..]);
    } else {
      assert Lengths(parts)[1..] == [];
    }
  }

  /** Joining with a one-character separator: the length is the parts'
      lengths plus one per gap; part `k` sits at `PartStart(parts, k)` and
      is followed by the separator unless it is the last. */
  lemma {:induction false} JoinLayout(sep: char, parts: seq<string>, k: nat)
    requires k < |parts|
    ensures |Join([sep], parts)| == Sum(Lengths(parts)) + |parts| - 1
    ensures PartStart(parts, k) + |parts[k]| <= |Join([sep], parts)|
    ensures k + 1 < |parts| ==> PartStart(parts, k) + |parts[k]| < |Join([sep], parts)|
    ensures Join([sep], parts)[PartStart(parts, k)..PartStart(parts, k) + |parts[k]|] == parts[k]
    ensures k + 1 < |parts| ==> Join([sep], parts)[PartStart(parts, k) + |parts[k]|] == sep
  {
    JoinLength(sep, parts);
    assert Lengths(parts)[..0] == [];
    if |parts| > 1 {
      var rest := Join([sep], parts[1..]);
      assert Join([sep], parts) == parts[0] + [sep] + rest;
      if k == 0 {
        JoinLength(sep, parts[1..]);
      } else {
        JoinLayout(sep, parts[1..], k - 1);
        PartStartNext(parts, k);
        ShiftedSlice(parts[0], sep, rest, PartStart(parts[1..], k - 1), |parts[k]|);
      }
    }
  }

  /** Parts of equal length `len` joined: part `k` starts at `k * (len + 1)`. */
  lemma {:induction false} UniformPartStart(parts: seq<string>, len: nat, k: nat)
    requires k <= |parts|
    requires forall i :: 0 <= i < |parts| ==> |parts[i]| == len
    ensures PartStart(parts, k) == k * (len + 1)
  {
    if k > 0 {
      PartStartNext(parts, k);
      UniformPartStart(parts[1..], len, k - 1);
      assert (k - 1) * (len + 1) + (len + 1) == k * (len + 1);
    } else {
      assert Lengths(parts)[..0] == [];
    }
  }

  lemma {:induction false} UniformSum(parts: seq<string>, len: nat)
    requires forall i :: 0 <= i < |parts| ==> |parts[i]| == len
    ensures Sum(Lengths(parts)) == |parts| * len
  {
    if parts != [] {
      UniformSum(parts[1..], len);
      assert Lengths(parts)[1..] == Lengths(parts[1..]);
      assert (|parts| - 1) * len + len == |parts| * len;
    }
  }

  /** Lines of equal length `len` joined by newlines: line `i` starts at
      `i * (len + 1)` and the text is `|lines| * (len + 1) - 1` long. */
  lemma UniformJoinLayout(lines: seq<string>, len: nat, i: nat)
    requires i < |lines|
    requires forall k :: 0 <= k < |lines| ==> |lines[k]| == len
    ensures |Join("\n", lines)| == |lines| * (len + 1) - 1
    ensures i * (len + 1) + len <= |Join("\n", lines)|
    ensures Join("\n", lines)[i * (len + 1)..i * (len + 1) + len] == lines[i]
    ensures i + 1 < |lines| ==>
      && i * (len + 1) + len < |Join("\n", lines)|
      && Join("\n", lines)[i * (len + 1) + len] == '\n'
  {
    UniformPartStart(lines, len, i);
    UniformSum(lines, len);
    JoinLayout('\n', lines, i);
    assert |lines| * len + |lines| == |lines| * (len + 1);
  }

  /** A formatted line: each cell padded to its width, at the same offset
      `Sum(widths[..j]) + j` whatever the row, followed by a tab except
      after the last cell; the line is `Sum(widths) + |widths| - 1` long. */
  lemma FormatLineLayout(row: seq<string>, widths: seq<nat>, j: nat)
    requires |row| == |widths| && j < |row|
    requires forall k :: 0 <= k < |row| ==> |row[k]| <= widths[k]
    ensures |FormatLine(row, widths)| == Sum(widths) + |widths| - 1
    ensures Sum(widths[..j]) + j + widths[j] <= |FormatLine(row, widths)|
    ensures j + 1 < |row| ==> Sum(widths[..j]) + j + widths[j] < |FormatLine(row, widths)|
    ensures FormatLine(row, widths)[Sum(widths[..j]) + j..Sum(widths[..j]) + j + widths[j]]
      == PadRight(row[j], widths[j])
    ensures j + 1 < |row| ==> FormatLine(row, widths)[Sum(widths[..j]) + j + widths[j]] == '\t'
  {
    var cells := seq(|row|, k requires 0 <= k < |row| => PadRight(row[k], widths[k]));
    assert Lengths(cells) == widths;
    JoinLayout('\t', cells, j);
  }

  /** The length every line of the table has. */
  function LineLength(table: seq<seq<string>>, n: nat): nat
    requires table != [] && Rectangular(table, n) && n > 0
  {
    Sum(Widths(table, n)) + n - 1
  }

  /** Where line `i` of the table begins: after `i` lines and their
      newlines. */
  function LineStart(table: seq<seq<string>>, n: nat, i: nat): nat
    requires table != [] && Rectangular(table, n) && n > 0
  {
    i * (LineLength(table, n) + 1)
  }

  /** The rendered table: line `i` is the formatted row `i` and starts at
      `i * (L + 1)`, where `L` is the common line length; lines are
      separated by newlines; the whole text is `|table| * (L + 1) - 1`
      long. */
  lemma RenderLayout(table: seq<seq<string>>, n: nat, i: nat)
    requires table != [] && Rectangular(table, n) && n > 0 && i < |table|
    ensures |Render(table, n)| == |table| * (LineLength(table, n) + 1) - 1
    ensures LineStart(table, n, i) + LineLength(table, n) <= |Render(table, n)|
    ensures Render(table, n)[LineStart(table, n, i)..LineStart(table, n, i) + LineLength(table, n)]
      == FormatLine(table[i], Widths(table, n))
    ensures i + 1 < |table| ==>
      && LineStart(table, n, i) + LineLength(table, n) < |Render(table, n)|
      && Render(table, n)[LineStart(table, n, i) + LineLength(table, n)] == '\n'
  {
    var widths := Widths(table, n);
    var len := LineLength(table, n);
    var lines := seq(|table|, k requires 0 <= k < |table| => FormatLine(table[k], widths));
    forall k | 0 <= k < |table| ensures |lines[k]| == len {
      FormatLineLayout(table[k], widths, 0);
    }
    assert Render(table, n) == Join("\n", lines);
    UniformJoinLayout(lines, len, i);
  }

  /** Column alignment: cell `j` of row `i` is printed, padded with spaces
      to the width of column `j` (the length of its longest cell, see
      `ColumnWidth`), at an offset that depends on `i` only through the
      common line length and on `j` only through the widths of the columns
      before it. */
  lemma RenderAligned(table: seq<seq<string>>, n: nat, i: nat, j: nat)
    requires table != [] && Rectangular(table, n) && i < |table| && j < n
    ensures var widths := Widths(table, n);
      var at := LineStart(table, n, i) + Sum(widths[..j]) + j;
      && at + widths[j] <= |Render(table, n)|
      && Render(table, n)[at..at + widths[j]] == table[i][j] + Spaces(widths[j] - |table[i][j]|)
  {
    var widths := Widths(table, n);
    LineInRender(table, n, i);
    CellInLine(table, n, i, j);
    CellInOutput(Render(table, n), FormatLine(table[i], widths),
      LineStart(table, n, i), LineLength(table, n),
      Sum(widths[..j]) + j, table[i][j], widths[j], false);
  }

  /** Cells are separated by exactly one tab: right after the padded cell
      `j` of row `i`, unless it is the last, comes a tab. */
  lemma RenderTabAfterCell(table: seq<seq<string>>, n: nat, i: nat, j: nat)
    requires table != [] && Rectangular(table, n) && i < |table| && j + 1 < n
    ensures var widths := Widths(table, n);
      var at := LineStart(table, n, i) + Sum(widths[..j]) + j + widths[j];
      at < |Render(table, n)| && Render(table, n)[at] == '\t'
  {
    var widths := Widths(table, n);
    LineInRender(table, n, i);
    CellInLine(table, n, i, j);
    CellInOutput(Render(table, n), FormatLine(table[i], widths),
      LineStart(table, n, i), LineLength(table, n),
      Sum(widths[..j]) + j, table[i][j], widths[j], true);
  }

  /** Line `i` of the table, where it sits in the rendered text. */
  lemma LineInRender(table: seq<seq<string>>, n: nat, i: nat)
    requires table != [] && Rectangular(table, n) && n > 0 && i < |table|
    ensures LineStart(table, n, i) + LineLength(table, n) <= |Render(table, n)|
    ensures Render(table, n)[LineStart(table, n, i)..LineStart(table, n, i) + LineLength(table, n)]
      == FormatLine(table[i], Widths(table, n))
  {
    RenderLayout(table, n, i);
  }

  /** Cell `j` of row `i`, padded, where it sits in its line; and the tab
      after it unless it is the last. */
  lemma CellInLine(table: seq<seq<string>>, n: nat, i: nat, j: nat)
    requires table != [] && Rectangular(table, n) && i < |table| && j < n
    ensures var widths := Widths(table, n);
      var off := Sum(widths[..j]) + j;
      && |table[i][j]| <= widths[j]
      && |FormatLine(table[i], widths)| == LineLength(table, n)
      && off + widths[j] <= LineLength(table, n)
      && FormatLine(table[i], widths)[off..off + widths[j]] == PadRight(table[i][j], widths[j])
      && (j + 1 < n ==>
        (off + widths[j] < LineLength(table, n) && FormatLine(table[i], widths)[off + widths[j]] == '\t'))
  {
    CellsFit(table, n, i);
    FormatLineLayout(table[i], Widths(table, n), j);
  }

  /** A padded cell of a line that sits at `base` in `out` sits at
      `base + off`, and so does the tab after it. */
  lemma CellInOutput(out: string, line: string, base: nat, len: nat, off: nat, text: string, w: nat, more: bool)
    requires |line| == len && base + len <= |out| && out[base..base + len] == line
    requires |text| <= w && off + w <= len && line[off..off + w] == PadRight(text, w)
    requires more ==> off + w < len && line[off + w] == '\t'
    ensures base + off + w <= |out|
    ensures out[base + off..base + off + w] == text + Spaces(w - |text|)
    ensures more ==> base + off + w < |out| && out[base + off + w] == '\t'
  {
    assert forall k :: 0 <= k < len ==> out[base + k] == line[k] by {
      forall k | 0 <= k < len ensures out[base + k] == line[k] {
        assert out[base..base + len][k] == out[base + k];
      }
    }
    assert out[base + off..base + off + w] == line[off..off + w];
  }

  /** Every cell fits its column. */
  lemma CellsFit(table: seq<seq<string>>, n: nat, i: nat)
    requires table != [] && Rectangular(table, n) && i < |table|
    ensures forall k :: 0 <= k < n ==> |table[i][k]| <= Widths(table, n)[k]
  {
    forall k | 0 <= k < n ensures |table[i][k]| <= Widths(table, n)[k] {
      assert Widths(table, n)[k] == ColumnWidth(table, k);
    }
  }

  lemma NoTabInSorry()
    ensures '\t' !in Sorry
  {
  }

  /** The apology is printed exactly when there is nothing to report: a
      table of rows always has a tab and the apology has none. */
  lemma ReportIsSorryIffEmpty(rows: seq<Row>)
    ensures Report(rows) == Sorry <==> rows == []
  {
    if rows != [] {
      var table := seq(|rows|, i requires 0 <= i < |rows| => Cells(rows[i]));
      RenderTabAfterCell(table, 4, 0, 0);
      var widths := Widths(table, 4);
      assert Sum(widths[..0]) == 0 by { assert widths[..0] == []; }
      NoTabInSorry();
    }
  }
}
