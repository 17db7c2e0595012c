/**
 * exam-score: the table of percentages by number of missed questions.
 * The formatting of the percentage (`f"{value:.2f}%"` of a float) is left
 * opaque: the caller passes `percentOf`, where `percentOf(c)` is the cell
 * printed for `c` correct answers out of the total.
 */
module ExamScore {
  import opened Decimal
  import opened Seqs

  datatype Row = Row(missed: nat, correct: nat, percent: string)

  const Headers: seq<string> := ["Missed", "Correct", "Percent"]

  const PositiveMessage: string := "total_questions must be a positive integer"

  /** The three cells printed for a row: the two counts as decimal numerals and the percentage. */
  function Cells(r: Row): seq<string>
  {
    [NatToString(r.missed), NatToString(r.correct), r.percent]
  }

  /** The rows of the table: one per number of missed questions, from 0 up to the total. */
  function Rows(total: nat, percentOf: nat -> string): (rows: seq<Row>)
    ensures |rows| == total + 1
    ensures forall i :: 0 <= i < |rows| ==>
      && rows[i].missed == i
      && rows[i].missed + rows[i].correct == total
      && rows[i].percent == percentOf(rows[i].correct)
  {
    seq(total + 1, i requires 0 <= i <= total => Row(i, total - i, percentOf(total - i)))
  }

  /** `_build_rows`: the loop over `range(total_questions + 1)`; the division needs a positive total. */
  method BuildRows(total: nat, percentOf: nat -> string) returns (rows: seq<Row>)
    requires total > 0
    ensures rows == Rows(total, percentOf)
  {
    rows := [];
    var missed := 0;
    while missed <= total
      invariant missed <= total + 1
      invariant rows == Rows(total, percentOf)[..missed]
    {
      var correct := total - missed;
      rows := rows + [Row(missed, correct, percentOf(correct))];
      missed := missed + 1;
    }
  }

  /** The larger of `w` and the lengths of the cells: what the width loop leaves in one column. */
  function MaxLength(w: nat, cells: seq<string>): nat
  {
    if cells == [] then w else Max(MaxLength(w, cells[..|cells| - 1]), |cells[|cells| - 1]|)
  }

  /** MaxLength is the maximum: no cell is longer, and it is `w` or the length of some cell. */
  lemma {:induction false} MaxLengthIsMax(w: nat, cells: seq<string>)
    ensures MaxLength(w, cells) >= w && forall c :: c in cells ==> |c| <= MaxLength(w, cells)
    ensures MaxLength(w, cells) == w || exists c :: c in cells && |c| == MaxLength(w, cells)
  {
    if cells != [] {
      var init := cells[..|cells| - 1];
      MaxLengthIsMax(w, init);
      assert forall c :: c in init ==> c in cells;
      assert cells == init + [cells[|cells| - 1]];
    }
  }

  /** Column k of the table body. */
  function Column(rows: seq<Row>, k: nat): seq<string>
    requires k < 3
  {
    seq(|rows|, i requires 0 <= i < |rows| => Cells(rows[i])[k])
  }

  /** The width of column k: the longest of its header and its cells. */
  function Width(rows: seq<Row>, k: nat): nat
    requires k < 3
  {
    MaxLength(|Headers[k]|, Column(rows, k))
  }

  /** The column widths. */
  function Widths(rows: seq<Row>): seq<nat>
  {
    [Width(rows, 0), Width(rows, 1), Width(rows, 2)]
  }

  /** The width loop of `_print_table`. */
  method ColumnWidths(rows: seq<Row>) returns (widths: seq<nat>)
    ensures widths == Widths(rows)
  {
    widths := [|Headers[0]|, |Headers[1]|, |Headers[2]|];
    assert widths == Widths([]);
    for i := 0 to |rows|
      invariant widths == Widths(rows[..i])
    {
      var r := rows[i];
      assert rows[..i + 1] == rows[..i] + [r];
      WidthsStep(rows[..i], r);
      widths := widths[0 := Max(widths[0], |NatToString(r.missed)|)];
      widths := widths[1 := Max(widths[1], |NatToString(r.correct)|)];
      widths := widths[2 := Max(widths[2], |r.percent|)];
      assert widths[0] == Width(rows[..i + 1], 0);
      assert widths[1] == Width(rows[..i + 1], 1);
      assert widths[2] == Width(rows[..i + 1], 2);
    }
    assert rows[..|rows|] == rows;
  }

  /** One more row widens each column to that row's cell when the cell is longer. */
  lemma WidthsStep(rows: seq<Row>, r: Row)
    ensures forall k :: 0 <= k < 3 ==> Width(rows + [r], k) == Max(Width(rows, k), |Cells(r)[k]|)
  {
    forall k | 0 <= k < 3
      ensures Width(rows + [r], k) == Max(Width(rows, k), |Cells(r)[k]|)
    {
      ColumnSnoc(rows, r, k);
      MaxLengthSnoc(|Headers[k]|, Column(rows, k), Cells(r)[k]);
    }
  }

  lemma ColumnSnoc(rows: seq<Row>, r: Row, k: nat)
    requires k < 3
    ensures Column(rows + [r], k) == Column(rows, k) + [Cells(r)[k]]
  {
  }

  lemma MaxLengthSnoc(w: nat, cells: seq<string>, c: string)
    ensures MaxLength(w, cells + [c]) == Max(MaxLength(w, cells), |c|)
  {
    assert (cells + [c])[..|cells|] == cells;
  }

  function Repeat(c: char, n: nat): (s: string)
    ensures |s| == n && forall i :: 0 <= i < n ==> s[i] == c
  {
    seq(n, _ => c)
  }

  /** `str.rjust(width)`: s padded on the left with spaces to `width`, unchanged when already as long. */
  function RJust(s: string, width: nat): string
  {
    if |s| >= width then s else Repeat(' ', width - |s|) + s
  }

  /** The result is `width` long unless s is longer, ends with s, and holds only spaces before it. */
  lemma RJustFacts(s: string, width: nat)
    ensures var r := RJust(s, width);
      && |r| == Max(width, |s|)
      && r[|r| - |s|..] == s
      && forall i :: 0 <= i < |r| - |s| ==> r[i] == ' '
  {
  }

  /** `write_row`: the values right-justified to the widths they are zipped with, joined by two spaces. */
  function WriteRow(values: seq<string>, widths: seq<nat>): string
  {
    var n := if |values| < |widths| then |values| else |widths|;
    Join(seq(n, k requires 0 <= k < n => RJust(values[k], widths[k])), "  ")
  }

  /** The separator line's cells: a run of dashes as long as each width. */
  function Dashes(widths: seq<nat>): seq<string>
  {
    seq(|widths|, k requires 0 <= k < |widths| => Repeat('-', widths[k]))
  }

  /** The lines `write_row` writes: header, separator, then one line per row, for given widths. */
  function Lines(rows: seq<Row>, w: seq<nat>): (lines: seq<string>)
    ensures |lines| == |rows| + 2
  {
    [WriteRow(Headers, w), WriteRow(Dashes(w), w)]
      + seq(|rows|, i requires 0 <= i < |rows| => WriteRow(Cells(rows[i]), w))
  }

  /** The lines `_print_table` writes: the rows laid out with their column widths. */
  function Table(total: nat, percentOf: nat -> string): (lines: seq<string>)
    ensures |lines| == total + 3
  {
    Lines(Rows(total, percentOf), Widths(Rows(total, percentOf)))
  }

  /** `_print_table`, with the printed lines returned in order. */
  method PrintTable(total: nat, percentOf: nat -> string) returns (lines: seq<string>)
    requires total > 0
    ensures lines == Table(total, percentOf)
  {
    var rows := BuildRows(total, percentOf);
    var widths := ColumnWidths(rows);
    lines := [WriteRow(Headers, widths), WriteRow(Dashes(widths), widths)];
    ghost var all := Lines(rows, widths);
    LinesAt(rows, widths);
    for i := 0 to |rows|
      invariant lines == all[..i + 2]
    {
      assert all[i + 2] == WriteRow(Cells(rows[i]), widths);
      TakeOneMore(all, i + 2);
      lines := lines + [WriteRow(Cells(rows[i]), widths)];
    }
  }

  lemma TakeOneMore(all: seq<string>, k: nat)
    requires k < |all|
    ensures all[..k + 1] == all[..k] + [all[k]]
  {
  }

  /** The lines one by one. */
  lemma LinesAt(rows: seq<Row>, w: seq<nat>)
    ensures var t := Lines(rows, w);
      && t[0] == WriteRow(Headers, w)
      && t[1] == WriteRow(Dashes(w), w)
      && forall j :: 2 <= j < |t| ==> t[j] == WriteRow(Cells(rows[j - 2]), w)
  {
  }

  /** `write_row` on three values and three widths: the three right-justified cells, two spaces apart. */
  lemma WriteRowLayout(values: seq<string>, widths: seq<nat>)
    requires |values| == 3 && |widths| == 3
    ensures WriteRow(values, widths)
      == RJust(values[0], widths[0]) + "  " + RJust(values[1], widths[1]) + "  " + RJust(values[2], widths[2])
  {
    var cells := seq(3, k requires 0 <= k < 3 => RJust(values[k], widths[k]));
    assert cells == [RJust(values[0], widths[0]), RJust(values[1], widths[1]), RJust(values[2], widths[2])];
    JoinThree(cells[0], cells[1], cells[2], "  ");
  }

  /** When every value fits its width, the line is as long as the widths and the two separators. */
  lemma WriteRowLength(values: seq<string>, widths: seq<nat>)
    requires |values| == 3 && |widths| == 3
    requires |values[0]| <= widths[0] && |values[1]| <= widths[1] && |values[2]| <= widths[2]
    ensures |WriteRow(values, widths)| == widths[0] + widths[1] + widths[2] + 4
  {
    WriteRowLayout(values, widths);
    RJustFacts(values[0], widths[0]);
    RJustFacts(values[1], widths[1]);
    RJustFacts(values[2], widths[2]);
    var a, b, c := RJust(values[0], widths[0]), RJust(values[1], widths[1]), RJust(values[2], widths[2]);
    assert |a| == widths[0] && |b| == widths[1] && |c| == widths[2];
    assert |a + "  " + b + "  " + c| == |a| + |b| + |c| + 4;
  }

  lemma JoinThree(a: string, b: string, c: string, sep: string)
    ensures Join([a, b, c], sep) == a + (sep + (b + (sep + c)))
  {
    JoinTwo(b, c, sep);
    assert [a, b, c][1..] == [b, c];
  }

  lemma JoinTwo(b: string, c: string, sep: string)
    ensures Join([b, c], sep) == b + (sep + c)
  {
    assert [b, c][1..] == [c];
  }

  /** The first two columns are as wide as the longer of their header and the numeral of the total. */
  lemma CountWidth(total: nat, percentOf: nat -> string, k: nat)
    requires k < 2
    ensures Width(Rows(total, percentOf), k) == Max(|Headers[k]|, |NatToString(total)|)
  {
    var rows := Rows(total, percentOf);
    var col := Column(rows, k);
    var top := if k == 0 then total else 0;
    assert col[top] == Cells(rows[top])[k] == NatToString(total);
    MaxLengthAtLeast(|Headers[k]|, col, top);
    forall i | 0 <= i < |col|
      ensures |col[i]| <= Max(|Headers[k]|, |NatToString(total)|)
    {
      CountCellFits(total, percentOf, k, i);
    }
    MaxLengthAtMost(|Headers[k]|, col, Max(|Headers[k]|, |NatToString(total)|));
  }

  /** No count in a column has a longer numeral than the total. */
  lemma CountCellFits(total: nat, percentOf: nat -> string, k: nat, i: nat)
    requires k < 2 && i <= total
    ensures |Column(Rows(total, percentOf), k)[i]| <= |NatToString(total)|
  {
    var r := Rows(total, percentOf)[i];
    if k == 0 {
      assert Column(Rows(total, percentOf), k)[i] == NatToString(r.missed);
      NatToStringMonotone(r.missed, total);
    } else {
      assert Column(Rows(total, percentOf), k)[i] == NatToString(r.correct);
      NatToStringMonotone(r.correct, total);
    }
  }

  /** MaxLength is at least `w` and at least the length of each cell. */
  lemma {:induction false} MaxLengthAtLeast(w: nat, cells: seq<string>, i: nat)
    requires i < |cells|
    ensures w <= MaxLength(w, cells) && |cells[i]| <= MaxLength(w, cells)
  {
    MaxLengthIsMax(w, cells);
    assert cells[i] in cells;
  }

  /** A bound on `w` and on every cell bounds MaxLength. */
  lemma {:induction false} MaxLengthAtMost(w: nat, cells: seq<string>, b: nat)
    requires w <= b && forall i :: 0 <= i < |cells| ==> |cells[i]| <= b
    ensures MaxLength(w, cells) <= b
  {
    if cells != [] {
      MaxLengthAtMost(w, cells[..|cells| - 1], b);
    }
  }

  /**
   * The first two columns are as wide as the longer of their header and the
   * numeral of the total, the largest count; the third is at least as wide
   * as its header and every percentage cell.
   */
  lemma TableWidths(total: nat, percentOf: nat -> string)
    ensures var rows := Rows(total, percentOf);
      && Width(rows, 0) == Max(6, |NatToString(total)|)
      && Width(rows, 1) == Max(7, |NatToString(total)|)
      && Width(rows, 2) >= 7
      && forall i :: 0 <= i < |rows| ==> |rows[i].percent| <= Width(rows, 2)
  {
    var rows := Rows(total, percentOf);
    CountWidth(total, percentOf, 0);
    CountWidth(total, percentOf, 1);
    var col := Column(rows, 2);
    MaxLengthIsMax(|Headers[2]|, col);
    assert forall i :: 0 <= i < |rows| ==> col[i] == rows[i].percent;
  }

  /** Every cell fits its column: the header, the dashes and each row's cells. */
  lemma CellsFit(total: nat, percentOf: nat -> string)
    ensures var rows := Rows(total, percentOf);
      && (forall k :: 0 <= k < 3 ==> |Headers[k]| <= Width(rows, k))
      && (forall i, k :: 0 <= i < |rows| && 0 <= k < 3 ==> |Cells(rows[i])[k]| <= Width(rows, k))
  {
    var rows := Rows(total, percentOf);
    forall k | 0 <= k < 3
      ensures |Headers[k]| <= Width(rows, k)
      ensures forall i :: 0 <= i < |rows| ==> |Cells(rows[i])[k]| <= Width(rows, k)
    {
      var col := Column(rows, k);
      MaxLengthIsMax(|Headers[k]|, col);
      assert forall i :: 0 <= i < |rows| ==> col[i] == Cells(rows[i])[k];
    }
  }

  /** The lines for three widths: each cell right-justified to its column, the cells two spaces apart. */
  lemma LinesShape(rows: seq<Row>, w: seq<nat>)
    requires |w| == 3
    ensures var t := Lines(rows, w);
      && t[0] == RJust("Missed", w[0]) + "  " + RJust("Correct", w[1]) + "  " + RJust("Percent", w[2])
      && t[1] == Repeat('-', w[0]) + "  " + Repeat('-', w[1]) + "  " + Repeat('-', w[2])
      && forall j :: 2 <= j < |t| ==>
           t[j] == RJust(NatToString(rows[j - 2].missed), w[0]) + "  "
                   + RJust(NatToString(rows[j - 2].correct), w[1]) + "  " + RJust(rows[j - 2].percent, w[2])
  {
    var t := Lines(rows, w);
    LinesAt(rows, w);
    WriteRowLayout(Headers, w);
    var dashes := Dashes(w);
    assert RJust(dashes[0], w[0]) == dashes[0] && RJust(dashes[1], w[1]) == dashes[1] && RJust(dashes[2], w[2]) == dashes[2];
    WriteRowLayout(dashes, w);
    forall j | 2 <= j < |t|
      ensures t[j] == RJust(NatToString(rows[j - 2].missed), w[0]) + "  "
                      + RJust(NatToString(rows[j - 2].correct), w[1]) + "  " + RJust(rows[j - 2].percent, w[2])
    {
      WriteRowLayout(Cells(rows[j - 2]), w);
    }
  }

  /** When every cell fits its width, every line is as long as the widths and the two separators. */
  lemma LinesAligned(rows: seq<Row>, w: seq<nat>)
    requires |w| == 3 && 6 <= w[0] && 7 <= w[1] && 7 <= w[2]
    requires forall i :: 0 <= i < |rows| ==>
      |NatToString(rows[i].missed)| <= w[0] && |NatToString(rows[i].correct)| <= w[1] && |rows[i].percent| <= w[2]
    ensures var t := Lines(rows, w);
      forall j :: 0 <= j < |t| ==> |t[j]| == w[0] + w[1] + w[2] + 4
  {
    var t := Lines(rows, w);
    LinesAt(rows, w);
    WriteRowLength(Headers, w);
    var dashes := Dashes(w);
    assert |dashes[0]| == w[0] && |dashes[1]| == w[1] && |dashes[2]| == w[2];
    WriteRowLength(dashes, w);
    forall j | 0 <= j < |t|
      ensures |t[j]| == w[0] + w[1] + w[2] + 4
    {
      if j >= 2 {
        WriteRowLength(Cells(rows[j - 2]), w);
      }
    }
  }

  /**
   * The table's lines: the headers, then dashes as long as each column, then
   * for i missed questions the numeral of i, the numeral of total - i and the
   * percentage for total - i correct answers; each cell right-justified to its
   * column and the cells two spaces apart.
   */
  lemma TableShape(total: nat, percentOf: nat -> string)
    ensures var w := Widths(Rows(total, percentOf));
      var t := Table(total, percentOf);
      && t[0] == RJust("Missed", w[0]) + "  " + RJust("Correct", w[1]) + "  " + RJust("Percent", w[2])
      && t[1] == Repeat('-', w[0]) + "  " + Repeat('-', w[1]) + "  " + Repeat('-', w[2])
      && forall j :: 2 <= j < |t| ==>
           t[j] == RJust(NatToString(j - 2), w[0]) + "  " + RJust(NatToString(total - (j - 2)), w[1]) + "  "
                   + RJust(percentOf(total - (j - 2)), w[2])
  {
    var rows := Rows(total, percentOf);
    LinesShape(rows, Widths(rows));
  }

  /** No cell is cut, so every line of the table is as long as the widths and the two separators. */
  lemma TableAligned(total: nat, percentOf: nat -> string)
    ensures var w := Widths(Rows(total, percentOf));
      var t := Table(total, percentOf);
      forall j :: 0 <= j < |t| ==> |t[j]| == w[0] + w[1] + w[2] + 4
  {
    var rows := Rows(total, percentOf);
    var w := Widths(rows);
    CellsFit(total, percentOf);
    assert 6 <= w[0] && 7 <= w[1] && 7 <= w[2] by {
      assert |Headers[0]| <= Width(rows, 0) && |Headers[1]| <= Width(rows, 1) && |Headers[2]| <= Width(rows, 2);
    }
    forall i | 0 <= i < |rows|
      ensures |NatToString(rows[i].missed)| <= w[0] && |NatToString(rows[i].correct)| <= w[1] && |rows[i].percent| <= w[2]
    {
      var c := Cells(rows[i]);
      assert |c[0]| <= Width(rows, 0) && |c[1]| <= Width(rows, 1) && |c[2]| <= Width(rows, 2);
    }
    LinesAligned(rows, w);
  }

  /**
   * `main` once the argument is parsed as an integer: a total that is not
   * positive gets the message on standard error and exit status 1, and no
   * table; otherwise the table on standard output and status 0.
   */
  method ExamMain(total: int, percentOf: nat -> string) returns (code: int, out: seq<string>, err: seq<string>)
    ensures total <= 0 ==> code == 1 && out == [] && err == [PositiveMessage]
    ensures total > 0 ==> code == 0 && out == Table(total, percentOf) && err == []
  {
    if total <= 0 {
      return 1, [], [PositiveMessage];
    }
    out := PrintTable(total, percentOf);
    return 0, out, [];
  }
}
