/**
 * The table renderer of the task CLI (`make_table` and its inner
 * `format_row` in backend/task-cli/__main__.py).  Cells are strings and
 * lengths count characters, as Python's `len` does; nothing here speaks of
 * how wide a character looks on a terminal.
 */
module TaskCli {

  // ---------------------------------------------------------------------
  // String helpers with Python's meaning
  // ---------------------------------------------------------------------

  /** `c * n` for a one-character string `c`. */
  function Repeat(c: char, n: nat): (r: string)
    ensures |r| == n && forall p :: 0 <= p < n ==> r[p] == c
  {
    seq(n, _ => c)
  }

  /** `s.ljust(width)`: pad on the right with spaces up to `width`; a longer
      string is left as it is. */
  function LeftJustify(s: string, width: nat): (r: string)
    ensures |r| == if |s| < width then width else |s|
    ensures r[..|s|] == s
    ensures forall p :: |s| <= p < |r| ==> r[p] == ' '
  {
    if |s| < width then s + Repeat(' ', width - |s|) else s
  }

  function TotalLength(parts: seq<string>): nat
  {
    if parts == [] then 0 else |parts[0]| + TotalLength(parts[1..])
  }

  /** `sep.join(parts)`. */
  function Join(parts: seq<string>, sep: string): (r: string)
    ensures |r| == TotalLength(parts) + (if parts == [] then 0 else (|parts| - 1) * |sep|)
  {
    if parts == [] then ""
    else if |parts| == 1 then parts[0]
    else parts[0] + sep + Join(parts[1..], sep)
  }

  /** Every character of a join comes from a part or from the separator. */
  lemma {:induction false} JoinUses(parts: seq<string>, sep: string, allowed: set<char>)
    requires forall j, p :: 0 <= j < |parts| && 0 <= p < |parts[j]| ==> parts[j][p] in allowed
    requires forall p :: 0 <= p < |sep| ==> sep[p] in allowed
    ensures forall p :: 0 <= p < |Join(parts, sep)| ==> Join(parts, sep)[p] in allowed
    decreases |parts|
  {
    if |parts| > 1 {
      JoinUses(parts[1..], sep, allowed);
      var rest := Join(parts[1..], sep);
      forall p | 0 <= p < |rest|
        ensures rest[p] in allowed
      {
      }
      var r := parts[0] + sep + rest;
      forall p | 0 <= p < |r|
        ensures r[p] in allowed
      {
        if p < |parts[0]| {
        } else if p < |parts[0]| + |sep| {
        } else {
          assert r[p] == rest[p - |parts[0]| - |sep|];
        }
      }
    }
  }

  /** Two joins of parts of equal lengths, with one-character separators,
      put their separators at the same positions. */
  lemma {:induction false} JoinAligned(parts: seq<string>, other: seq<string>, c: char, d: char, p: nat)
    requires |parts| == |other|
    requires forall j :: 0 <= j < |parts| ==> |parts[j]| == |other[j]|
    requires forall j, q :: 0 <= j < |parts| && 0 <= q < |parts[j]| ==> parts[j][q] != c
    requires p < |Join(parts, [c])| && Join(parts, [c])[p] == c
    ensures |Join(other, [d])| == |Join(parts, [c])|
    ensures Join(other, [d])[p] == d
    decreases |parts|
  {
    TotalsAgree(parts, other);
    if |parts| > 1 {
      var first := |parts[0]|;
      assert Join(parts, [c]) == parts[0] + [c] + Join(parts[1..], [c]);
      assert Join(other, [d]) == other[0] + [d] + Join(other[1..], [d]);
      if p > first {
        assert Join(parts, [c])[p] == Join(parts[1..], [c])[p - first - 1];
        JoinAligned(parts[1..], other[1..], c, d, p - first - 1);
      }
    }
  }

  /** Where part `j` begins in `Join(parts, sep)`: after the parts before it
      and one separator behind each of them. */
  function Offset(parts: seq<string>, sep: string, j: nat): nat
    requires j <= |parts|
  {
    TotalLength(parts[..j]) + j * |sep|
  }

  /** Each part sits at its offset, followed by a separator, except the last
      one, which ends the join. */
  lemma {:induction false} JoinAt(parts: seq<string>, sep: string, j: nat)
    requires j < |parts|
    ensures Offset(parts, sep, j) + |parts[j]| <= |Join(parts, sep)|
    ensures Join(parts, sep)[Offset(parts, sep, j) .. Offset(parts, sep, j) + |parts[j]|] == parts[j]
    ensures j < |parts| - 1 ==>
              && Offset(parts, sep, j) + |parts[j]| + |sep| <= |Join(parts, sep)|
              && Join(parts, sep)[Offset(parts, sep, j) + |parts[j]| .. Offset(parts, sep, j) + |parts[j]| + |sep|] == sep
    ensures j == |parts| - 1 ==> Offset(parts, sep, j) + |parts[j]| == |Join(parts, sep)|
    decreases j
  {
    var first := parts[0] + sep;
    if |parts| == 1 {
      assert parts[..0] == [];
    } else if j == 0 {
      assert parts[..0] == [];
      assert Join(parts, sep) == first + Join(parts[1..], sep);
      SliceOfFront(first, Join(parts[1..], sep), 0, |parts[0]|);
      SliceOfFront(first, Join(parts[1..], sep), |parts[0]|, |first|);
    } else {
      var rest := parts[1..];
      var o := Offset(rest, sep, j - 1);
      JoinAt(rest, sep, j - 1);
      OffsetShift(parts, sep, j);
      assert Join(parts, sep) == first + Join(rest, sep);
      SliceOfBack(first, Join(rest, sep), |first| + o, |first| + o + |parts[j]|);
      if j < |parts| - 1 {
        SliceOfBack(first, Join(rest, sep), |first| + o + |parts[j]|, |first| + o + |parts[j]| + |sep|);
      }
    }
  }

  lemma SliceOfFront(a: string, b: string, lo: nat, hi: nat)
    requires lo <= hi <= |a|
    ensures (a + b)[lo .. hi] == a[lo .. hi]
  {
  }

  lemma SliceOfBack(a: string, b: string, lo: nat, hi: nat)
    requires |a| <= lo <= hi <= |a| + |b|
    ensures (a + b)[lo .. hi] == b[lo - |a| .. hi - |a|]
  {
  }

  /** The offset of part `j` is the first part and one separator further on
      than the offset of part `j - 1` among the remaining parts. */
  lemma OffsetShift(parts: seq<string>, sep: string, j: nat)
    requires 0 < j <= |parts|
    ensures Offset(parts, sep, j) == |parts[0]| + |sep| + Offset(parts[1..], sep, j - 1)
  {
    assert parts[..j][0] == parts[0];
    assert parts[..j][1..] == parts[1..][..j - 1];
    assert j * |sep| == |sep| + (j - 1) * |sep|;
  }

  /** A line `c + c.join(parts) + c`, for a one-character `c` written as
      the string `sep`, holds each part at one past its offset in the join,
      followed by `c`; the last part ends just before the closing `c`. */
  lemma FramedAt(parts: seq<string>, sep: string, c: char, j: nat)
    requires sep == [c] && j < |parts|
    ensures var line := sep + Join(parts, sep) + sep;
            var o := 1 + Offset(parts, sep, j);
            && o + |parts[j]| < |line|
            && line[o .. o + |parts[j]|] == parts[j]
            && line[o + |parts[j]|] == c
            && (j == |parts| - 1 ==> o + |parts[j]| == |line| - 1)
  {
    var joined := Join(parts, sep);
    var line := sep + joined + sep;
    var o := Offset(parts, sep, j);
    JoinAt(parts, sep, j);
    assert line[1 + o .. 1 + o + |parts[j]|] == joined[o .. o + |parts[j]|];
    if j < |parts| - 1 {
      assert line[1 + o + |parts[j]|] == joined[o + |parts[j]| .. o + |parts[j]| + 1][0];
    }
  }

  /** `FramedAt` for every part at once. */
  lemma FramedLayout(parts: seq<string>, sep: string, c: char)
    requires sep == [c]
    ensures parts == [] ==> sep + Join(parts, sep) + sep == [c, c]
    ensures forall j :: 0 <= j < |parts| ==>
              var line := sep + Join(parts, sep) + sep;
              var o := 1 + Offset(parts, sep, j);
              && o + |parts[j]| < |line|
              && line[o .. o + |parts[j]|] == parts[j]
              && line[o + |parts[j]|] == c
              && (j == |parts| - 1 ==> o + |parts[j]| == |line| - 1)
  {
    forall j | 0 <= j < |parts|
      ensures var line := sep + Join(parts, sep) + sep;
              var o := 1 + Offset(parts, sep, j);
              && o + |parts[j]| < |line|
              && line[o .. o + |parts[j]|] == parts[j]
              && line[o + |parts[j]|] == c
              && (j == |parts| - 1 ==> o + |parts[j]| == |line| - 1)
    {
      FramedAt(parts, sep, c, j);
    }
  }

  /** Where line `i` begins when every line has length `len` and one
      separator character follows each. */
  function LineStart(i: nat, len: nat): nat
  {
    i * (len + 1)
  }

  /** Lines of one length `len` joined by a one-character separator: line
      `i` starts at `LineStart(i, len)` and is followed by the separator unless
      it is the last. */
  lemma UniformJoinAt(lines: seq<string>, sep: string, c: char, len: nat, i: nat)
    requires sep == [c]
    requires forall k :: 0 <= k < |lines| ==> |lines[k]| == len
    requires i < |lines|
    ensures LineStart(i, len) + len <= |Join(lines, sep)|
    ensures Join(lines, sep)[LineStart(i, len) .. LineStart(i, len) + len] == lines[i]
    ensures i < |lines| - 1 ==> LineStart(i, len) + len < |Join(lines, sep)| && Join(lines, sep)[LineStart(i, len) + len] == c
  {
    var joined := Join(lines, sep);
    UniformTotal(lines[..i], len);
    assert Offset(lines, sep, i) == i * len + i;
    assert i * (len + 1) == i * len + i;
    JoinAt(lines, sep, i);
    if i < |lines| - 1 {
      var o := LineStart(i, len) + len;
      assert joined[o] == joined[o .. o + 1][0];
    }
  }

  /** `UniformJoinAt` for every line at once. */
  lemma UniformJoinLayout(lines: seq<string>, sep: string, c: char, len: nat)
    requires sep == [c]
    requires forall k :: 0 <= k < |lines| ==> |lines[k]| == len
    ensures forall i :: 0 <= i < |lines| ==>
              && LineStart(i, len) + len <= |Join(lines, sep)|
              && Join(lines, sep)[LineStart(i, len) .. LineStart(i, len) + len] == lines[i]
              && (i < |lines| - 1 ==> LineStart(i, len) + len < |Join(lines, sep)| && Join(lines, sep)[LineStart(i, len) + len] == c)
  {
    forall i | 0 <= i < |lines|
      ensures && LineStart(i, len) + len <= |Join(lines, sep)|
              && Join(lines, sep)[LineStart(i, len) .. LineStart(i, len) + len] == lines[i]
              && (i < |lines| - 1 ==> LineStart(i, len) + len < |Join(lines, sep)| && Join(lines, sep)[LineStart(i, len) + len] == c)
    {
      UniformJoinAt(lines, sep, c, len, i);
    }
  }

  lemma {:induction false} TotalsAgree(parts: seq<string>, other: seq<string>)
    requires |parts| == |other|
    requires forall j :: 0 <= j < |parts| ==> |parts[j]| == |other[j]|
    ensures TotalLength(parts) == TotalLength(other)
  {
    if parts != [] {
      TotalsAgree(parts[1..], other[1..]);
    }
  }

  // ---------------------------------------------------------------------
  // Columns
  // ---------------------------------------------------------------------

  /** The number of tuples `zip(headers, *rows)` yields: the shortest of the
      header row and the data rows. */
  function ColumnCount(headers: seq<string>, rows: seq<seq<string>>): (n: nat)
    ensures n <= |headers| && forall i :: 0 <= i < |rows| ==> n <= |rows[i]|
    ensures n == |headers| || exists i :: 0 <= i < |rows| && n == |rows[i]|
    decreases |rows|
  {
    if rows == [] then |headers|
    else
      var m := ColumnCount(headers, rows[..|rows| - 1]);
      var last := |rows[|rows| - 1]|;
      if last < m then last else m
  }

  /** `max(len(item) for item in col)` for column `j`, header included. */
  function ColumnWidth(headers: seq<string>, rows: seq<seq<string>>, j: nat): (w: nat)
    requires j < |headers| && forall i :: 0 <= i < |rows| ==> j < |rows[i]|
    ensures |headers[j]| <= w && forall i :: 0 <= i < |rows| ==> |rows[i][j]| <= w
    ensures w == |headers[j]| || exists i :: 0 <= i < |rows| && w == |rows[i][j]|
    decreases |rows|
  {
    if rows == [] then |headers[j]|
    else
      var w := ColumnWidth(headers, rows[..|rows| - 1], j);
      var last := |rows[|rows| - 1][j]|;
      if w < last then last else w
  }

  /** `col_widths`: one width per column, each the longest cell of its
      column, header included. */
  function ColumnWidths(headers: seq<string>, rows: seq<seq<string>>): (widths: seq<nat>)
    ensures |widths| == ColumnCount(headers, rows)
    ensures forall j :: 0 <= j < |widths| ==>
              && |headers[j]| <= widths[j]
              && (forall i :: 0 <= i < |rows| ==> |rows[i][j]| <= widths[j])
              && (widths[j] == |headers[j]| || exists i :: 0 <= i < |rows| && widths[j] == |rows[i][j]|)
  {
    var n := ColumnCount(headers, rows);
    seq(n, j requires 0 <= j < n => ColumnWidth(headers, rows, j))
  }

  function SumWidths(widths: seq<nat>): nat
  {
    if widths == [] then 0 else widths[0] + SumWidths(widths[1..])
  }

  /** The length of every line of the table: each column takes its width,
      two spaces of padding and one delimiter, and one delimiter closes the
      line (`sum(w + 3) + 1`); with no columns at all a line is just its two
      delimiters. */
  function LineLength(widths: seq<nat>): nat
  {
    if widths == [] then 2 else SumWidths(widths) + 3 * |widths| + 1
  }

  /** Parts two characters longer than their widths add up accordingly. */
  lemma {:induction false} PaddedTotal(parts: seq<string>, widths: seq<nat>)
    requires |parts| == |widths|
    requires forall j :: 0 <= j < |parts| ==> |parts[j]| == widths[j] + 2
    ensures TotalLength(parts) == SumWidths(widths) + 2 * |widths|
  {
    if parts != [] {
      PaddedTotal(parts[1..], widths[1..]);
    }
  }

  /** A line opened and closed by `delim` around `parts` joined by `delim`
      has length `LineLength` when each part is its width plus two. */
  lemma FramedLength(parts: seq<string>, widths: seq<nat>, delim: char)
    requires |parts| == |widths|
    requires forall j :: 0 <= j < |parts| ==> |parts[j]| == widths[j] + 2
    ensures |[delim] + Join(parts, [delim]) + [delim]| == LineLength(widths)
  {
    PaddedTotal(parts, widths);
  }

  // ---------------------------------------------------------------------
  // Lines
  // ---------------------------------------------------------------------

  /** `"-" * (w + 2)` for each column. */
  function Dashes(widths: seq<nat>): (dashes: seq<string>)
    ensures |dashes| == |widths|
    ensures forall j :: 0 <= j < |widths| ==> |dashes[j]| == widths[j] + 2
    ensures forall j, q :: 0 <= j < |widths| && 0 <= q < |dashes[j]| ==> dashes[j][q] == '-'
  {
    seq(|widths|, j requires 0 <= j < |widths| => Repeat('-', widths[j] + 2))
  }

  /** `border`: `+`, then each column's dashes followed by `+`. */
  function Border(widths: seq<nat>): (border: string)
    ensures |border| == LineLength(widths)
    ensures border[0] == '+' && border[|border| - 1] == '+'
    ensures forall p :: 0 <= p < |border| ==> border[p] == '+' || border[p] == '-'
  {
    var dashes := Dashes(widths);
    FramedLength(dashes, widths, '+');
    JoinUses(dashes, "+", {'+', '-'});
    "+" + Join(dashes, "+") + "+"
  }

  /** Where each column's dashes sit in the border: column `j`'s `w + 2`
      dashes begin one past their offset in the `+`-join and are followed by
      `+`, and the last column's `+` ends the line; with no columns the
      border is `++`. */
  lemma BorderLayout(widths: seq<nat>)
    ensures widths == [] ==> Border(widths) == "++"
    ensures forall j :: 0 <= j < |widths| ==>
              var o := 1 + Offset(Dashes(widths), "+", j);
              && o + widths[j] + 2 < |Border(widths)|
              && Border(widths)[o .. o + widths[j] + 2] == Dashes(widths)[j]
              && Border(widths)[o + widths[j] + 2] == '+'
              && (j == |widths| - 1 ==> o + widths[j] + 2 == |Border(widths)| - 1)
  {
    var dashes := Dashes(widths);
    assert Border(widths) == "+" + Join(dashes, "+") + "+";
    FramedLayout(dashes, "+", '+');
  }

  /** `f" {item.ljust(w)} "`: one cell, padded to its column's width with a
      space on either side. */
  function Cell(item: string, width: nat): (segment: string)
    ensures |segment| >= |item| + 2
    ensures |segment| == (if |item| < width then width else |item|) + 2
    ensures |item| <= width ==> |segment| == width + 2
    ensures segment[..|item| + 1] == " " + item
    ensures forall p :: |item| + 1 <= p < |segment| ==> segment[p] == ' '
  {
    var padded := LeftJustify(item, width);
    assert (" " + padded)[1..|item| + 1] == padded[..|item|];
    " " + padded + " "
  }

  /** The cells of `zip(row, col_widths)`: as many as the shorter of the two. */
  function Cells(row: seq<string>, widths: seq<nat>): (cells: seq<string>)
    ensures |cells| == if |row| < |widths| then |row| else |widths|
    ensures forall j :: 0 <= j < |cells| ==> cells[j] == Cell(row[j], widths[j])
  {
    var n := if |row| < |widths| then |row| else |widths|;
    seq(n, j requires 0 <= j < n => Cell(row[j], widths[j]))
  }

  /** The row has a cell for every column and none longer than its
      column's width. */
  ghost predicate Fits(row: seq<string>, widths: seq<nat>)
  {
    |widths| <= |row| && forall j :: 0 <= j < |widths| ==> |row[j]| <= widths[j]
  }

  /** `format_row(row)`: the cells between `|` delimiters. */
  function FormatRow(row: seq<string>, widths: seq<nat>): (line: string)
    ensures |line| >= 2
    ensures line[0] == '|' && line[|line| - 1] == '|'
    ensures Fits(row, widths) ==> |line| == LineLength(widths)
  {
    var cells := Cells(row, widths);
    CellsLength(row, widths);
    "|" + Join(cells, "|") + "|"
  }

  /** Where each cell sits in a rendered row: cell `j` begins one past its
      offset in the `|`-join and is followed by `|`, and the last cell's `|`
      ends the line; with no cells the row is `||`. */
  lemma RowLayout(row: seq<string>, widths: seq<nat>)
    ensures Cells(row, widths) == [] ==> FormatRow(row, widths) == "||"
    ensures forall j :: 0 <= j < |Cells(row, widths)| ==>
              var o := 1 + Offset(Cells(row, widths), "|", j);
              && o + |Cells(row, widths)[j]| < |FormatRow(row, widths)|
              && FormatRow(row, widths)[o .. o + |Cells(row, widths)[j]|] == Cells(row, widths)[j]
              && FormatRow(row, widths)[o + |Cells(row, widths)[j]|] == '|'
              && (j == |Cells(row, widths)| - 1 ==> o + |Cells(row, widths)[j]| == |FormatRow(row, widths)| - 1)
  {
    var cells := Cells(row, widths);
    assert FormatRow(row, widths) == "|" + Join(cells, "|") + "|";
    FramedLayout(cells, "|", '|');
  }

  lemma CellsLength(row: seq<string>, widths: seq<nat>)
    ensures Fits(row, widths) ==> |"|" + Join(Cells(row, widths), "|") + "|"| == LineLength(widths)
  {
    if Fits(row, widths) {
      FramedLength(Cells(row, widths), widths, '|');
    }
  }

  /** Every row, the header row included, fits the columns: it has at least
      as many cells as there are columns and no cell is longer than its
      column's width, so every rendered row has the border's length. */
  lemma RowsFit(headers: seq<string>, rows: seq<seq<string>>)
    ensures Fits(headers, ColumnWidths(headers, rows))
    ensures forall i :: 0 <= i < |rows| ==> Fits(rows[i], ColumnWidths(headers, rows))
  {
  }

  /** The grid lines up: wherever the border has a `+`, a row rendered to
      the same widths has a `|`. */
  lemma GridAligned(row: seq<string>, widths: seq<nat>, p: nat)
    requires Fits(row, widths)
    requires p < |Border(widths)| && Border(widths)[p] == '+'
    ensures p < |FormatRow(row, widths)| && FormatRow(row, widths)[p] == '|'
  {
    if 0 < p < |Border(widths)| - 1 {
      var dashes := Dashes(widths);
      var cells := Cells(row, widths);
      BorderInside(widths, p);
      CellsMatchDashes(row, widths);
      JoinAligned(dashes, cells, '+', '|', p - 1);
      RowInside(row, widths, p);
    }
  }

  /** Inside its end delimiters, the border is the dashes joined by `+`. */
  lemma BorderInside(widths: seq<nat>, p: nat)
    requires 0 < p < |Border(widths)| - 1
    ensures p - 1 < |Join(Dashes(widths), "+")|
    ensures Border(widths)[p] == Join(Dashes(widths), "+")[p - 1]
  {
  }

  /** Inside its end delimiters, a row is its cells joined by `|`. */
  lemma RowInside(row: seq<string>, widths: seq<nat>, p: nat)
    requires 0 < p < |FormatRow(row, widths)| - 1
    ensures FormatRow(row, widths)[p] == Join(Cells(row, widths), "|")[p - 1]
  {
  }

  /** A fitting row has one cell per column, each as long as that column's
      dashes, and the dashes hold no `+`. */
  lemma CellsMatchDashes(row: seq<string>, widths: seq<nat>)
    requires Fits(row, widths)
    ensures |Dashes(widths)| == |Cells(row, widths)|
    ensures forall j :: 0 <= j < |widths| ==> |Dashes(widths)[j]| == |Cells(row, widths)[j]|
    ensures forall j, q :: 0 <= j < |widths| && 0 <= q < |Dashes(widths)[j]| ==> Dashes(widths)[j][q] != '+'
  {
  }

  // ---------------------------------------------------------------------
  // The table
  // ---------------------------------------------------------------------

  /** The list `table` before it is joined: border, header row, border, one
      line per data row, border; every line has the same length. */
  function TableLines(headers: seq<string>, rows: seq<seq<string>>): (lines: seq<string>)
    ensures |lines| == |rows| + 4
    ensures var border := Border(ColumnWidths(headers, rows));
            lines[0] == border && lines[2] == border && lines[|lines| - 1] == border
    ensures lines[1] == FormatRow(headers, ColumnWidths(headers, rows))
    ensures forall i :: 0 <= i < |rows| ==> lines[i + 3] == FormatRow(rows[i], ColumnWidths(headers, rows))
    ensures forall i :: 0 <= i < |lines| ==> |lines[i]| == LineLength(ColumnWidths(headers, rows))
  {
    var widths := ColumnWidths(headers, rows);
    var border := Border(widths);
    var body := seq(|rows|, i requires 0 <= i < |rows| => FormatRow(rows[i], widths));
    RowsFit(headers, rows);
    Framed(border, FormatRow(headers, widths), body, LineLength(widths))
  }

  /** Border, header row, border, body lines, border. */
  function Framed(border: string, header: string, body: seq<string>, len: nat): (lines: seq<string>)
    requires |border| == len && |header| == len
    requires forall i :: 0 <= i < |body| ==> |body[i]| == len
    ensures |lines| == |body| + 4
    ensures lines[0] == border && lines[1] == header && lines[2] == border && lines[|lines| - 1] == border
    ensures forall i :: 0 <= i < |body| ==> lines[i + 3] == body[i]
    ensures forall i :: 0 <= i < |lines| ==> |lines[i]| == len
  {
    [border, header, border] + body + [border]
  }

  /** Lines of one common length add up to that length times their number. */
  lemma {:induction false} UniformTotal(lines: seq<string>, len: nat)
    requires forall i :: 0 <= i < |lines| ==> |lines[i]| == len
    ensures TotalLength(lines) == |lines| * len
  {
    if lines != [] {
      UniformTotal(lines[1..], len);
    }
  }

  /** `make_table(headers, rows)`: the lines joined by newlines. */
  function MakeTable(headers: seq<string>, rows: seq<seq<string>>): (table: string)
    ensures |table| == (|rows| + 4) * LineLength(ColumnWidths(headers, rows)) + |rows| + 3
  {
    var lines := TableLines(headers, rows);
    UniformTotal(lines, LineLength(ColumnWidths(headers, rows)));
    Join(lines, "\n")
  }

  /** Where each line sits in the table: every line has the length `L` of
      the border, so line `i` begins at `i * (L + 1)`, and every line but
      the last is followed by a newline. */
  lemma TableLayout(headers: seq<string>, rows: seq<seq<string>>)
    ensures var L := LineLength(ColumnWidths(headers, rows));
            forall i :: 0 <= i < |rows| + 4 ==>
              && LineStart(i, L) + L <= |MakeTable(headers, rows)|
              && MakeTable(headers, rows)[LineStart(i, L) .. LineStart(i, L) + L] == TableLines(headers, rows)[i]
              && (i < |rows| + 3 ==> LineStart(i, L) + L < |MakeTable(headers, rows)| && MakeTable(headers, rows)[LineStart(i, L) + L] == '\n')
  {
    var L := LineLength(ColumnWidths(headers, rows));
    var lines := TableLines(headers, rows);
    var table := MakeTable(headers, rows);
    assert table == Join(lines, "\n");
    UniformJoinLayout(lines, "\n", '\n', L);
  }
}
