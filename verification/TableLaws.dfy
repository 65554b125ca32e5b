/** Pipe tables printed into a body come out of the rendering as the rows they were printed from. */
module TableLaws {
  import opened Text
  import opened ReportMarkers
  import opened ReportRendering
  import opened ReportText
  import opened BlockLaws

  // ---------------------------------------------------------------- one row

  predicate IsCell(cell: string) {
    VisibleEnds(cell) && forall k :: 0 <= k < |cell| ==> cell[k] != '|' && !IsLineBreak(cell[k])
  }

  predicate AreCells(cells: seq<string>) {
    cells != [] && forall i :: 0 <= i < |cells| ==> IsCell(cells[i])
  }

  function PrintedCells(cells: seq<string>): string {
    " " + Join(" | ", cells) + " "
  }

  function PrintedRow(cells: seq<string>): string {
    "|" + PrintedCells(cells) + "|"
  }

  function Pad(cells: seq<string>): seq<string> {
    seq(|cells|, i requires 0 <= i < |cells| => " " + cells[i] + " ")
  }

  lemma {:induction false} SplitFirst(part: string, rest: string, i: nat)
    requires i <= |part| && '|' !in part
    ensures SplitPipes(part + ("|" + rest), i) == [part] + SplitPipes(rest, 0)
    decreases |part| - i
  {
    var s := part + ("|" + rest);
    if i == |part| {
      assert s[..i] == part && s[i + 1..] == rest;
    } else {
      assert s[i] == part[i] && part[i] in part;
      SplitFirst(part, rest, i + 1);
    }
  }

  lemma {:induction false} SplitOnly(part: string, i: nat)
    requires i <= |part| && '|' !in part
    ensures SplitPipes(part, i) == [part]
    decreases |part| - i
  {
    if i < |part| {
      assert part[i] in part;
      SplitOnly(part, i + 1);
    }
  }

  lemma CellHasNoPipe(cell: string)
    requires IsCell(cell)
    ensures '|' !in " " + cell + " "
  {
  }

  lemma UnfoldPrinted(cells: seq<string>)
    requires |cells| > 1
    ensures PrintedCells(cells) == (" " + cells[0] + " ") + ("|" + PrintedCells(cells[1..]))
    ensures Pad(cells) == [" " + cells[0] + " "] + Pad(cells[1..])
  {
    assert cells[0] + " | " == cells[0] + " " + "|" + " ";
  }

  lemma {:induction false} PrintedSplit(cells: seq<string>)
    requires AreCells(cells)
    ensures SplitPipes(PrintedCells(cells), 0) == Pad(cells)
  {
    hide IsCell, SplitPipes;
    CellHasNoPipe(cells[0]);
    if |cells| == 1 {
      assert PrintedCells(cells) == " " + cells[0] + " ";
      SplitOnly(" " + cells[0] + " ", 0);
    } else {
      hide PrintedCells, Pad;
      UnfoldPrinted(cells);
      SplitFirst(" " + cells[0] + " ", PrintedCells(cells[1..]), 0);
      PrintedSplit(cells[1..]);
    }
  }

  lemma BlankIsSpace()
    ensures AllSpace(" ") && !IsSpace('|')
  {
  }

  lemma PrintedEnds(cells: seq<string>)
    ensures var row, inner := PrintedRow(cells), PrintedCells(cells);
      && |inner| >= 2 && inner[0] == ' ' && inner[|inner| - 1] == ' '
      && |row| == |inner| + 2 && row[0] == '|' && row[|row| - 1] == '|'
      && row[1..] == inner + "|" && (inner + "|")[..|inner|] == inner
  {
    hide Join;
  }

  lemma PrintedVisible(cells: seq<string>)
    ensures PrintedRow(cells) != "" && Strip(PrintedRow(cells)) == PrintedRow(cells)
  {
    PrintedEnds(cells);
    BlankIsSpace();
    hide IsSpace, PrintedRow, PrintedCells, Strip;
    StripVisible(PrintedRow(cells));
  }

  lemma NoPipes(s: string)
    requires s != "" && s[0] != '|' && s[|s| - 1] != '|'
    ensures StripPipes(s) == s
  {
  }

  lemma OnePipeEach(s: string)
    requires s != "" && s[0] != '|' && s[|s| - 1] != '|'
    ensures StripPipes("|" + s + "|") == s && WithoutEndPipes("|" + s + "|") == s
  {
    var row := "|" + s + "|";
    assert row[1..] == s + "|" && (s + "|")[..|s|] == s && (s + "|")[0] == s[0];
    NoPipes(s);
    assert StripPipes(s + "|") == StripPipes((s + "|")[..|s + "|"| - 1]);
  }

  lemma PrintedInner(cells: seq<string>)
    ensures StripPipes(PrintedRow(cells)) == PrintedCells(cells)
    ensures WithoutEndPipes(PrintedRow(cells)) == PrintedCells(cells)
  {
    PrintedEnds(cells);
    hide StripPipes, WithoutEndPipes, PrintedCells;
    OnePipeEach(PrintedCells(cells));
  }

  lemma PaddedCell(cells: seq<string>, i: nat)
    requires AreCells(cells) && i < |cells|
    ensures Strip(Pad(cells)[i]) == cells[i]
  {
    hide Strip, VisibleEnds, AllSpace;
    BlankIsSpace();
    assert VisibleEnds(cells[i]) by { assert IsCell(cells[i]); }
    StripPadded(" ", cells[i], " ");
  }

  /** A printed row is read cell by cell. */
  lemma CellsPrinted(cells: seq<string>)
    requires AreCells(cells)
    ensures Cells(PrintedRow(cells)) == cells
  {
    hide Strip, StripPipes, SplitPipes, PrintedRow, PrintedCells, AreCells, Pad;
    PrintedVisible(cells);
    PrintedInner(cells);
    PrintedSplit(cells);
    PadLength(cells);
    forall i | 0 <= i < |cells| ensures Strip(Pad(cells)[i]) == cells[i] {
      PaddedCell(cells, i);
    }
  }

  lemma PadLength(cells: seq<string>)
    ensures |Pad(cells)| == |cells|
  {
  }

  // ---------------------------------------------------------------- separator rows

  function Dashes(left: bool, n: nat, right: bool): string {
    (if left then ":" else "") + seq(n, _ => '-') + (if right then ":" else "")
  }

  ghost predicate AreDashes(s: string) {
    exists left, n: nat, right :: n >= 2 && s == Dashes(left, n, right)
  }

  lemma DashesAre(left: bool, n: nat, right: bool)
    requires n >= 2
    ensures IsDashes(Dashes(left, n, right))
  {
    var s := Dashes(left, n, right);
    var a := if left then 1 else 0;
    assert forall k :: a <= k < a + n ==> s[k] == '-';
  }

  lemma DashesFound(s: string)
    requires IsDashes(s)
    ensures AreDashes(s)
  {
    var a := if s != "" && s[0] == ':' then 1 else 0;
    var b := if |s| > a && s[|s| - 1] == ':' then |s| - 1 else |s|;
    assert s == Dashes(a == 1, b - a, b < |s|);
  }

  /** A separator cell is two dashes or more, with a colon at either end or not. */
  lemma DashesExact(s: string)
    ensures IsDashes(s) <==> AreDashes(s)
  {
    hide IsDashes, Dashes;
    if IsDashes(s) {
      DashesFound(s);
    }
    if left, n: nat, right :| n >= 2 && s == Dashes(left, n, right) {
      DashesAre(left, n, right);
    }
  }

  ghost predicate IsRuler(cells: seq<string>) {
    forall i :: 0 <= i < |cells| ==> AreDashes(cells[i])
  }

  /** A printed row separates the head of a table if and only if all its cells are dashes. */
  lemma RulerPrinted(cells: seq<string>)
    requires AreCells(cells)
    ensures IsSeparatorRow(PrintedRow(cells)) <==> IsRuler(cells)
  {
    hide Strip, WithoutEndPipes, SplitPipes, PrintedRow, PrintedCells, AreCells, Pad, IsDashes, AreDashes;
    PrintedInner(cells);
    PrintedSplit(cells);
    PadLength(cells);
    forall i | 0 <= i < |cells| ensures IsDashes(Strip(Pad(cells)[i])) <==> AreDashes(cells[i]) {
      PaddedCell(cells, i);
      DashesExact(cells[i]);
    }
  }

  // ---------------------------------------------------------------- a printed table

  function PrintedRows(rows: seq<seq<string>>): (lines: seq<string>)
    ensures |lines| == |rows|
  {
    seq(|rows|, i requires 0 <= i < |rows| => PrintedRow(rows[i]))
  }

  function PrintedTable(rows: seq<seq<string>>): string {
    Join("\n", PrintedRows(rows))
  }

  ghost function WithoutRulers(rows: seq<seq<string>>): seq<seq<string>> {
    if rows == [] then []
    else (if IsRuler(rows[0]) then [] else [rows[0]]) + WithoutRulers(rows[1..])
  }

  predicate AreRows(rows: seq<seq<string>>) {
    rows != [] && forall i :: 0 <= i < |rows| ==> AreCells(rows[i])
  }

  predicate NoLineBreak(s: string) {
    forall k :: 0 <= k < |s| ==> !IsLineBreak(s[k])
  }

  lemma NoLineBreakConcat(a: string, b: string)
    requires NoLineBreak(a) && NoLineBreak(b)
    ensures NoLineBreak(a + b)
  {
    hide IsLineBreak;
  }

  lemma PrintedMarks()
    ensures NoLineBreak(" ") && NoLineBreak("|") && NoLineBreak(" | ") && IsLineBreak('\n')
  {
  }

  lemma CellIsLine(cell: string)
    requires IsCell(cell)
    ensures NoLineBreak(cell)
  {
    hide IsLineBreak;
  }

  lemma {:induction false} JoinIsLine(cells: seq<string>)
    requires AreCells(cells)
    ensures NoLineBreak(Join(" | ", cells))
  {
    hide IsCell, NoLineBreak;
    PrintedMarks();
    CellIsLine(cells[0]);
    if |cells| > 1 {
      JoinIsLine(cells[1..]);
      NoLineBreakConcat(cells[0], " | ");
      NoLineBreakConcat(cells[0] + " | ", Join(" | ", cells[1..]));
    }
  }

  lemma RowIsLine(cells: seq<string>)
    requires AreCells(cells)
    ensures NoLineBreak(PrintedRow(cells)) && !AllSpace(PrintedRow(cells))
  {
    hide NoLineBreak, AreCells, Join;
    PrintedMarks();
    JoinIsLine(cells);
    NoLineBreakConcat(" ", Join(" | ", cells));
    NoLineBreakConcat(" " + Join(" | ", cells), " ");
    NoLineBreakConcat("|", PrintedCells(cells));
    NoLineBreakConcat("|" + PrintedCells(cells), "|");
    BlankIsSpace();
    hide IsSpace;
    assert PrintedRow(cells)[0] == '|';
  }

  lemma {:induction false} LineFirst(line: string, rest: string, i: nat)
    requires i <= |line| && NoLineBreak(line) && !AllSpace(line)
    ensures Lines(line + ("\n" + rest), i) == [line] + Lines(rest, 0)
    decreases |line| - i
  {
    var s := line + ("\n" + rest);
    PrintedMarks();
    hide IsLineBreak, AllSpace;
    if i == |line| {
      assert s[i] == '\n' && s[..i] == line && s[i + 1..] == rest;
    } else {
      assert s[i] == line[i];
      LineFirst(line, rest, i + 1);
    }
  }

  lemma {:induction false} LineOnly(line: string, i: nat)
    requires i <= |line| && NoLineBreak(line) && !AllSpace(line)
    ensures Lines(line, i) == [line]
    decreases |line| - i
  {
    hide IsLineBreak, AllSpace;
    if i < |line| {
      LineOnly(line, i + 1);
    }
  }

  lemma {:induction false} LinesJoined(lines: seq<string>)
    requires lines != [] && forall i :: 0 <= i < |lines| ==> NoLineBreak(lines[i]) && !AllSpace(lines[i])
    ensures Lines(Join("\n", lines), 0) == lines
  {
    hide NoLineBreak, AllSpace, Lines;
    if |lines| == 1 {
      LineOnly(lines[0], 0);
    } else {
      var rest := Join("\n", lines[1..]);
      assert Join("\n", lines) == lines[0] + ("\n" + rest);
      LineFirst(lines[0], rest, 0);
      LinesJoined(lines[1..]);
    }
  }

  lemma RowIsPiped(cells: seq<string>)
    ensures IsTableLine(PrintedRow(cells))
  {
    PrintedVisible(cells);
    PrintedEnds(cells);
    hide Strip, PrintedRow, PrintedCells;
  }

  lemma {:induction false} RulersDropped(rows: seq<seq<string>>)
    requires forall i :: 0 <= i < |rows| ==> AreCells(rows[i])
    ensures CellRows(DropSeparators(PrintedRows(rows))) == WithoutRulers(rows)
  {
    hide AreCells, PrintedRow, IsSeparatorRow, Cells, IsRuler, Strip;
    if rows != [] {
      RulersDropped(rows[1..]);
      assert PrintedRows(rows)[1..] == PrintedRows(rows[1..]);
      RulerPrinted(rows[0]);
      CellsPrinted(rows[0]);
      PrintedVisible(rows[0]);
      var rest := DropSeparators(PrintedRows(rows[1..]));
      if IsRuler(rows[0]) {
        assert [] + rest == rest;
      } else {
        assert ([PrintedRow(rows[0])] + rest)[1..] == rest;
      }
    }
  }

  /** A printed table is rendered as a table, and its HTML read back gives the rows, without those of dashes. */
  lemma PrintedTableReadsBack(rows: seq<seq<string>>)
    requires AreRows(rows)
    ensures IsTable(PrintedTable(rows))
    ensures ReadTable(BlockHtml(PrintedTable(rows)), [], []) == WithoutRulers(rows)
  {
    hide AreCells, PrintedRow, IsTable, IsTableLine, Lines, TableRows, Shows, BlockHtml, ReadTable, NoLineBreak, Join,
      DropSeparators, CellRows, WithoutRulers;
    var lines := PrintedRows(rows);
    forall i | 0 <= i < |lines| ensures NoLineBreak(lines[i]) && !AllSpace(lines[i]) && IsTableLine(lines[i]) {
      RowIsLine(rows[i]);
      RowIsPiped(rows[i]);
    }
    LinesJoined(lines);
    TableLines(PrintedTable(rows));
    RulersDropped(rows);
    BlockReadsBack(PrintedTable(rows));
    ShownTable(PrintedTable(rows), BlockHtml(PrintedTable(rows)));
  }

  lemma ShownTable(block: string, html: seq<Node>)
    requires IsTable(block) && Shows(block, html)
    ensures ReadTable(html, [], []) == CellRows(DropSeparators(Lines(block, 0)))
  {
    hide IsTable, ReadTable, CellRows, DropSeparators, Lines;
  }

  // ---------------------------------------------------------------- the head of a table

  function Heads(html: seq<Node>): nat {
    multiset(html)[Raw("<th>")]
  }

  lemma HeadsConcat(a: seq<Node>, b: seq<Node>)
    ensures Heads(a + b) == Heads(a) + Heads(b)
  {
  }

  lemma HeadsOne()
    ensures Heads([]) == 0 && Heads([Raw("<th>")]) == 1 && Heads([Raw("</th>")]) == 0
    ensures Heads([Raw("<td>")]) == 0 && Heads([Raw("</td>")]) == 0
    ensures Heads([Raw("<tr>")]) == 0 && Heads([Raw("</tr>")]) == 0
  {
  }

  lemma NoHeadInCell(cell: string)
    ensures Heads(ToMarkers(Escape(cell))) == 0
  {
    hide ToMarkers, Escape;
    CharNodes(Escape(cell));
    assert Raw("<th>") !in ToMarkers(Escape(cell));
  }

  lemma {:induction false} HeadsOfCells(open: string, close: string, cells: seq<string>)
    requires (open == "<th>" && close == "</th>") || (open == "<td>" && close == "</td>")
    ensures Heads(CellsHtml(open, close, cells)) == if open == "<th>" then |cells| else 0
  {
    hide Heads, ToMarkers, Escape;
    HeadsOne();
    if cells != [] {
      var content, rest := ToMarkers(Escape(cells[0])), CellsHtml(open, close, cells[1..]);
      NoHeadInCell(cells[0]);
      HeadsOfCells(open, close, cells[1..]);
      HeadsConcat([Raw(open)], content);
      HeadsConcat([Raw(open)] + content, [Raw(close)]);
      HeadsConcat([Raw(open)] + content + [Raw(close)], rest);
    }
  }

  lemma HeadsOfRow(open: string, close: string, line: string)
    requires (open == "<th>" && close == "</th>") || (open == "<td>" && close == "</td>")
    ensures Heads(RowHtml(open, close, line)) == if open == "<th>" then |Cells(line)| else 0
  {
    hide Heads, Cells, CellsHtml;
    HeadsOne();
    var cells := CellsHtml(open, close, Cells(line));
    HeadsOfCells(open, close, Cells(line));
    HeadsConcat([Raw("<tr>")], cells);
    HeadsConcat([Raw("<tr>")] + cells, [Raw("</tr>")]);
  }

  lemma {:induction false} HeadsOfRows(lines: seq<string>)
    ensures Heads(RowsHtml(lines)) == 0
  {
    hide Heads, RowHtml;
    HeadsOne();
    if lines != [] {
      HeadsOfRow("<td>", "</td>", lines[0]);
      HeadsOfRows(lines[1..]);
      HeadsConcat(RowHtml("<td>", "</td>", lines[0]), RowsHtml(lines[1..]));
    }
  }

  lemma HeadsOfFrame()
    ensures Heads([Raw("<table class=\"data-table\"><thead>")]) == 0 && Heads([Raw("</thead><tbody>")]) == 0
    ensures Heads([Raw("</tbody></table>")]) == 0
  {
  }

  /** The cells of the first row that is kept are the header cells of a table, and no others. */
  lemma HeadIsFirstRow(lines: seq<string>)
    ensures var rows := DropSeparators(lines);
      Heads(TableHtml(lines)) == if rows == [] then 0 else |Cells(rows[0])|
  {
    hide *;
    var rows := DropSeparators(lines);
    UnfoldTable(lines);
    HeadsOne();
    if rows != [] {
      HeadsOfFrame();
      var open, mid := [Raw("<table class=\"data-table\"><thead>")], [Raw("</thead><tbody>")];
      var head, body, end := RowHtml("<th>", "</th>", rows[0]), RowsHtml(rows[1..]), [Raw("</tbody></table>")];
      HeadsOfRow("<th>", "</th>", rows[0]);
      HeadsOfRows(rows[1..]);
      HeadsConcat(body, end);
      HeadsConcat(mid, body + end);
      HeadsConcat(head, mid + (body + end));
      HeadsConcat(open, head + (mid + (body + end)));
    }
  }
}
