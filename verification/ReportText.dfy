/** Reading the rendered HTML back: no text is lost, changed or let through as markup. */
module ReportText {
  import opened Text
  import opened ReportMarkers
  import opened ReportRendering

  // ---------------------------------------------------------------- markers back to placeholders

  function NodeText(n: Node): string {
    match n
    case Raw(text) => text
    case Marker(digits) => OPENING + digits + "@@"
  }

  function Flat(html: seq<Node>): string {
    if html == [] then "" else NodeText(html[0]) + Flat(html[1..])
  }

  lemma PlaceholderText(s: string)
    requires PlaceholderAt(s).Some?
    ensures var d := PlaceholderAt(s).value; s[..|d| + 8] == OPENING + d + "@@"
  {
    var d := PlaceholderAt(s).value;
    assert s[..6] == OPENING && s[6..6 + |d|] == d && s[6 + |d|..|d| + 8] == "@@";
    assert s[..|d| + 8] == s[..6] + s[6..6 + |d|] + s[6 + |d|..|d| + 8];
  }

  /** Marking placeholders conserves the text: writing them back gives what was scanned. */
  lemma {:induction false} FlatMarkers(s: string)
    ensures Flat(ToMarkers(s)) == s
    decreases |s|
  {
    hide PlaceholderAt;
    if s != "" {
      match PlaceholderAt(s)
      case Some(d) =>
        PlaceholderText(s);
        FlatMarkers(s[|d| + 8..]);
        assert ([Marker(d)] + ToMarkers(s[|d| + 8..]))[1..] == ToMarkers(s[|d| + 8..]);
      case None =>
        FlatMarkers(s[1..]);
        assert ([Raw([s[0]])] + ToMarkers(s[1..]))[1..] == ToMarkers(s[1..]);
    }
  }

  // ---------------------------------------------------------------- what a browser shows

  /** The five entities of `html.escape`, decoded. */
  function Unescape(s: string): string
    decreases |s|
  {
    if s == "" then ""
    else if "&amp;" <= s then "&" + Unescape(s[5..])
    else if "&lt;" <= s then "<" + Unescape(s[4..])
    else if "&gt;" <= s then ">" + Unescape(s[4..])
    else if "&quot;" <= s then "\"" + Unescape(s[6..])
    else if "&#x27;" <= s then "'" + Unescape(s[6..])
    else [s[0]] + Unescape(s[1..])
  }

  function Unbreak(s: string): string
    decreases |s|
  {
    if s == "" then ""
    else if "<br/>" <= s then "\n" + Unbreak(s[5..])
    else [s[0]] + Unbreak(s[1..])
  }

  lemma UnescapePlain(c: char, rest: string)
    requires c != '&'
    ensures Unescape([c] + rest) == [c] + Unescape(rest)
  {
    var s := [c] + rest;
    assert s[0] == c && s[1..] == rest;
  }

  lemma UnescapeEntity(c: char, rest: string)
    requires EscapeChar(c) != [c]
    ensures Unescape(EscapeChar(c) + rest) == [c] + Unescape(rest)
  {
    var s, e := EscapeChar(c) + rest, EscapeChar(c);
    assert s[|e|..] == rest && s[..|e|] == e;
    assert |s| >= 3 && s[1] == e[1] && s[2] == e[2];
  }

  lemma UnescapeChar(c: char, rest: string)
    ensures Unescape(EscapeChar(c) + rest) == [c] + Unescape(rest)
  {
    hide Unescape;
    if EscapeChar(c) == [c] {
      UnescapePlain(c, rest);
    } else {
      UnescapeEntity(c, rest);
    }
  }

  lemma {:induction false} UnescapeEscape(s: string)
    ensures Unescape(Escape(s)) == s
  {
    hide Unescape, EscapeChar;
    if s == "" {
      assert Unescape("") == "" by { UnescapeNothing(); }
    } else {
      UnescapeEscape(s[1..]);
      UnescapeChar(s[0], Escape(s[1..]));
    }
  }

  lemma UnescapeNothing()
    ensures Unescape("") == ""
  {
  }

  lemma UnbreakChar(c: char, rest: string)
    requires c != '<'
    ensures Unbreak(BreakChar(c) + rest) == [c] + Unbreak(rest)
  {
    var s := BreakChar(c) + rest;
    assert s[|BreakChar(c)|..] == rest;
    if c == '\n' {
      assert "<br/>" <= s;
    } else {
      assert s[0] == c;
    }
  }

  lemma {:induction false} UnbreakLineBreaks(s: string)
    requires '<' !in s
    ensures Unbreak(LineBreaks(s)) == s
  {
    hide Unbreak, BreakChar;
    if s == "" {
      assert Unbreak("") == "" by { UnbreakNothing(); }
    } else {
      UnbreakLineBreaks(s[1..]);
      UnbreakChar(s[0], LineBreaks(s[1..]));
    }
  }

  lemma UnbreakNothing()
    ensures Unbreak("") == ""
  {
  }

  predicate NoMarkup(s: string) {
    forall i :: 0 <= i < |s| ==> s[i] != '<' && s[i] != '>' && s[i] != '"' && s[i] != '\''
  }

  lemma {:induction false} EscapedHasNoMarkup(s: string)
    ensures NoMarkup(Escape(s))
  {
    if s != "" {
      EscapedHasNoMarkup(s[1..]);
      assert NoMarkup(EscapeChar(s[0])) by { EscapedChar(s[0]); }
    }
  }

  lemma EscapedChar(c: char)
    ensures NoMarkup(EscapeChar(c))
  {
  }

  // ---------------------------------------------------------------- cells and paragraphs

  /** A table cell, as rendered, reads back as the cell. */
  lemma CellReadsBack(cell: string)
    ensures Unescape(Flat(ToMarkers(Escape(cell)))) == cell
  {
    hide *;
    FlatMarkers(Escape(cell));
    UnescapeEscape(cell);
  }

  /** The text of a paragraph, as rendered, reads back as the block, line breaks included. */
  lemma ParagraphReadsBack(block: string)
    ensures Unescape(Unbreak(Flat(ToMarkers(LineBreaks(Escape(block)))))) == block
  {
    EscapedHasNoMarkup(block);
    assert '<' !in Escape(block);
    hide *;
    FlatMarkers(LineBreaks(Escape(block)));
    UnbreakLineBreaks(Escape(block));
    UnescapeEscape(block);
  }

  predicate NoTags(html: seq<Node>) {
    forall i :: 0 <= i < |html| && html[i].Raw? ==> |html[i].text| == 1 && NoMarkup(html[i].text)
  }

  /** The raw text inside a cell holds no tag and no quote mark: all tags of a table are the renderer's own. */
  lemma CellHasNoMarkup(cell: string)
    ensures NoTags(ToMarkers(Escape(cell)))
  {
    hide Escape, ToMarkers;
    EscapedHasNoMarkup(cell);
    RawFromText(Escape(cell));
  }

  lemma {:induction false} RawFromText(s: string)
    requires NoMarkup(s)
    ensures NoTags(ToMarkers(s))
    decreases |s|
  {
    hide PlaceholderAt;
    if s != "" {
      match PlaceholderAt(s)
      case Some(d) => RawFromText(s[|d| + 8..]);
      case None => RawFromText(s[1..]);
    }
  }

  // ---------------------------------------------------------------- tables

  // The tags that matter when a table is read back; a content node is none of them.
  datatype Tag = RowStart | RowEnd | CellStart | CellEnd | OtherNode

  function TagOf(n: Node): Tag {
    if n == Raw("<tr>") then RowStart
    else if n == Raw("</tr>") then RowEnd
    else if n == Raw("<td>") || n == Raw("<th>") then CellStart
    else if n == Raw("</td>") || n == Raw("</th>") then CellEnd
    else OtherNode
  }

  /**
   * The rows of a piece of HTML, each with its cells decoded: `row` holds the cells of the current row, `cell`
   * what has been read of the current cell.
   */
  function ReadTable(html: seq<Node>, row: seq<string>, cell: seq<Node>): seq<seq<string>>
    decreases |html|
  {
    if html == [] then [] else
    match TagOf(html[0])
    case RowStart => ReadTable(html[1..], [], [])
    case RowEnd => [row] + ReadTable(html[1..], [], [])
    case CellStart => ReadTable(html[1..], row, [])
    case CellEnd => ReadTable(html[1..], row + [Unescape(Flat(cell))], [])
    case OtherNode => ReadTable(html[1..], row, cell + [html[0]])
  }

  lemma ReadCons(n: Node, rest: seq<Node>, row: seq<string>, cell: seq<Node>)
    ensures ReadTable([n] + rest, row, cell) == match TagOf(n)
      case RowStart => ReadTable(rest, [], [])
      case RowEnd => [row] + ReadTable(rest, [], [])
      case CellStart => ReadTable(rest, row, [])
      case CellEnd => ReadTable(rest, row + [Unescape(Flat(cell))], [])
      case OtherNode => ReadTable(rest, row, cell + [n])
  {
    hide TagOf, Unescape, Flat;
    assert ([n] + rest)[1..] == rest;
  }

  predicate NoTableTags(html: seq<Node>) {
    forall i :: 0 <= i < |html| ==> TagOf(html[i]).OtherNode?
  }

  lemma {:induction false} ReadContent(content: seq<Node>, rest: seq<Node>, row: seq<string>, cell: seq<Node>)
    requires NoTableTags(content)
    ensures ReadTable(content + rest, row, cell) == ReadTable(rest, row, cell + content)
    decreases |content|
  {
    hide TagOf, ReadTable;
    if content == [] {
      assert content + rest == rest && cell + content == cell;
    } else {
      assert content + rest == [content[0]] + (content[1..] + rest);
      ReadCons(content[0], content[1..] + rest, row, cell);
      ReadContent(content[1..], rest, row, cell + [content[0]]);
      assert cell + [content[0]] + content[1..] == cell + content;
    }
  }

  lemma CellHasNoTableTags(cell: string)
    ensures NoTableTags(ToMarkers(Escape(cell)))
  {
    hide ToMarkers, Escape;
    CellHasNoMarkup(cell);
  }

  lemma ReadCell(open: string, close: string, cell: string, rest: seq<Node>, row: seq<string>, before: seq<Node>)
    requires TagOf(Raw(open)).CellStart? && TagOf(Raw(close)).CellEnd?
    ensures ReadTable([Raw(open)] + ToMarkers(Escape(cell)) + [Raw(close)] + rest, row, before)
         == ReadTable(rest, row + [cell], [])
  {
    hide *;
    var content := ToMarkers(Escape(cell));
    assert [Raw(open)] + content + [Raw(close)] + rest == [Raw(open)] + (content + ([Raw(close)] + rest));
    ReadCons(Raw(open), content + ([Raw(close)] + rest), row, before);
    CellHasNoTableTags(cell);
    ReadContent(content, [Raw(close)] + rest, row, []);
    assert [] + content == content;
    ReadCons(Raw(close), rest, row, content);
    CellReadsBack(cell);
  }

  lemma UnfoldCells(open: string, close: string, cells: seq<string>)
    requires cells != []
    ensures CellsHtml(open, close, cells)
      == [Raw(open)] + ToMarkers(Escape(cells[0])) + [Raw(close)] + CellsHtml(open, close, cells[1..])
  {
    hide ToMarkers, Escape;
  }

  /** The cells up to the end of a row are added to the row, which is then complete. */
  lemma {:induction false} ReadCells(open: string, close: string, cells: seq<string>, rest: seq<Node>,
                                     row: seq<string>, before: seq<Node>)
    requires TagOf(Raw(open)).CellStart? && TagOf(Raw(close)).CellEnd? && TagOf(Raw("</tr>")).RowEnd?
    ensures ReadTable(CellsHtml(open, close, cells) + ([Raw("</tr>")] + rest), row, before)
         == [row + cells] + ReadTable(rest, [], [])
  {
    hide *;
    var end := [Raw("</tr>")] + rest;
    if cells == [] {
      NoCells(open, close);
      assert CellsHtml(open, close, cells) + end == end && row + cells == row;
      ReadCons(Raw("</tr>"), rest, row, before);
    } else {
      var more := CellsHtml(open, close, cells[1..]) + end;
      UnfoldCells(open, close, cells);
      assert CellsHtml(open, close, cells) + end
        == [Raw(open)] + ToMarkers(Escape(cells[0])) + [Raw(close)] + more;
      ReadCell(open, close, cells[0], more, row, before);
      ReadCells(open, close, cells[1..], rest, row + [cells[0]], []);
      assert row + [cells[0]] + cells[1..] == row + cells;
    }
  }

  lemma NoCells(open: string, close: string)
    ensures CellsHtml(open, close, []) == []
  {
  }

  lemma ReadRow(open: string, close: string, line: string, rest: seq<Node>, row: seq<string>, before: seq<Node>)
    requires TagOf(Raw(open)).CellStart? && TagOf(Raw(close)).CellEnd?
    ensures ReadTable(RowHtml(open, close, line) + rest, row, before) == [Cells(line)] + ReadTable(rest, [], [])
  {
    hide ReadTable, CellsHtml, Cells;
    var cells := CellsHtml(open, close, Cells(line));
    assert RowHtml(open, close, line) + rest == [Raw("<tr>")] + (cells + ([Raw("</tr>")] + rest));
    ReadCons(Raw("<tr>"), cells + ([Raw("</tr>")] + rest), row, before);
    ReadCells(open, close, Cells(line), rest, [], []);
    assert [] + Cells(line) == Cells(line);
  }

  /** The cells of each line. */
  function CellRows(lines: seq<string>): seq<seq<string>> {
    if lines == [] then [] else [Cells(lines[0])] + CellRows(lines[1..])
  }

  lemma TableTags()
    ensures TagOf(Raw("<td>")).CellStart? && TagOf(Raw("</td>")).CellEnd?
    ensures TagOf(Raw("<th>")).CellStart? && TagOf(Raw("</th>")).CellEnd?
    ensures NoTableTags([Raw("<table class=\"data-table\"><thead>")]) && NoTableTags([Raw("</thead><tbody>")])
    ensures NoTableTags([Raw("</tbody></table>")])
  {
  }

  lemma ReadNothing(row: seq<string>, before: seq<Node>)
    ensures ReadTable([], row, before) == []
  {
  }

  lemma UnfoldRows(lines: seq<string>)
    ensures RowsHtml(lines) == (if lines == [] then [] else RowHtml("<td>", "</td>", lines[0]) + RowsHtml(lines[1..]))
    ensures CellRows(lines) == (if lines == [] then [] else [Cells(lines[0])] + CellRows(lines[1..]))
  {
    hide RowHtml, Cells;
  }

  lemma {:induction false} ReadRows(lines: seq<string>, row: seq<string>, before: seq<Node>)
    ensures ReadTable(RowsHtml(lines) + [Raw("</tbody></table>")], row, before) == CellRows(lines)
  {
    hide *;
    TableTags();
    UnfoldRows(lines);
    var end := [Raw("</tbody></table>")];
    if lines == [] {
      assert RowsHtml(lines) + end == end + [];
      ReadContent(end, [], row, before);
      ReadNothing(row, before + end);
    } else {
      var first := RowHtml("<td>", "</td>", lines[0]);
      assert RowsHtml(lines) + end == first + (RowsHtml(lines[1..]) + end);
      ReadRow("<td>", "</td>", lines[0], RowsHtml(lines[1..]) + end, row, before);
      ReadRows(lines[1..], [], []);
    }
  }

  lemma UnfoldTable(lines: seq<string>)
    ensures var rows := DropSeparators(lines);
      TableHtml(lines) == if rows == [] then [] else
        [Raw("<table class=\"data-table\"><thead>")]
          + (RowHtml("<th>", "</th>", rows[0])
             + ([Raw("</thead><tbody>")] + (RowsHtml(rows[1..]) + [Raw("</tbody></table>")])))
  {
    hide DropSeparators, RowHtml, RowsHtml;
  }

  /** A rendered table reads back as its lines, row by row and cell by cell, with only the separator rows left out. */
  lemma TableReadsBack(lines: seq<string>)
    ensures ReadTable(TableHtml(lines), [], []) == CellRows(DropSeparators(lines))
  {
    hide *;
    var rows := DropSeparators(lines);
    UnfoldTable(lines);
    UnfoldRows(rows);
    if rows == [] {
      ReadNothing([], []);
    } else {
      TableTags();
      var open, mid := [Raw("<table class=\"data-table\"><thead>")], [Raw("</thead><tbody>")];
      var head, body := RowHtml("<th>", "</th>", rows[0]), RowsHtml(rows[1..]) + [Raw("</tbody></table>")];
      ReadContent(open, head + (mid + body), [], []);
      ReadRow("<th>", "</th>", rows[0], mid + body, [], [] + open);
      ReadContent(mid, body, [], []);
      ReadRows(rows[1..], [], [] + mid);
    }
  }
}
